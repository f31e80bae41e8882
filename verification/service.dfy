/** The HTTP handlers as pure functions of what they read. The clock, the
    random draws, the client's headers, the request body after binding and
    validation, what the cache returns and what the repository answers are
    all parameters; what a handler sends and what it hands to the
    repository and the cache are its results. */
module Service {
  import opened Wrappers
  import opened Calendar
  import opened Layout
  import opened RepoEntity
  import opened Repo
  import opened Dto

  /** The service's view of a link, as returned to clients and cached. */
  datatype Url = Url(
    id: int,
    short: string,
    original: string,
    customAlias: Option<string>,
    createdAt: int,
    expiresAt: Option<int>)

  function ToServiceUrl(e: UrlEntity): Url {
    Url(e.id, e.short, e.original, e.customAlias, e.createdAt, e.expiresAt)
  }

  function FromServiceUrl(u: Url): UrlEntity {
    UrlEntity(u.id, u.short, u.original, u.customAlias, u.createdAt, u.expiresAt)
  }

  /** The conversion loses nothing in either direction. */
  lemma ServiceUrlRoundTrip(e: UrlEntity, u: Url)
    ensures FromServiceUrl(ToServiceUrl(e)) == e
    ensures ToServiceUrl(FromServiceUrl(u)) == u
  {
  }

  /** `expires_at` is set and strictly before now; a link expiring at this
      very second is still live. */
  predicate Expired(expiresAt: Option<int>, now: int) {
    expiresAt.Some? && expiresAt.value < now
  }

  /** The cache key of a link. */
  function CacheKey(short: string): string {
    "url:" + short
  }

  // ---------------------------------------------------------------------
  // Short codes
  // ---------------------------------------------------------------------

  const ShortCodeLength: nat := 6

  /** `n` consecutive characters starting at `first`. */
  function CharRange(first: char, n: nat): (s: string)
    requires first as int + n <= 0xD800
    ensures |s| == n
    ensures forall i :: 0 <= i < n ==> s[i] as int == first as int + i
  {
    if n == 0 then [] else CharRange(first, n - 1) + [(first as int + n - 1) as char]
  }

  /** Lower-case letters, then upper-case letters, then digits. */
  const Alphabet: string := CharRange('a', 26) + CharRange('A', 26) + CharRange('0', 10)

  /** The index of a value drawn by `rand.Intn(62)`. */
  type Draw = d: int | 0 <= d < 62

  predicate IsAlphanumeric(c: char) {
    'a' <= c <= 'z' || 'A' <= c <= 'Z' || '0' <= c <= '9'
  }

  lemma AlphabetLayout()
    ensures |Alphabet| == 62
    ensures forall d :: 0 <= d < 26 ==> Alphabet[d] as int == 'a' as int + d
    ensures forall d :: 26 <= d < 52 ==> Alphabet[d] as int == 'A' as int + (d - 26)
    ensures forall d :: 52 <= d < 62 ==> Alphabet[d] as int == '0' as int + (d - 52)
  {
    var lower, upper, digits := CharRange('a', 26), CharRange('A', 26), CharRange('0', 10);
    assert Alphabet == lower + upper + digits;
    forall d | 26 <= d < 52 ensures Alphabet[d] == upper[d - 26] { }
    forall d | 52 <= d < 62 ensures Alphabet[d] == digits[d - 52] { }
  }

  /** The symbol for one draw. */
  function Symbol(d: Draw): (c: char)
    ensures IsAlphanumeric(c)
  {
    AlphabetLayout();
    Alphabet[d]
  }

  /** The draw a symbol stands for. */
  function DrawOf(c: char): (d: Draw)
    requires IsAlphanumeric(c)
    ensures Symbol(d) == c
  {
    AlphabetLayout();
    if 'a' <= c <= 'z' then c as int - 'a' as int
    else if 'A' <= c <= 'Z' then 26 + (c as int - 'A' as int)
    else 52 + (c as int - '0' as int)
  }

  /** Symbols of distinct draws are distinct. */
  lemma SymbolInjective(a: Draw, b: Draw)
    requires Symbol(a) == Symbol(b)
    ensures a == b
  {
    AlphabetLayout();
  }

  /** `generateShortCode`: one alphabet symbol per draw. */
  function ShortCode(draws: seq<Draw>): (code: string)
    ensures |code| == |draws|
    ensures forall i :: 0 <= i < |code| ==> IsAlphanumeric(code[i])
  {
    if draws == [] then []
    else ShortCode(draws[..|draws| - 1]) + [Symbol(draws[|draws| - 1])]
  }

  predicate AllAlphanumeric(s: string) {
    forall i :: 0 <= i < |s| ==> IsAlphanumeric(s[i])
  }

  /** The draws a code was generated from. */
  function DecodeShortCode(code: string): (draws: seq<Draw>)
    requires AllAlphanumeric(code)
    ensures |draws| == |code|
  {
    seq(|code|, i requires 0 <= i < |code| => DrawOf(code[i]))
  }

  lemma {:induction false} ShortCodeSymbols(draws: seq<Draw>)
    ensures forall i :: 0 <= i < |draws| ==> ShortCode(draws)[i] == Symbol(draws[i])
  {
    forall i | 0 <= i < |draws| ensures ShortCode(draws)[i] == Symbol(draws[i]) {
      ShortCodeSymbol(draws, i);
    }
  }

  /** The symbol at one position of a generated code is that draw's. */
  lemma {:induction false} ShortCodeSymbol(draws: seq<Draw>, i: int)
    requires 0 <= i < |draws|
    ensures ShortCode(draws)[i] == Symbol(draws[i])
    decreases |draws|
  {
    var init := draws[..|draws| - 1];
    if i < |init| {
      ShortCodeSymbol(init, i);
      assert draws[i] == init[i];
    }
  }

  /** A generated code determines its draws. */
  lemma DecodeGenerated(draws: seq<Draw>)
    ensures DecodeShortCode(ShortCode(draws)) == draws
  {
    ShortCodeSymbols(draws);
    var code := ShortCode(draws);
    forall i | 0 <= i < |draws| ensures DecodeShortCode(code)[i] == draws[i] {
      SymbolInjective(DrawOf(code[i]), draws[i]);
    }
  }

  /** Every alphanumeric code of the right length can be generated. */
  lemma GenerateDecoded(code: string)
    requires AllAlphanumeric(code)
    ensures ShortCode(DecodeShortCode(code)) == code
  {
    ShortCodeSymbols(DecodeShortCode(code));
  }

  // ---------------------------------------------------------------------
  // User agents and clicks
  // ---------------------------------------------------------------------

  /** The user-agent library's answers for a header value. */
  datatype UaParser = UaParser(
    browser: string -> string,
    os: string -> string,
    mobile: string -> bool,
    bot: string -> bool)

  datatype Agent = Agent(browser: string, os: string, device: string)

  const Desktop: string := "Desktop"
  const Mobile: string := "Mobile"
  const Bot: string := "Bot"

  /** `parseUserAgent`: an empty header is Unknown throughout; otherwise the
      library's browser and OS names, and a device category in which a
      mobile signature takes precedence over a bot signature. */
  function ParseUserAgent(ua: string, p: UaParser): (a: Agent)
    ensures ua == "" ==> a == Agent(Unknown, Unknown, Unknown)
    ensures ua != "" ==> a.browser == p.browser(ua) && a.os == p.os(ua)
    ensures ua != "" ==> (a.device == Mobile <==> p.mobile(ua))
    ensures ua != "" ==> (a.device == Bot <==> !p.mobile(ua) && p.bot(ua))
    ensures ua != "" ==> (a.device == Desktop <==> !p.mobile(ua) && !p.bot(ua))
  {
    if ua == "" then Agent(Unknown, Unknown, Unknown)
    else
      var device := if p.mobile(ua) then Mobile else if p.bot(ua) then Bot else Desktop;
      Agent(p.browser(ua), p.os(ua), device)
  }

  /** Every parsed agent falls in exactly one of the four device categories. */
  lemma DeviceCategory(ua: string, p: UaParser)
    ensures ParseUserAgent(ua, p).device in [Unknown, Mobile, Bot, Desktop]
    ensures ParseUserAgent(ua, p).device == Unknown <==> ua == ""
  {
  }

  /** What the handler learns about the client. */
  datatype Visitor = Visitor(ip: string, ua: string, referer: string)

  /** The click `recordClick` hands to the repository; the id is left for
      the repository to assign. */
  function ClickFor(short: string, v: Visitor, now: int, p: UaParser): (c: ClickEntity)
    ensures c.short == short && c.createdAt == now
    ensures c.ip == Some(v.ip) && c.rawUA == Some(v.ua) && c.referer == Some(v.referer)
    ensures c.browser.Some? && c.os.Some? && c.device.Some?
    ensures ParseUserAgent(v.ua, p) == Agent(c.browser.value, c.os.value, c.device.value)
  {
    var a := ParseUserAgent(v.ua, p);
    ClickEntity(0, short, now, Some(v.ip), Some(a.browser), Some(a.os), Some(a.device), Some(v.ua), Some(v.referer))
  }

  // ---------------------------------------------------------------------
  // Replies
  // ---------------------------------------------------------------------

  /** The data a success reply may carry. */
  datatype Payload =
    | UrlData(url: Url)
    | AnalyticsData(analytics: UrlAnalytics)
    | WindowData(window: UrlAnalyticsByPeriod)
    | FieldData(short: string, field: string, stats: seq<FieldStat>, period: AnalyticsPeriod)

  /** A JSON reply, or a 302 redirect to a location. */
  datatype Reply = Json(sent: Sent<Payload>) | Found(location: string)

  // ---------------------------------------------------------------------
  // Redirect
  // ---------------------------------------------------------------------

  /** What a redirect request did: the reply, the click it recorded, and
      whether it read the repository. */
  datatype RedirectOutcome = RedirectOutcome(reply: Reply, click: Option<ClickEntity>, readStore: bool)

  /** The reply for a link found either in the cache or in the store. */
  function ServeLink(u: Url, v: Visitor, now: int, p: UaParser, readStore: bool): (o: RedirectOutcome)
    ensures o.readStore == readStore
    ensures Expired(u.expiresAt, now) ==> o.reply == Json(FieldIncorrectError("url")) && o.click.None?
    ensures !Expired(u.expiresAt, now) ==> o.reply == Found(u.original) && o.click == Some(ClickFor(u.short, v, now, p))
  {
    if Expired(u.expiresAt, now) then RedirectOutcome(Json(FieldIncorrectError("url")), None, readStore)
    else RedirectOutcome(Found(u.original), Some(ClickFor(u.short, v, now, p)), readStore)
  }

  /** Cache-aside resolution of `code`. `cached` is what the cache yields
      under `CacheKey(code)`: None when there is no cache, on a miss, on a
      read error and on an undecodable entry. `stored` is what the
      repository's lookup answers; it is used only on a cache miss. */
  function Redirect(code: string, cached: Option<Url>, stored: Result<Option<UrlEntity>, DbError>,
                    v: Visitor, now: int, p: UaParser): (o: RedirectOutcome)
    ensures code == "" ==> o == RedirectOutcome(Json(FieldIncorrectError("short_url")), None, false)
    ensures o.readStore <==> code != "" && cached.None?
    ensures o.reply.Found? <==> o.click.Some?
    ensures code != "" && cached.Some? ==> o == ServeLink(cached.value, v, now, p, false)
    ensures code != "" && cached.None? && stored.Success? && stored.value.Some?
            ==> o == ServeLink(ToServiceUrl(stored.value.value), v, now, p, true)
    ensures code != "" && cached.None? && (stored.Failure? || stored.value.None?)
            ==> o == RedirectOutcome(Json(ShortNotFoundError()), None, true)
  {
    if code == "" then RedirectOutcome(Json(FieldIncorrectError("short_url")), None, false)
    else if cached.Some? then ServeLink(cached.value, v, now, p, false)
    else
      match stored
      case Failure(_) => RedirectOutcome(Json(ShortNotFoundError()), None, true)
      case Success(None) => RedirectOutcome(Json(ShortNotFoundError()), None, true)
      case Success(Some(e)) => ServeLink(ToServiceUrl(e), v, now, p, true)
  }

  /** A redirect always points at the target of a live link it was given,
      and records a click for that link's short code stamped now. */
  lemma RedirectServesLiveLink(code: string, cached: Option<Url>, stored: Result<Option<UrlEntity>, DbError>,
                               v: Visitor, now: int, p: UaParser)
    requires Redirect(code, cached, stored, v, now, p).reply.Found?
    ensures var o := Redirect(code, cached, stored, v, now, p);
            var u := if cached.Some? then cached.value else ToServiceUrl(stored.value.value);
            && (cached.None? ==> stored.Success? && stored.value.Some?)
            && !Expired(u.expiresAt, now)
            && o.reply.location == u.original
            && o.click.value.short == u.short && o.click.value.createdAt == now
  {
  }

  // ---------------------------------------------------------------------
  // Create
  // ---------------------------------------------------------------------

  /** A bound request body. */
  datatype CreateRequest = CreateRequest(original: string, customAlias: Option<string>, expiresAt: Option<int>)

  /** What a create request did: the reply, the row it tried to insert, and
      the cache entry it wrote. */
  datatype CreateOutcome = CreateOutcome(reply: Reply, inserted: Option<UrlEntity>, cacheWrite: Option<(string, Url)>)

  function ConflictMessage(): string {
    "Custom alias already exists"
  }

  /** `CreateUrl`. `body` is None when the JSON does not bind; `verdict` is
      the validator's error text, None when the request is valid; `draws`
      are the six random draws; `insert` is the repository's answer for a
      row; `cacheOn` says whether a cache client exists. */
  function CreateUrl(body: Option<CreateRequest>, verdict: Option<string>, draws: seq<Draw>, now: int,
                     insert: UrlEntity -> Result<int, DbError>, cacheOn: bool): (o: CreateOutcome)
    requires |draws| == ShortCodeLength
    ensures body.None? ==> o == CreateOutcome(Json(BadResponseError(FieldBadFormat, "Invalid request body")), None, None)
    ensures body.Some? && verdict.Some? ==>
              o == CreateOutcome(Json(BadResponseError(FieldIncorrect, verdict.value)), None, None)
    ensures o.inserted.Some? <==> body.Some? && verdict.None?
    ensures o.inserted.Some? ==>
              var e, req := o.inserted.value, body.value;
              && e.original == req.original && e.customAlias == req.customAlias
              && e.expiresAt == req.expiresAt && e.createdAt == now
              && (req.customAlias.Some? ==> e.short == req.customAlias.value)
              && (req.customAlias.None? ==> e.short == ShortCode(draws))
    ensures o.inserted.Some? && insert(o.inserted.value).Success? ==>
              var e := o.inserted.value;
              var u := ToServiceUrl(e.(id := insert(e).value));
              && o.reply == Json(SuccessCreatedResponse(UrlData(u)))
              && o.cacheWrite == (if cacheOn then Some((CacheKey(e.short), u)) else None)
    ensures o.inserted.Some? && insert(o.inserted.value).Failure? ==>
              o.cacheWrite.None?
              && (if insert(o.inserted.value).error == PgError(UniqueViolation) && body.value.customAlias.Some?
                  then o.reply == Json(BadResponseError(FieldIncorrect, ConflictMessage()))
                  else o.reply == Json(InternalServerError()))
    ensures o.reply.Json? && (o.reply.sent.httpStatus == 201 <==> o.inserted.Some? && insert(o.inserted.value).Success?)
  {
    match body
    case None => CreateOutcome(Json(BadResponseError(FieldBadFormat, "Invalid request body")), None, None)
    case Some(req) =>
      if verdict.Some? then CreateOutcome(Json(BadResponseError(FieldIncorrect, verdict.value)), None, None)
      else
        var short := if req.customAlias.Some? then req.customAlias.value else ShortCode(draws);
        var e := UrlEntity(0, short, req.original, req.customAlias, now, req.expiresAt);
        match insert(e)
        case Failure(err) =>
          if err == PgError(UniqueViolation) && req.customAlias.Some?
          then CreateOutcome(Json(BadResponseError(FieldIncorrect, ConflictMessage())), Some(e), None)
          else CreateOutcome(Json(InternalServerError()), Some(e), None)
        case Success(id) =>
          var u := ToServiceUrl(e.(id := id));
          CreateOutcome(Json(SuccessCreatedResponse(UrlData(u))), Some(e), if cacheOn then Some((CacheKey(short), u)) else None)
  }

  /** A generated code is six alphanumeric characters fixed by the draws:
      different draws give different codes. */
  lemma GeneratedCodeShape(draws: seq<Draw>, other: seq<Draw>)
    requires |draws| == ShortCodeLength && |other| == ShortCodeLength
    ensures |ShortCode(draws)| == ShortCodeLength && AllAlphanumeric(ShortCode(draws))
    ensures ShortCode(draws) == ShortCode(other) ==> draws == other
  {
    DecodeGenerated(draws);
    DecodeGenerated(other);
  }

  // ---------------------------------------------------------------------
  // Analytics
  // ---------------------------------------------------------------------

  /** The bound analytics request; an absent or unreadable body binds to
      empty strings. */
  datatype AnalyticsRequest = AnalyticsRequest(dimension: string, value: string)

  /** `ShowAnalytics`. `stored` is the lookup of the code; `clicks` is the
      click table as the analytics queries see it, or the fault they hit. */
  function ShowAnalytics(code: string, req: AnalyticsRequest, stored: Result<Option<UrlEntity>, DbError>,
                         clicks: Result<seq<ClickEntity>, DbError>, now: int): (r: Sent<Payload>)
    ensures IsErrorEnvelope(r) || IsSuccessEnvelope(r)
    ensures code == "" ==> r == FieldIncorrectError("short_url")
    ensures code != "" && (stored.Failure? || stored.value.None?) ==> r == ShortNotFoundError()
    ensures r.httpStatus == 500 <==> code != "" && stored.Success? && stored.value.Some? && clicks.Failure?
                                      && (req.dimension == "day" ==> ParseDay(req.value).Some?)
                                      && (req.dimension == "month" ==> ParseMonth(req.value).Some?)
    ensures IsSuccessEnvelope(r) <==> code != "" && stored.Success? && stored.value.Some? && clicks.Success?
                                      && (req.dimension == "day" ==> ParseDay(req.value).Some?)
                                      && (req.dimension == "month" ==> ParseMonth(req.value).Some?)
    ensures code != "" && stored.Success? && stored.value.Some? &&
            ((req.dimension == "day" && ParseDay(req.value).None?) || (req.dimension == "month" && ParseMonth(req.value).None?))
            ==> r.httpStatus == 400 && ErrorOf(r).value.code == FieldIncorrect
    ensures IsSuccessEnvelope(r) && req.dimension == "day" ==>
              ParseDay(req.value).Some? &&
              r == SuccessResponse(WindowData(GetAnalyticsByDay(clicks.value, code, Midnight(ParseDay(req.value).value))))
    ensures IsSuccessEnvelope(r) && req.dimension == "month" ==>
              ParseMonth(req.value).Some? &&
              r == SuccessResponse(WindowData(GetAnalyticsByMonth(clicks.value, code, Midnight(ParseMonth(req.value).value))))
    ensures IsSuccessEnvelope(r) && (req.dimension == "browser" || req.dimension == "os" || req.dimension == "device") ==>
              var a := GetAnalyticsByField(clicks.value, code, req.dimension, now).value;
              r == SuccessResponse(FieldData(code, req.dimension, a.0, a.1))
    ensures IsSuccessEnvelope(r) && req.dimension !in ["day", "month", "browser", "os", "device"] ==>
              r == SuccessResponse(AnalyticsData(GetUrlAnalytics(clicks.value, code, now)))
  {
    if code == "" then FieldIncorrectError("short_url")
    else if stored.Failure? || stored.value.None? then ShortNotFoundError()
    else if req.dimension == "day" then
      if req.value == "" then BadResponseError(FieldIncorrect, "'value' must be specified for day analytics")
      else match ParseDay(req.value)
        case None => BadResponseError(FieldIncorrect, "invalid date format, must be YYYY-MM-DD")
        case Some(d) =>
          if clicks.Failure? then InternalServerError()
          else SuccessResponse(WindowData(GetAnalyticsByDay(clicks.value, code, Midnight(d))))
    else if req.dimension == "month" then
      if req.value == "" then BadResponseError(FieldIncorrect, "'value' must be specified for month analytics")
      else match ParseMonth(req.value)
        case None => BadResponseError(FieldIncorrect, "invalid month format, must be YYYY-MM")
        case Some(m) =>
          if clicks.Failure? then InternalServerError()
          else SuccessResponse(WindowData(GetAnalyticsByMonth(clicks.value, code, Midnight(m))))
    else if req.dimension == "browser" || req.dimension == "os" || req.dimension == "device" then
      if clicks.Failure? then InternalServerError()
      else
        var a := GetAnalyticsByField(clicks.value, code, req.dimension, now).value;
        SuccessResponse(FieldData(code, req.dimension, a.0, a.1))
    else if clicks.Failure? then InternalServerError()
    else SuccessResponse(AnalyticsData(GetUrlAnalytics(clicks.value, code, now)))
  }

  /** A request that names no known breakdown gets the default analytics. */
  lemma DefaultAnalytics(code: string, req: AnalyticsRequest, e: UrlEntity, clicks: seq<ClickEntity>, now: int)
    requires code != "" && req.dimension !in ["day", "month", "browser", "os", "device"]
    ensures ShowAnalytics(code, req, Success(Some(e)), Success(clicks), now)
            == SuccessResponse(AnalyticsData(GetUrlAnalytics(clicks, code, now)))
  {
  }
}
