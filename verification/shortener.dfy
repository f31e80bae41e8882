/** The deployed system: the store and the cache, driven by the three
    handlers. The store is healthy here (its faults are studied per handler
    in `Service`); the cache may be switched off and a cache write may fail.
    A cached value is what creation wrote, so its JSON encoding and decoding
    are taken to be inverse. */
module Shortener {
  import opened Wrappers
  import opened RepoEntity
  import opened Dto
  import Calendar
  import Repo
  import Service

  /** The store and the cache (key to cached link). */
  datatype System = System(store: Repo.Store, cache: map<string, Service.Url>)

  // ---------------------------------------------------------------------
  // The invariant
  // ---------------------------------------------------------------------

  /** The UNIQUE constraint on `short`. */
  predicate ShortsUnique(urls: seq<UrlEntity>) {
    forall i, j :: 0 <= i < j < |urls| ==> urls[i].short != urls[j].short
  }

  /** A custom alias is always stored as the link's short code. */
  predicate AliasesAreShorts(urls: seq<UrlEntity>) {
    forall i :: 0 <= i < |urls| && urls[i].customAlias.Some? ==> urls[i].customAlias.value == urls[i].short
  }

  /** Every cache entry is the stored link of its key. */
  predicate CacheCoherent(sys: System) {
    forall k :: k in sys.cache ==>
      exists i :: 0 <= i < |sys.store.urls| && k == Service.CacheKey(sys.store.urls[i].short)
                  && sys.cache[k] == Service.ToServiceUrl(sys.store.urls[i])
  }

  /** Every click belongs to a stored link. */
  predicate ClicksOwned(st: Repo.Store) {
    forall c :: c in st.clicks ==> Repo.ShortTaken(st.urls, c.short)
  }

  predicate Coherent(sys: System) {
    && ShortsUnique(sys.store.urls)
    && AliasesAreShorts(sys.store.urls)
    && CacheCoherent(sys)
    && ClicksOwned(sys.store)
  }

  /** The system before any request. */
  function Initial(): (sys: System)
    ensures Coherent(sys)
  {
    System(Repo.Store([], []), map[])
  }

  // ---------------------------------------------------------------------
  // The handlers against the system
  // ---------------------------------------------------------------------

  /** The repository's answer to an insert, as the handler sees it. */
  function InsertAnswer(st: Repo.Store, e: UrlEntity): (r: Result<int, Repo.DbError>)
    ensures r.Success? <==> !Repo.ShortTaken(st.urls, e.short)
    ensures r.Failure? ==> r.error == Repo.PgError(Repo.UniqueViolation)
  {
    match Repo.CreateUrl(st, e)
    case Success((_, id)) => Success(id)
    case Failure(err) => Failure(err)
  }

  /** The link the cache holds for `code`, when there is a cache. */
  function CachedLink(sys: System, code: string, cacheOn: bool): Option<Service.Url> {
    var key := Service.CacheKey(code);
    if cacheOn && key in sys.cache then Some(sys.cache[key]) else None
  }

  predicate Created(o: Service.CreateOutcome) {
    o.reply.Json? && o.reply.sent.httpStatus == 201
  }

  /** A create request: the row is inserted when the handler's insert
      succeeds, and the cache entry is kept when the write goes through. */
  function Create(sys: System, body: Option<Service.CreateRequest>, verdict: Option<string>,
                  draws: seq<Service.Draw>, now: int, cacheOn: bool, cacheSetOk: bool)
    : (r: (Service.CreateOutcome, System))
    requires |draws| == Service.ShortCodeLength
    ensures r.1.store.clicks == sys.store.clicks
    ensures Created(r.0) ==> r.0.inserted.Some? && !Repo.ShortTaken(sys.store.urls, r.0.inserted.value.short)
    ensures Created(r.0) ==> exists id :: r.1.store.urls == sys.store.urls + [r.0.inserted.value.(id := id)]
    ensures !Created(r.0) ==> r.1 == sys
  {
    var o := Service.CreateUrl(body, verdict, draws, now, e => InsertAnswer(sys.store, e), cacheOn);
    if o.inserted.Some? && Repo.CreateUrl(sys.store, o.inserted.value).Success? then
      var (store, id) := Repo.CreateUrl(sys.store, o.inserted.value).value;
      var cache := if o.cacheWrite.Some? && cacheSetOk then sys.cache[o.cacheWrite.value.0 := o.cacheWrite.value.1] else sys.cache;
      (o, System(store, cache))
    else
      (o, sys)
  }

  /** A redirect request: the click it records is appended to the log. */
  function Redirect(sys: System, code: string, v: Service.Visitor, now: int, p: Service.UaParser, cacheOn: bool)
    : (r: (Service.RedirectOutcome, System))
    ensures r.1.store.urls == sys.store.urls && r.1.cache == sys.cache
    ensures r.0.click.Some? ==> r.1.store == Repo.CreateClick(sys.store, r.0.click.value)
    ensures r.0.click.None? ==> r.1 == sys
  {
    var stored := Success(Repo.GetUrlByShort(sys.store.urls, code));
    var o := Service.Redirect(code, CachedLink(sys, code, cacheOn), stored, v, now, p);
    if o.click.Some? then (o, System(Repo.CreateClick(sys.store, o.click.value), sys.cache)) else (o, sys)
  }

  /** An analytics request against a healthy store never answers 500. */
  function Analytics(sys: System, code: string, req: Service.AnalyticsRequest, now: int): (r: Sent<Service.Payload>)
    ensures r.httpStatus != 500
  {
    Service.ShowAnalytics(code, req, Success(Repo.GetUrlByShort(sys.store.urls, code)), Success(sys.store.clicks), now)
  }

  // ---------------------------------------------------------------------
  // Lookups under the invariant
  // ---------------------------------------------------------------------

  lemma CacheKeyInjective(a: string, b: string)
    requires Service.CacheKey(a) == Service.CacheKey(b)
    ensures a == b
  {
    assert a == Service.CacheKey(a)[4..];
    assert b == Service.CacheKey(b)[4..];
  }

  /** With aliases stored as shorts, a code matches a row exactly when it is
      the row's short code. */
  lemma MatchIsShort(urls: seq<UrlEntity>, i: int, code: string)
    requires AliasesAreShorts(urls) && 0 <= i < |urls|
    ensures Repo.MatchesCode(urls[i], code) <==> urls[i].short == code
  {
  }

  /** Under the invariant at most one row matches a code, so which matching
      row `LIMIT 1` returns cannot be observed. */
  lemma AtMostOneMatch(urls: seq<UrlEntity>, code: string, i: int, j: int)
    requires ShortsUnique(urls) && AliasesAreShorts(urls)
    requires 0 <= i < |urls| && 0 <= j < |urls|
    requires Repo.MatchesCode(urls[i], code) && Repo.MatchesCode(urls[j], code)
    ensures i == j
  {
    MatchIsShort(urls, i, code);
    MatchIsShort(urls, j, code);
  }

  /** The lookup finds the one row with that short code. */
  lemma LookupFinds(urls: seq<UrlEntity>, i: int)
    requires ShortsUnique(urls) && AliasesAreShorts(urls) && 0 <= i < |urls|
    ensures Repo.GetUrlByShort(urls, urls[i].short) == Some(urls[i])
  {
    var code := urls[i].short;
    MatchIsShort(urls, i, code);
    var r := Repo.GetUrlByShort(urls, code);
    var j :| 0 <= j < |urls| && urls[j] == r.value && Repo.MatchesCode(r.value, code);
    MatchIsShort(urls, j, code);
  }

  /** The lookup finds nothing for a code no row has as its short. */
  lemma LookupMisses(urls: seq<UrlEntity>, code: string)
    requires AliasesAreShorts(urls) && !Repo.ShortTaken(urls, code)
    ensures Repo.GetUrlByShort(urls, code) == None
  {
    forall i | 0 <= i < |urls| ensures !Repo.MatchesCode(urls[i], code) {
      MatchIsShort(urls, i, code);
    }
  }

  /** A cache hit returns the stored row the lookup would have found. */
  lemma CacheHitIsStored(sys: System, code: string, cacheOn: bool)
    requires Coherent(sys) && CachedLink(sys, code, cacheOn).Some?
    ensures Repo.GetUrlByShort(sys.store.urls, code) == Some(Service.FromServiceUrl(CachedLink(sys, code, cacheOn).value))
  {
    var key := Service.CacheKey(code);
    var urls := sys.store.urls;
    var i :| 0 <= i < |urls| && key == Service.CacheKey(urls[i].short) && sys.cache[key] == Service.ToServiceUrl(urls[i]);
    CacheKeyInjective(code, urls[i].short);
    LookupFinds(urls, i);
  }

  // ---------------------------------------------------------------------
  // Properties of the system
  // ---------------------------------------------------------------------

  /** Every create request keeps the invariant, whatever its outcome. */
  lemma CreatePreservesCoherence(sys: System, body: Option<Service.CreateRequest>, verdict: Option<string>,
                                 draws: seq<Service.Draw>, now: int, cacheOn: bool, cacheSetOk: bool)
    requires Coherent(sys) && |draws| == Service.ShortCodeLength
    ensures Coherent(Create(sys, body, verdict, draws, now, cacheOn, cacheSetOk).1)
  {
    var insert := (e: UrlEntity) => InsertAnswer(sys.store, e);
    var o := Service.CreateUrl(body, verdict, draws, now, insert, cacheOn);
    var r := Create(sys, body, verdict, draws, now, cacheOn, cacheSetOk);
    if o.inserted.Some? && Repo.CreateUrl(sys.store, o.inserted.value).Success? {
      var e := o.inserted.value;
      var (store, id) := Repo.CreateUrl(sys.store, e).value;
      var urls := sys.store.urls;
      var row := e.(id := id);
      assert store.urls == urls + [row];
      assert insert(e) == Success(id);
      assert r.1.store == store;
      forall i, j | 0 <= i < j < |store.urls| ensures store.urls[i].short != store.urls[j].short {
        if j == |urls| {
          assert store.urls[i] == urls[i];
        }
      }
      assert AliasesAreShorts(store.urls);
      forall k | k in r.1.cache
        ensures exists i :: 0 <= i < |store.urls| && k == Service.CacheKey(store.urls[i].short)
                            && r.1.cache[k] == Service.ToServiceUrl(store.urls[i])
      {
        if o.cacheWrite.Some? && cacheSetOk && k == o.cacheWrite.value.0 {
          assert store.urls[|urls|] == row;
        } else {
          var i :| 0 <= i < |urls| && k == Service.CacheKey(urls[i].short) && sys.cache[k] == Service.ToServiceUrl(urls[i]);
          assert store.urls[i] == urls[i];
        }
      }
      forall c | c in store.clicks ensures Repo.ShortTaken(store.urls, c.short) {
        var i :| 0 <= i < |urls| && urls[i].short == c.short;
        assert store.urls[i] == urls[i];
      }
    }
  }

  /** Every redirect request keeps the invariant: the click it records names
      a stored link. */
  lemma RedirectPreservesCoherence(sys: System, code: string, v: Service.Visitor, now: int,
                                   p: Service.UaParser, cacheOn: bool)
    requires Coherent(sys)
    ensures Coherent(Redirect(sys, code, v, now, p, cacheOn).1)
  {
    var r := Redirect(sys, code, v, now, p, cacheOn);
    var urls := sys.store.urls;
    if r.0.click.Some? {
      var c := r.0.click.value;
      if CachedLink(sys, code, cacheOn).Some? {
        CacheHitIsStored(sys, code, cacheOn);
      }
      var e := Repo.GetUrlByShort(urls, code).value;
      assert c.short == e.short;
      assert Repo.ShortTaken(urls, c.short);
      forall d | d in r.1.store.clicks ensures Repo.ShortTaken(urls, d.short) {
        if d !in sys.store.clicks {
          assert d == c.(id := |sys.store.clicks| + 1);
        }
      }
    }
  }

  /** The cache changes nothing a client or the click log can observe: with
      or without it, a redirect answers the same and records the same
      click. */
  lemma CacheIsTransparent(sys: System, code: string, v: Service.Visitor, now: int, p: Service.UaParser)
    requires Coherent(sys)
    ensures Redirect(sys, code, v, now, p, true).0.reply == Redirect(sys, code, v, now, p, false).0.reply
    ensures Redirect(sys, code, v, now, p, true).0.click == Redirect(sys, code, v, now, p, false).0.click
    ensures Redirect(sys, code, v, now, p, true).1 == Redirect(sys, code, v, now, p, false).1
  {
    if code != "" && CachedLink(sys, code, true).Some? {
      CacheHitIsStored(sys, code, true);
    }
  }

  /** A redirect succeeds exactly for a stored link with that short code
      that has not expired, and sends the client to its target. */
  lemma RedirectResolves(sys: System, code: string, v: Service.Visitor, now: int, p: Service.UaParser, cacheOn: bool)
    requires Coherent(sys)
    ensures var o := Redirect(sys, code, v, now, p, cacheOn).0;
            o.reply.Found? <==>
              code != "" && exists i :: 0 <= i < |sys.store.urls| && sys.store.urls[i].short == code
                                        && !Service.Expired(sys.store.urls[i].expiresAt, now)
    ensures var o := Redirect(sys, code, v, now, p, cacheOn).0;
            forall i :: 0 <= i < |sys.store.urls| && sys.store.urls[i].short == code && o.reply.Found?
              ==> o.reply.location == sys.store.urls[i].original
  {
    CacheIsTransparent(sys, code, v, now, p);
    UncachedRedirectResolves(sys, code, v, now, p);
  }

  /** The same, read straight from the store. */
  lemma UncachedRedirectResolves(sys: System, code: string, v: Service.Visitor, now: int, p: Service.UaParser)
    requires Coherent(sys)
    ensures var o := Redirect(sys, code, v, now, p, false).0;
            o.reply.Found? <==>
              code != "" && exists i :: 0 <= i < |sys.store.urls| && sys.store.urls[i].short == code
                                        && !Service.Expired(sys.store.urls[i].expiresAt, now)
    ensures var o := Redirect(sys, code, v, now, p, false).0;
            forall i :: 0 <= i < |sys.store.urls| && sys.store.urls[i].short == code && o.reply.Found?
              ==> o.reply.location == sys.store.urls[i].original
  {
    var urls := sys.store.urls;
    var o := Redirect(sys, code, v, now, p, false).0;
    assert o == Service.Redirect(code, None, Success(Repo.GetUrlByShort(urls, code)), v, now, p);
    if code != "" {
      if Repo.ShortTaken(urls, code) {
        var i :| 0 <= i < |urls| && urls[i].short == code;
        LookupFinds(urls, i);
        assert o == Service.ServeLink(Service.ToServiceUrl(urls[i]), v, now, p, true);
        assert forall j :: 0 <= j < |urls| && urls[j].short == code ==> j == i;
      } else {
        LookupMisses(urls, code);
        assert !o.reply.Found?;
      }
    }
  }

  /** A custom alias that is already taken is refused as a conflict, and the
      system is left as it was. */
  lemma DuplicateAliasRefused(sys: System, req: Service.CreateRequest, draws: seq<Service.Draw>, now: int,
                              cacheOn: bool, cacheSetOk: bool)
    requires |draws| == Service.ShortCodeLength
    requires req.customAlias.Some? && Repo.ShortTaken(sys.store.urls, req.customAlias.value)
    ensures var r := Create(sys, Some(req), None, draws, now, cacheOn, cacheSetOk);
            && r.0.reply == Service.Json(BadResponseError(FieldIncorrect, Service.ConflictMessage()))
            && r.1 == sys
  {
  }

  /** A link just created resolves to its target for as long as it has not
      expired, with or without the cache. */
  lemma CreatedLinkResolves(sys: System, req: Service.CreateRequest, draws: seq<Service.Draw>, t0: int,
                            cacheOn: bool, cacheSetOk: bool, code: string, v: Service.Visitor, t1: int,
                            p: Service.UaParser)
    requires Coherent(sys) && |draws| == Service.ShortCodeLength
    requires var r := Create(sys, Some(req), None, draws, t0, cacheOn, cacheSetOk);
             Created(r.0) && code == r.0.inserted.value.short && code != ""
    requires !Service.Expired(req.expiresAt, t1)
    ensures var s1 := Create(sys, Some(req), None, draws, t0, cacheOn, cacheSetOk).1;
            Redirect(s1, code, v, t1, p, cacheOn).0.reply == Service.Found(req.original)
  {
    var r := Create(sys, Some(req), None, draws, t0, cacheOn, cacheSetOk);
    var s1 := r.1;
    CreatePreservesCoherence(sys, Some(req), None, draws, t0, cacheOn, cacheSetOk);
    var id :| s1.store.urls == sys.store.urls + [r.0.inserted.value.(id := id)];
    var n := |sys.store.urls|;
    assert s1.store.urls[n].short == code;
    RedirectResolves(s1, code, v, t1, p, cacheOn);
  }

  /** A stored link's redirect records a click carrying its short code. */
  lemma RedirectClickShort(sys: System, i: int, v: Service.Visitor, now: int, p: Service.UaParser, cacheOn: bool)
    requires Coherent(sys) && 0 <= i < |sys.store.urls| && sys.store.urls[i].short != ""
    requires !Service.Expired(sys.store.urls[i].expiresAt, now)
    ensures var o := Redirect(sys, sys.store.urls[i].short, v, now, p, cacheOn).0;
            o.click == Some(Service.ClickFor(sys.store.urls[i].short, v, now, p))
  {
    var code := sys.store.urls[i].short;
    CacheIsTransparent(sys, code, v, now, p);
    LookupFinds(sys.store.urls, i);
  }

  /** The clicks of a code nobody has stored yet: none. */
  lemma NoClicksForNewCode(st: Repo.Store, code: string)
    requires ClicksOwned(st) && !Repo.ShortTaken(st.urls, code)
    ensures Repo.Select(st.clicks, code, Repo.AllTime) == []
  {
    forall c | c in st.clicks ensures c.short != code {
      assert Repo.ShortTaken(st.urls, c.short);
    }
    Repo.SelectNone(st.clicks, code, Repo.AllTime);
  }

  lemma SingleClickWindow(c: ClickEntity, code: string)
    requires c.short == code
    ensures Repo.Select([c], code, Repo.AllTime) == [c]
  {
    Repo.SelectAppend([], c, code, Repo.AllTime);
    assert [] + [c] == [c];
  }

  /** The only correct breakdown of one click is one row for its labels. */
  lemma SingleClickBreakdown(c: ClickEntity, rows: seq<UserAgentStat>)
    requires c.browser.Some? && c.os.Some? && c.device.Some?
    requires Repo.UserAgentBreakdown([c], rows)
    ensures rows == [UserAgentStat(c.browser.value, c.os.value, c.device.value, 1)]
  {
    Repo.UserAgentBreakdownFacts([c], rows);
    Repo.UserAgentBreakdownLabels([c], rows);
    assert |rows| == 1;
    assert Repo.LabelsOfSomeClick([c], Repo.RowLabels(rows[0]));
  }

  /** The analytics of a window holding one click. */
  lemma SingleClickAnalytics(c: ClickEntity, code: string, now: int)
    requires c.short == code && c.ip.Some? && c.browser.Some? && c.os.Some? && c.device.Some?
    ensures var a := Repo.GetUrlAnalytics([c], code, now);
            && a.totalClicks == 1 && a.uniqueIps == 1
            && a.userAgents == [UserAgentStat(c.browser.value, c.os.value, c.device.value, 1)]
  {
    SingleClickWindow(c, code);
    assert Repo.IpsOf([c]) == {c.ip.value};
    SingleClickBreakdown(c, Repo.GetUserAgentStats([c], code));
  }

  /** The default analytics read nothing but the code's clicks. */
  lemma AnalyticsFollowWindow(cs1: seq<ClickEntity>, cs2: seq<ClickEntity>, code: string, now: int)
    requires Repo.Select(cs1, code, Repo.AllTime) == Repo.Select(cs2, code, Repo.AllTime)
    ensures Repo.GetUrlAnalytics(cs1, code, now).totalClicks == Repo.GetUrlAnalytics(cs2, code, now).totalClicks
    ensures Repo.GetUrlAnalytics(cs1, code, now).uniqueIps == Repo.GetUrlAnalytics(cs2, code, now).uniqueIps
    ensures Repo.GetUrlAnalytics(cs1, code, now).userAgents == Repo.GetUrlAnalytics(cs2, code, now).userAgents
    ensures Repo.GetUrlAnalytics(cs1, code, now).period == Repo.GetUrlAnalytics(cs2, code, now).period
    ensures Repo.GetUrlAnalytics(cs1, code, now) == Repo.GetUrlAnalytics(cs2, code, now)
  {
    Repo.WindowsFollowCode(cs1, cs2, code, Repo.Since(now - 7 * Calendar.SecondsPerDay));
    Repo.WindowsFollowCode(cs1, cs2, code, Repo.Since(now - 30 * Calendar.SecondsPerDay));
  }

  /** Creating a link and following it once leaves exactly that one click
      in the link's log. */
  lemma FirstVisitLog(sys: System, req: Service.CreateRequest, draws: seq<Service.Draw>, t0: int,
                      cacheOn: bool, cacheSetOk: bool, code: string, v: Service.Visitor, t1: int,
                      p: Service.UaParser)
    requires Coherent(sys) && |draws| == Service.ShortCodeLength
    requires var r := Create(sys, Some(req), None, draws, t0, cacheOn, cacheSetOk);
             Created(r.0) && code == r.0.inserted.value.short && code != ""
    requires !Service.Expired(req.expiresAt, t1)
    ensures var s1 := Create(sys, Some(req), None, draws, t0, cacheOn, cacheSetOk).1;
            var s2 := Redirect(s1, code, v, t1, p, cacheOn).1;
            && Coherent(s2)
            && Repo.ShortTaken(s2.store.urls, code)
            && Repo.Select(s2.store.clicks, code, Repo.AllTime)
               == [Service.ClickFor(code, v, t1, p).(id := |s1.store.clicks| + 1)]
  {
    var r1 := Create(sys, Some(req), None, draws, t0, cacheOn, cacheSetOk);
    var s1 := r1.1;
    CreatePreservesCoherence(sys, Some(req), None, draws, t0, cacheOn, cacheSetOk);
    RedirectPreservesCoherence(s1, code, v, t1, p, cacheOn);
    var id :| s1.store.urls == sys.store.urls + [r1.0.inserted.value.(id := id)];
    var n := |sys.store.urls|;
    assert s1.store.urls[n].short == code;
    RedirectClickShort(s1, n, v, t1, p, cacheOn);
    var stored := Service.ClickFor(code, v, t1, p).(id := |s1.store.clicks| + 1);
    NoClicksForNewCode(sys.store, code);
    Repo.SelectAppend(s1.store.clicks, stored, code, Repo.AllTime);
  }

  /** The repository's analytics of a log in which the code has one click. */
  lemma OneClickLog(clicks: seq<ClickEntity>, code: string, c: ClickEntity, now: int)
    requires Repo.Select(clicks, code, Repo.AllTime) == [c]
    requires c.short == code && c.ip.Some? && c.browser.Some? && c.os.Some? && c.device.Some?
    ensures var a := Repo.GetUrlAnalytics(clicks, code, now);
            && a.totalClicks == 1 && a.uniqueIps == 1
            && a.userAgents == [UserAgentStat(c.browser.value, c.os.value, c.device.value, 1)]
  {
    SingleClickWindow(c, code);
    AnalyticsFollowWindow(clicks, [c], code, now);
    SingleClickAnalytics(c, code, now);
  }

  /** The default analytics of a stored link whose log holds one click. */
  lemma OneClickAnalytics(sys: System, code: string, c: ClickEntity, now: int)
    requires Coherent(sys) && code != "" && Repo.ShortTaken(sys.store.urls, code)
    requires Repo.Select(sys.store.clicks, code, Repo.AllTime) == [c]
    requires c.short == code && c.ip.Some? && c.browser.Some? && c.os.Some? && c.device.Some?
    ensures var r := Analytics(sys, code, Service.AnalyticsRequest("", ""), now);
            && IsSuccessEnvelope(r) && r.body.data.value.AnalyticsData?
            && r.body.data.value.analytics.totalClicks == 1
            && r.body.data.value.analytics.uniqueIps == 1
            && r.body.data.value.analytics.userAgents == [UserAgentStat(c.browser.value, c.os.value, c.device.value, 1)]
  {
    OneClickLog(sys.store.clicks, code, c, now);
    StoredLinkAnalytics(sys, code, now);
  }

  /** A stored link's default analytics are its repository analytics, sent
      with 200. */
  lemma StoredLinkAnalytics(sys: System, code: string, now: int)
    requires Coherent(sys) && code != "" && Repo.ShortTaken(sys.store.urls, code)
    ensures Analytics(sys, code, Service.AnalyticsRequest("", ""), now)
            == SuccessResponse(Service.AnalyticsData(Repo.GetUrlAnalytics(sys.store.clicks, code, now)))
  {
    var i :| 0 <= i < |sys.store.urls| && sys.store.urls[i].short == code;
    LookupFinds(sys.store.urls, i);
    Service.DefaultAnalytics(code, Service.AnalyticsRequest("", ""), sys.store.urls[i], sys.store.clicks, now);
  }

  /** Create a link, follow it once, ask for its analytics: one click, one
      visitor, one browser/os/device row carrying the parsed user agent. */
  lemma FirstVisitAnalytics(sys: System, req: Service.CreateRequest, draws: seq<Service.Draw>, t0: int,
                            cacheOn: bool, cacheSetOk: bool, code: string, v: Service.Visitor, t1: int,
                            p: Service.UaParser, t2: int)
    requires Coherent(sys) && |draws| == Service.ShortCodeLength
    requires var r := Create(sys, Some(req), None, draws, t0, cacheOn, cacheSetOk);
             Created(r.0) && code == r.0.inserted.value.short && code != ""
    requires !Service.Expired(req.expiresAt, t1)
    ensures var s1 := Create(sys, Some(req), None, draws, t0, cacheOn, cacheSetOk).1;
            var s2 := Redirect(s1, code, v, t1, p, cacheOn).1;
            var r := Analytics(s2, code, Service.AnalyticsRequest("", ""), t2);
            var agent := Service.ParseUserAgent(v.ua, p);
            && IsSuccessEnvelope(r) && r.body.data.value.AnalyticsData?
            && r.body.data.value.analytics.totalClicks == 1
            && r.body.data.value.analytics.uniqueIps == 1
            && r.body.data.value.analytics.userAgents == [UserAgentStat(agent.browser, agent.os, agent.device, 1)]
  {
    var s1 := Create(sys, Some(req), None, draws, t0, cacheOn, cacheSetOk).1;
    var s2 := Redirect(s1, code, v, t1, p, cacheOn).1;
    FirstVisitLog(sys, req, draws, t0, cacheOn, cacheSetOk, code, v, t1, p);
    var c := Service.ClickFor(code, v, t1, p).(id := |s1.store.clicks| + 1);
    OneClickAnalytics(s2, code, c, t2);
  }
}
