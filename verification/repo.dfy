/** The repository: the `urls` and `clicks` tables as sequences of rows, and
    every query as a pure function of them. A query's `NOW()` is a
    parameter. Driver failures are not part of these functions; the service
    layer receives them as a separate outcome. */
module Repo {
  import opened Wrappers
  import opened Calendar
  import opened Grouping
  import opened RepoEntity

  /** The label COALESCE gives a NULL browser, os or device. */
  const Unknown: string := "Unknown"

  /** PostgreSQL's SQLSTATE for a unique-constraint violation. */
  const UniqueViolation: string := "23505"

  /** Both tables, in insertion order. */
  datatype Store = Store(urls: seq<UrlEntity>, clicks: seq<ClickEntity>)

  /** How a failed INSERT is reported: a PostgreSQL error with its SQLSTATE,
      or any other driver failure. */
  datatype DbError = PgError(code: string) | DriverError

  /** The one failure of an analytics query the repository itself decides:
      a column outside the whitelist. Driver failures reach the service as a
      separate outcome. */
  datatype RepoError = UnsupportedField(message: string)

  // ---------------------------------------------------------------------
  // urls
  // ---------------------------------------------------------------------

  /** `WHERE short = $1 OR custom_alias = $1`. */
  predicate MatchesCode(u: UrlEntity, code: string) {
    u.short == code || u.customAlias == Some(code)
  }

  predicate ShortTaken(urls: seq<UrlEntity>, short: string) {
    exists i :: 0 <= i < |urls| && urls[i].short == short
  }

  /** `INSERT INTO urls ... RETURNING id`, with `short` unique and ids
      assigned by a sequence. */
  function CreateUrl(st: Store, url: UrlEntity): (r: Result<(Store, int), DbError>)
    ensures r.Failure? <==> ShortTaken(st.urls, url.short)
    ensures r.Failure? ==> r.error == PgError(UniqueViolation)
    ensures r.Success? ==> r.value.0.clicks == st.clicks
    ensures r.Success? ==> r.value.0.urls == st.urls + [url.(id := r.value.1)]
  {
    if ShortTaken(st.urls, url.short) then Failure(PgError(UniqueViolation))
    else
      var id := |st.urls| + 1;
      Success((Store(st.urls + [url.(id := id)], st.clicks), id))
  }

  /** `SELECT ... WHERE short = $1 OR custom_alias = $1 LIMIT 1`. Without an
      ORDER BY the database may return any matching row; the model fixes the
      choice to the first match in storage order. Absence is a normal answer,
      not an error. */
  function GetUrlByShort(urls: seq<UrlEntity>, code: string): (r: Option<UrlEntity>)
    ensures r.None? <==> forall i :: 0 <= i < |urls| ==> !MatchesCode(urls[i], code)
    ensures r.Some? ==> exists i :: 0 <= i < |urls| && urls[i] == r.value && MatchesCode(r.value, code)
                                   && forall j :: 0 <= j < i ==> !MatchesCode(urls[j], code)
  {
    if urls == [] then None
    else if MatchesCode(urls[0], code) then Some(urls[0])
    else
      var r := GetUrlByShort(urls[1..], code);
      assert forall i :: 0 < i < |urls| ==> urls[i] == urls[1..][i - 1];
      r
  }

  // ---------------------------------------------------------------------
  // clicks
  // ---------------------------------------------------------------------

  /** `INSERT INTO clicks ...`: the row is appended and gets the next id. */
  function CreateClick(st: Store, click: ClickEntity): (r: Store)
    ensures r.urls == st.urls
    ensures |r.clicks| == |st.clicks| + 1 && r.clicks[..|st.clicks|] == st.clicks
    ensures r.clicks[|st.clicks|] == click.(id := |st.clicks| + 1)
  {
    Store(st.urls, st.clicks + [click.(id := |st.clicks| + 1)])
  }

  /** A `created_at` filter: none, `>= from`, or `>= from AND < until`. */
  datatype Window = AllTime | Since(from: int) | Between(from: int, until: int) {
    predicate Contains(t: int) {
      match this
      case AllTime => true
      case Since(lo) => lo <= t
      case Between(lo, hi) => lo <= t < hi
    }
  }

  predicate Counted(c: ClickEntity, code: string, w: Window) {
    c.short == code && w.Contains(c.createdAt)
  }

  /** `FROM clicks WHERE short = $1 AND <window>`, in storage order. */
  function Select(cs: seq<ClickEntity>, code: string, w: Window): (r: seq<ClickEntity>)
    ensures |r| <= |cs|
    ensures forall c :: c in r <==> c in cs && Counted(c, code, w)
  {
    if cs == [] then []
    else
      var init, last := cs[..|cs| - 1], cs[|cs| - 1];
      assert cs == init + [last];
      Select(init, code, w) + (if Counted(last, code, w) then [last] else [])
  }

  /** `SELECT COUNT(*) FROM clicks WHERE short = $1`. */
  function TotalClicks(cs: seq<ClickEntity>, code: string): nat {
    |Select(cs, code, AllTime)|
  }

  lemma SelectAppend(cs: seq<ClickEntity>, c: ClickEntity, code: string, w: Window)
    ensures Select(cs + [c], code, w) == Select(cs, code, w) + (if Counted(c, code, w) then [c] else [])
  {
    assert (cs + [c])[..|cs|] == cs;
  }

  /** A code none of whose clicks are present has an empty window. */
  lemma {:induction false} SelectNone(cs: seq<ClickEntity>, code: string, w: Window)
    requires forall c :: c in cs ==> c.short != code
    ensures Select(cs, code, w) == []
  {
    if cs != [] {
      var init := cs[..|cs| - 1];
      assert forall c :: c in init ==> c in cs;
      SelectNone(init, code, w);
      assert cs[|cs| - 1] in cs;
    }
  }

  /** A wider window never counts fewer rows. */
  lemma {:induction false} SelectMonotone(cs: seq<ClickEntity>, code: string, w1: Window, w2: Window)
    requires forall t :: w1.Contains(t) ==> w2.Contains(t)
    ensures |Select(cs, code, w1)| <= |Select(cs, code, w2)|
  {
    if cs != [] {
      SelectMonotone(cs[..|cs| - 1], code, w1, w2);
    }
  }

  /** Adjacent half-open windows split the rows of their union exactly. */
  lemma {:induction false} SelectSplit(cs: seq<ClickEntity>, code: string, a: int, b: int, c: int)
    requires a <= b <= c
    ensures |Select(cs, code, Between(a, b))| + |Select(cs, code, Between(b, c))|
            == |Select(cs, code, Between(a, c))|
  {
    if cs != [] {
      SelectSplit(cs[..|cs| - 1], code, a, b, c);
    }
  }

  /** Filtering the code's rows again by code and window selects what
      filtering the whole log does. */
  lemma {:induction false} SelectOfSelect(cs: seq<ClickEntity>, code: string, w: Window)
    ensures Select(Select(cs, code, AllTime), code, w) == Select(cs, code, w)
  {
    if cs != [] {
      var init, last := cs[..|cs| - 1], cs[|cs| - 1];
      assert cs == init + [last];
      var mine := Select(init, code, AllTime);
      SelectOfSelect(init, code, w);
      SelectAppend(init, last, code, AllTime);
      SelectAppend(init, last, code, w);
      if last.short == code {
        assert Select(cs, code, AllTime) == mine + [last];
        SelectAppend(mine, last, code, w);
      } else {
        assert Select(cs, code, AllTime) == mine;
      }
    }
  }

  /** Two logs that agree on a code's clicks agree on every window of it. */
  lemma WindowsFollowCode(cs1: seq<ClickEntity>, cs2: seq<ClickEntity>, code: string, w: Window)
    requires Select(cs1, code, AllTime) == Select(cs2, code, AllTime)
    ensures Select(cs1, code, w) == Select(cs2, code, w)
  {
    SelectOfSelect(cs1, code, w);
    SelectOfSelect(cs2, code, w);
  }

  /** The 7-day, 30-day and all-time counts, each window inclusive at `now -
      N days`. */
  function Period(cs: seq<ClickEntity>, code: string, now: int): (p: AnalyticsPeriod)
    ensures p.last7Days == |Select(cs, code, Since(now - 7 * SecondsPerDay))|
    ensures p.last30Days == |Select(cs, code, Since(now - 30 * SecondsPerDay))|
    ensures p.allTime == TotalClicks(cs, code)
    ensures p.last7Days <= p.last30Days <= p.allTime
  {
    var weekAgo, monthAgo := now - 7 * SecondsPerDay, now - 30 * SecondsPerDay;
    SelectMonotone(cs, code, Since(weekAgo), Since(monthAgo));
    SelectMonotone(cs, code, Since(monthAgo), AllTime);
    AnalyticsPeriod(
      |Select(cs, code, Since(weekAgo))|,
      |Select(cs, code, Since(monthAgo))|,
      TotalClicks(cs, code))
  }

  /** The period windows are inclusive at their lower edge: a click exactly
      seven days old is among the last seven days, one a second older is not;
      likewise for thirty days. */
  lemma PeriodBoundary(c: ClickEntity, code: string, now: int)
    requires c.short == code
    ensures c.createdAt == now - 7 * SecondsPerDay ==> Period([c], code, now).last7Days == 1
    ensures c.createdAt == now - 7 * SecondsPerDay - 1 ==> Period([c], code, now).last7Days == 0
    ensures c.createdAt == now - 30 * SecondsPerDay ==> Period([c], code, now).last30Days == 1
    ensures c.createdAt == now - 30 * SecondsPerDay - 1 ==> Period([c], code, now).last30Days == 0
  {
    SelectAppend([], c, code, Since(now - 7 * SecondsPerDay));
    SelectAppend([], c, code, Since(now - 30 * SecondsPerDay));
  }

  /** The distinct non-NULL IPs of some rows. */
  function IpsOf(cs: seq<ClickEntity>): (s: set<string>)
    ensures |s| <= |cs|
    ensures forall ip :: ip in s <==> exists i :: 0 <= i < |cs| && cs[i].ip == Some(ip)
  {
    if cs == [] then {}
    else
      var init, last := cs[..|cs| - 1], cs[|cs| - 1];
      var s := IpsOf(init) + (if last.ip.Some? then {last.ip.value} else {});
      assert forall i :: 0 <= i < |init| ==> cs[i] == init[i];
      s
  }

  /** `COUNT(DISTINCT ip)`: NULLs are not counted. */
  function UniqueIps(cs: seq<ClickEntity>): (n: nat)
    ensures n <= |cs|
  {
    |IpsOf(cs)|
  }

  // ---------------------------------------------------------------------
  // Breakdowns
  // ---------------------------------------------------------------------

  /** The raw `(browser, os, device)` column values a row is grouped on. */
  type UaKey = (Option<string>, Option<string>, Option<string>)

  function UaKeyOf(c: ClickEntity): UaKey {
    (c.browser, c.os, c.device)
  }

  function UaKeys(cs: seq<ClickEntity>): seq<UaKey> {
    seq(|cs|, i requires 0 <= i < |cs| => UaKeyOf(cs[i]))
  }

  /** The labels `COALESCE(..., 'Unknown')` shows for a row. */
  function UaLabels(c: ClickEntity): (string, string, string) {
    (c.browser.GetOr(Unknown), c.os.GetOr(Unknown), c.device.GetOr(Unknown))
  }

  function RowLabels(r: UserAgentStat): (string, string, string) {
    (r.browser, r.os, r.device)
  }

  function LabelUserAgent(g: Group<UaKey>): UserAgentStat {
    UserAgentStat(g.key.0.GetOr(Unknown), g.key.1.GetOr(Unknown), g.key.2.GetOr(Unknown), g.count)
  }

  function LabelUserAgents(gs: seq<Group<UaKey>>): seq<UserAgentStat> {
    seq(|gs|, i requires 0 <= i < |gs| => LabelUserAgent(gs[i]))
  }

  /** `rows` is a correct answer to `SELECT COALESCE(browser, 'Unknown'),
      COALESCE(os, 'Unknown'), COALESCE(device, 'Unknown'), COUNT(*) ...
      GROUP BY browser, os, device ORDER BY count DESC` over `window`:
      grouping is on the raw values, COALESCE only relabels. */
  ghost predicate UserAgentBreakdown(window: seq<ClickEntity>, rows: seq<UserAgentStat>) {
    exists g :: GroupedBy(UaKeys(window), g) && CountDescending(g) && rows == LabelUserAgents(g)
  }

  function UserAgentStatsOf(window: seq<ClickEntity>): (rows: seq<UserAgentStat>)
    ensures UserAgentBreakdown(window, rows)
  {
    var g := GroupAndSort(UaKeys(window));
    LabelUserAgents(g)
  }

  function StatsTotal(rows: seq<UserAgentStat>): nat {
    if rows == [] then 0 else rows[0].count + StatsTotal(rows[1..])
  }

  lemma {:induction false} LabelsKeepUserAgentCounts(g: seq<Group<UaKey>>)
    ensures StatsTotal(LabelUserAgents(g)) == SumCounts(g)
  {
    if g != [] {
      assert LabelUserAgents(g)[1..] == LabelUserAgents(g[1..]);
      LabelsKeepUserAgentCounts(g[1..]);
    }
  }

  /** What every correct breakdown satisfies, whatever its tie order: counts
      never increase down the list, are positive and add up to the window
      size. */
  lemma UserAgentBreakdownFacts(window: seq<ClickEntity>, rows: seq<UserAgentStat>)
    requires UserAgentBreakdown(window, rows)
    ensures StatsTotal(rows) == |window|
    ensures |rows| <= |window|
    ensures forall i, j :: 0 <= i < j < |rows| ==> rows[i].count >= rows[j].count
    ensures forall i :: 0 <= i < |rows| ==> 1 <= rows[i].count <= |window|
  {
    var keys := UaKeys(window);
    var g: seq<Group<UaKey>> :| GroupedBy(keys, g) && CountDescending(g) && rows == LabelUserAgents(g);
    GroupingFacts(keys, g);
    LabelsKeepUserAgentCounts(g);
    LabelledUserAgentCounts(g, rows);
  }

  lemma LabelledUserAgentCounts(g: seq<Group<UaKey>>, rows: seq<UserAgentStat>)
    requires rows == LabelUserAgents(g)
    ensures |rows| == |g|
    ensures forall i :: 0 <= i < |rows| ==> rows[i].count == g[i].count
  {
  }

  lemma UaKeyOrigin(window: seq<ClickEntity>, x: UaKey)
    requires x in UaKeys(window)
    ensures exists c :: c in window && UaKeyOf(c) == x
  {
    var k :| 0 <= k < |window| && UaKeys(window)[k] == x;
    assert window[k] in window;
  }

  predicate LabelsOfSomeClick(window: seq<ClickEntity>, labels: (string, string, string)) {
    exists c :: c in window && UaLabels(c) == labels
  }

  /** The labelled rows are exactly the labels of the window's clicks: no row
      is invented and no click goes unrepresented. */
  lemma UserAgentBreakdownLabels(window: seq<ClickEntity>, rows: seq<UserAgentStat>)
    requires UserAgentBreakdown(window, rows)
    ensures forall i :: 0 <= i < |rows| ==> LabelsOfSomeClick(window, RowLabels(rows[i]))
    ensures forall c :: c in window ==>
              exists i :: 0 <= i < |rows| && UaLabels(c) == RowLabels(rows[i])
  {
    var keys := UaKeys(window);
    var g: seq<Group<UaKey>> :| GroupedBy(keys, g) && CountDescending(g) && rows == LabelUserAgents(g);
    forall i | 0 <= i < |rows|
      ensures LabelsOfSomeClick(window, RowLabels(rows[i]))
    {
      assert g[i].key in keys;
      UaKeyOrigin(window, g[i].key);
      var c :| c in window && UaKeyOf(c) == g[i].key;
      assert rows[i] == LabelUserAgent(g[i]);
      assert UaLabels(c) == RowLabels(rows[i]);
    }
    forall c | c in window
      ensures exists i :: 0 <= i < |rows| && UaLabels(c) == RowLabels(rows[i])
    {
      var k :| 0 <= k < |window| && window[k] == c;
      assert keys[k] in keys;
      assert HasKey(g, keys[k]);
      var i :| 0 <= i < |g| && g[i].key == keys[k];
      assert rows[i] == LabelUserAgent(g[i]);
    }
  }

  /** A NULL browser and a stored literal 'Unknown' browser are grouped
      apart yet labelled alike: two clicks that differ only that way give
      two identical rows. */
  lemma NullAndUnknownStaySeparate(window: seq<ClickEntity>, rows: seq<UserAgentStat>)
    requires |window| == 2
    requires window[0].browser == None && window[1].browser == Some(Unknown)
    requires window[0].os == window[1].os && window[0].device == window[1].device
    requires UserAgentBreakdown(window, rows)
    ensures |rows| == 2
    ensures rows[0] == rows[1]
    ensures rows[0] == UserAgentStat(Unknown, UaLabels(window[0]).1, UaLabels(window[0]).2, 1)
  {
    var keys := UaKeys(window);
    var g: seq<Group<UaKey>> :| GroupedBy(keys, g) && CountDescending(g) && rows == LabelUserAgents(g);
    var k0, k1 := keys[0], keys[1];
    assert keys == [k0, k1] && k0 != k1;
    TwoDistinctRows(k0, k1, g);
    forall i | 0 <= i < 2
      ensures rows[i] == UserAgentStat(Unknown, UaLabels(window[0]).1, UaLabels(window[0]).2, 1)
    {
      assert rows[i] == LabelUserAgent(g[i]);
    }
  }

  /** The three columns a single-field breakdown may group on. */
  datatype Column = BrowserColumn | OsColumn | DeviceColumn

  /** The whitelist guarding the interpolated column name. */
  function ColumnNamed(field: string): (c: Option<Column>)
    ensures c.Some? <==> field == "browser" || field == "os" || field == "device"
  {
    if field == "browser" then Some(BrowserColumn)
    else if field == "os" then Some(OsColumn)
    else if field == "device" then Some(DeviceColumn)
    else None
  }

  function ColumnValue(c: ClickEntity, col: Column): Option<string> {
    match col
    case BrowserColumn => c.browser
    case OsColumn => c.os
    case DeviceColumn => c.device
  }

  function ColumnValues(cs: seq<ClickEntity>, col: Column): seq<Option<string>> {
    seq(|cs|, i requires 0 <= i < |cs| => ColumnValue(cs[i], col))
  }

  function LabelField(g: Group<Option<string>>): FieldStat {
    FieldStat(g.key.GetOr(Unknown), g.count)
  }

  function LabelFields(gs: seq<Group<Option<string>>>): seq<FieldStat> {
    seq(|gs|, i requires 0 <= i < |gs| => LabelField(gs[i]))
  }

  /** `rows` is a correct answer to `SELECT COALESCE(col, 'Unknown'),
      COUNT(*) ... GROUP BY col ORDER BY COUNT(*) DESC` over `window`. */
  ghost predicate FieldBreakdown(window: seq<ClickEntity>, col: Column, rows: seq<FieldStat>) {
    exists g :: GroupedBy(ColumnValues(window, col), g) && CountDescending(g) && rows == LabelFields(g)
  }

  function FieldStatsOf(window: seq<ClickEntity>, col: Column): (rows: seq<FieldStat>)
    ensures FieldBreakdown(window, col, rows)
  {
    var g := GroupAndSort(ColumnValues(window, col));
    LabelFields(g)
  }

  function FieldTotal(rows: seq<FieldStat>): nat {
    if rows == [] then 0 else rows[0].count + FieldTotal(rows[1..])
  }

  lemma {:induction false} LabelsKeepFieldCounts(g: seq<Group<Option<string>>>)
    ensures FieldTotal(LabelFields(g)) == SumCounts(g)
  {
    if g != [] {
      assert LabelFields(g)[1..] == LabelFields(g[1..]);
      LabelsKeepFieldCounts(g[1..]);
    }
  }

  /** What every correct single-field breakdown satisfies. */
  lemma FieldBreakdownFacts(window: seq<ClickEntity>, col: Column, rows: seq<FieldStat>)
    requires FieldBreakdown(window, col, rows)
    ensures FieldTotal(rows) == |window|
    ensures |rows| <= |window|
    ensures forall i, j :: 0 <= i < j < |rows| ==> rows[i].count >= rows[j].count
    ensures forall i :: 0 <= i < |rows| ==> 1 <= rows[i].count <= |window|
  {
    var values := ColumnValues(window, col);
    var g: seq<Group<Option<string>>> :| GroupedBy(values, g) && CountDescending(g) && rows == LabelFields(g);
    GroupingFacts(values, g);
    LabelsKeepFieldCounts(g);
    LabelledFieldCounts(g, rows);
  }

  lemma LabelledFieldCounts(g: seq<Group<Option<string>>>, rows: seq<FieldStat>)
    requires rows == LabelFields(g)
    ensures |rows| == |g|
    ensures forall i :: 0 <= i < |rows| ==> rows[i].count == g[i].count
  {
  }

  lemma ColumnValueOrigin(window: seq<ClickEntity>, col: Column, x: Option<string>)
    requires x in ColumnValues(window, col)
    ensures exists c :: c in window && ColumnValue(c, col) == x
  {
    var k :| 0 <= k < |window| && ColumnValues(window, col)[k] == x;
    assert window[k] in window;
  }

  predicate ValueOfSomeClick(window: seq<ClickEntity>, col: Column, value: string) {
    exists c :: c in window && ColumnValue(c, col).GetOr(Unknown) == value
  }

  /** The labelled values are exactly the labels of the window's clicks. */
  lemma FieldBreakdownLabels(window: seq<ClickEntity>, col: Column, rows: seq<FieldStat>)
    requires FieldBreakdown(window, col, rows)
    ensures forall i :: 0 <= i < |rows| ==> ValueOfSomeClick(window, col, rows[i].value)
    ensures forall c :: c in window ==>
              exists i :: 0 <= i < |rows| && ColumnValue(c, col).GetOr(Unknown) == rows[i].value
  {
    var values := ColumnValues(window, col);
    var g: seq<Group<Option<string>>> :| GroupedBy(values, g) && CountDescending(g) && rows == LabelFields(g);
    forall i | 0 <= i < |rows|
      ensures ValueOfSomeClick(window, col, rows[i].value)
    {
      assert g[i].key in values;
      ColumnValueOrigin(window, col, g[i].key);
      var c :| c in window && ColumnValue(c, col) == g[i].key;
      assert rows[i] == LabelField(g[i]);
    }
    forall c | c in window
      ensures exists i :: 0 <= i < |rows| && ColumnValue(c, col).GetOr(Unknown) == rows[i].value
    {
      var k :| 0 <= k < |window| && window[k] == c;
      assert values[k] in values;
      assert HasKey(g, values[k]);
      var i :| 0 <= i < |g| && g[i].key == values[k];
      assert rows[i] == LabelField(g[i]);
    }
  }

  // ---------------------------------------------------------------------
  // The analytics queries
  // ---------------------------------------------------------------------

  /** Total, distinct IPs and breakdown, all over one and the same window. */
  function WindowAnalytics(clicks: seq<ClickEntity>, code: string, w: Window): (r: UrlAnalyticsByPeriod)
    ensures r.short == code
    ensures r.totalClicks == |Select(clicks, code, w)|
    ensures r.uniqueIps == UniqueIps(Select(clicks, code, w)) <= r.totalClicks
    ensures UserAgentBreakdown(Select(clicks, code, w), r.userAgents)
  {
    var window := Select(clicks, code, w);
    UrlAnalyticsByPeriod(code, |window|, UniqueIps(window), UserAgentStatsOf(window))
  }

  /** The breakdown over all of a code's clicks. */
  function GetUserAgentStats(clicks: seq<ClickEntity>, code: string): (rows: seq<UserAgentStat>)
    ensures UserAgentBreakdown(Select(clicks, code, AllTime), rows)
    ensures StatsTotal(rows) == TotalClicks(clicks, code)
  {
    var rows := UserAgentStatsOf(Select(clicks, code, AllTime));
    UserAgentBreakdownFacts(Select(clicks, code, AllTime), rows);
    rows
  }

  /** The default analytics: all-time total, distinct IPs and breakdown,
      plus the three period counts. */
  function GetUrlAnalytics(clicks: seq<ClickEntity>, code: string, now: int): (a: UrlAnalytics)
    ensures a.short == code
    ensures a.totalClicks == TotalClicks(clicks, code)
    ensures a.period.allTime == a.totalClicks
    ensures a.period.last7Days <= a.period.last30Days <= a.totalClicks
    ensures a.uniqueIps == UniqueIps(Select(clicks, code, AllTime)) <= a.totalClicks
    ensures a.userAgents == GetUserAgentStats(clicks, code)
    ensures a.period == Period(clicks, code, now)
  {
    var w := WindowAnalytics(clicks, code, AllTime);
    UrlAnalytics(code, w.totalClicks, w.uniqueIps, w.userAgents, Period(clicks, code, now))
  }

  /** The day window of an instant: its 24-hour truncation, half-open. */
  function DayWindow(t: int): (w: Window)
    ensures w.Between? && w.from % SecondsPerDay == 0
    ensures w.until == w.from + SecondsPerDay
    ensures w.Contains(t)
  {
    var start := DayStart(t);
    Between(start, start + SecondsPerDay)
  }

  /** The month window of an instant: from the first of its month to the
      first of the next. */
  function MonthWindow(t: int): (w: Window)
    ensures w.Between? && w.Contains(t)
    ensures w.from == MonthStart(DateOf(t).year, DateOf(t).month)
    ensures w.until - w.from == DaysInMonth(DateOf(t).year, DateOf(t).month) * SecondsPerDay
  {
    var d := DateOf(t);
    MonthWindowContains(t);
    MonthWindowLength(d.year, d.month);
    Between(MonthStart(d.year, d.month), MonthEnd(d.year, d.month))
  }

  /** Total, distinct IPs and breakdown over the 24 hours starting at the
      day's truncation. */
  function GetAnalyticsByDay(clicks: seq<ClickEntity>, code: string, day: int): (r: UrlAnalyticsByPeriod)
    ensures var w := Between(DayStart(day), DayStart(day) + SecondsPerDay);
            && r.short == code
            && r.totalClicks == |Select(clicks, code, w)|
            && r.uniqueIps == UniqueIps(Select(clicks, code, w))
            && UserAgentBreakdown(Select(clicks, code, w), r.userAgents)
  {
    WindowAnalytics(clicks, code, DayWindow(day))
  }

  /** Total, distinct IPs and breakdown over the calendar month (UTC) that
      contains `month`. */
  function GetAnalyticsByMonth(clicks: seq<ClickEntity>, code: string, month: int): (r: UrlAnalyticsByPeriod)
    ensures var d := DateOf(month);
            var w := Between(MonthStart(d.year, d.month), MonthEnd(d.year, d.month));
            && r.short == code
            && r.totalClicks == |Select(clicks, code, w)|
            && r.uniqueIps == UniqueIps(Select(clicks, code, w))
            && UserAgentBreakdown(Select(clicks, code, w), r.userAgents)
  {
    WindowAnalytics(clicks, code, MonthWindow(month))
  }

  /** The single-field breakdown over all of a code's clicks, with the
      period counts. A field outside the whitelist is rejected before any
      query runs. */
  function GetAnalyticsByField(clicks: seq<ClickEntity>, code: string, field: string, now: int)
    : (r: Result<(seq<FieldStat>, AnalyticsPeriod), RepoError>)
    ensures r.Failure? <==> field != "browser" && field != "os" && field != "device"
    ensures r.Failure? ==> r.error == UnsupportedField("unsupported field for aggregation: " + field)
    ensures r.Success? ==> FieldBreakdown(Select(clicks, code, AllTime), ColumnNamed(field).value, r.value.0)
    ensures r.Success? ==> FieldTotal(r.value.0) == r.value.1.allTime
    ensures r.Success? ==> r.value.1 == Period(clicks, code, now)
  {
    match ColumnNamed(field)
    case None => Failure(UnsupportedField("unsupported field for aggregation: " + field))
    case Some(col) =>
      var window := Select(clicks, code, AllTime);
      var rows := FieldStatsOf(window, col);
      FieldBreakdownFacts(window, col, rows);
      Success((rows, Period(clicks, code, now)))
  }

  // ---------------------------------------------------------------------
  // Properties relating the queries
  // ---------------------------------------------------------------------

  /** A row counts in the day window exactly when `start <= created_at <
      start + 24h`; in particular a click at the window's end is not
      counted. */
  lemma DayWindowMembership(clicks: seq<ClickEntity>, code: string, day: int, c: ClickEntity)
    ensures c in Select(clicks, code, DayWindow(day)) <==>
              c in clicks && c.short == code
              && DayStart(day) <= c.createdAt < DayStart(day) + SecondsPerDay
  {
  }

  /** The day window of a midnight starts at that midnight. */
  lemma MidnightWindow(d: Date)
    ensures DayWindow(Midnight(d)) == Between(Midnight(d), Midnight(d) + SecondsPerDay)
  {
    DayStartUnique(Midnight(d), Midnight(d));
  }

  /** The month window of the first of a month is that calendar month. */
  lemma FirstOfMonthWindow(y: int, m: Month)
    ensures MonthWindow(MonthStart(y, m)) == Between(MonthStart(y, m), MonthEnd(y, m))
  {
    var d := Date(y, m, 1);
    assert Midnight(d) / SecondsPerDay == DayNumber(d);
    DateOfDayRoundTrip(d);
  }

  /** Windows nest: a day's clicks are among its month's, which are among
      all of the code's clicks. */
  lemma DayMonthNesting(clicks: seq<ClickEntity>, code: string, d: Date)
    requires ValidDate(d)
    ensures GetAnalyticsByDay(clicks, code, Midnight(d)).totalClicks
            <= GetAnalyticsByMonth(clicks, code, MonthStart(d.year, d.month)).totalClicks
            <= TotalClicks(clicks, code)
  {
    MidnightWindow(d);
    FirstOfMonthWindow(d.year, d.month);
    DayWithinMonth(d);
    SelectMonotone(clicks, code, DayWindow(Midnight(d)), MonthWindow(MonthStart(d.year, d.month)));
    SelectMonotone(clicks, code, MonthWindow(MonthStart(d.year, d.month)), AllTime);
  }

  /** Consecutive months tile time, December followed by January of the next
      year included: two adjacent month windows together count what the
      window from the first month's start to the second's end counts. */
  lemma AdjacentMonths(clicks: seq<ClickEntity>, code: string, y: int, m: Month)
    ensures var ny := if m == 12 then y + 1 else y;
            var nm: Month := if m == 12 then 1 else m + 1;
            GetAnalyticsByMonth(clicks, code, MonthStart(y, m)).totalClicks
            + GetAnalyticsByMonth(clicks, code, MonthStart(ny, nm)).totalClicks
            == |Select(clicks, code, Between(MonthStart(y, m), MonthEnd(ny, nm)))|
  {
    var ny := if m == 12 then y + 1 else y;
    var nm: Month := if m == 12 then 1 else m + 1;
    FirstOfMonthWindow(y, m);
    FirstOfMonthWindow(ny, nm);
    MonthWindowLength(y, m);
    MonthWindowLength(ny, nm);
    SelectSplit(clicks, code, MonthStart(y, m), MonthStart(ny, nm), MonthEnd(ny, nm));
  }

  /** Recording a click raises its code's total by one and leaves every other
      code's total alone. */
  lemma CreateClickCounts(st: Store, click: ClickEntity, code: string)
    ensures TotalClicks(CreateClick(st, click).clicks, code)
            == TotalClicks(st.clicks, code) + (if click.short == code then 1 else 0)
  {
    SelectAppend(st.clicks, click.(id := |st.clicks| + 1), code, AllTime);
  }
}
