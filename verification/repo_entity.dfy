/** The rows and aggregate records of the repository layer. Timestamps are
    whole seconds since the Unix epoch; nullable columns are `Option`s;
    counts are unbounded naturals. */
module RepoEntity {
  import opened Wrappers

  /** A row of `urls`. */
  datatype UrlEntity = UrlEntity(
    id: int,
    short: string,
    original: string,
    customAlias: Option<string>,
    createdAt: int,
    expiresAt: Option<int>)

  /** A row of `clicks`. */
  datatype ClickEntity = ClickEntity(
    id: int,
    short: string,
    createdAt: int,
    ip: Option<string>,
    browser: Option<string>,
    os: Option<string>,
    device: Option<string>,
    rawUA: Option<string>,
    referer: Option<string>)

  /** One row of the browser/os/device breakdown. */
  datatype UserAgentStat = UserAgentStat(browser: string, os: string, device: string, count: nat)

  datatype AnalyticsPeriod = AnalyticsPeriod(last7Days: nat, last30Days: nat, allTime: nat)

  datatype UrlAnalytics = UrlAnalytics(
    short: string,
    totalClicks: nat,
    uniqueIps: nat,
    userAgents: seq<UserAgentStat>,
    period: AnalyticsPeriod)

  datatype UrlAnalyticsByPeriod = UrlAnalyticsByPeriod(
    short: string,
    totalClicks: nat,
    uniqueIps: nat,
    userAgents: seq<UserAgentStat>)

  /** One row of a single-column breakdown. */
  datatype FieldStat = FieldStat(value: string, count: nat)
}
