# URL shortener core in Dafny

This project models the core of a small URL-shortening web service written in
Go. The service stores links in PostgreSQL, caches them in Redis and logs one
click per redirect. It answers analytics questions about a link:

- the totals and distinct IPs;
- a 7-day, 30-day and all-time period;
- a browser/os/device breakdown;
- the same figures restricted to one day or one calendar month;
- a single-column breakdown.

The model follows the program's own layers:

- `Wrappers`: `Option` and `Result`.
- `Calendar`: instants as whole seconds since the Unix epoch, in UTC. It
  defines the proleptic Gregorian calendar, a proved inverse from day numbers
  to dates, midnight truncation, and the first instant of a month and of the
  month after it.
- `Layout`: the two fixed `time.Parse` layouts the analytics handler accepts,
  `2006-01-02` and `2006-01`. Both are proved to round-trip with their
  formatting functions.
- `Grouping`: SQL `GROUP BY … ORDER BY count DESC`. It gives a declarative
  definition of a correct grouping (distinct keys, exact per-key counts,
  descending order) and a constructive one (tally, then stable insertion
  sort). The two are proved to agree.
- `RepoEntity`: the repository's rows and aggregate records.
- `Repo`: the two tables as sequences of rows, with every repository query as
  a pure function of them.
- `Dto`: the JSON envelope helpers.
- `Service`: the three HTTP handlers as functions of what they read. These are
  short-code generation, user-agent classification, cache-aside redirect,
  link creation with error mapping, and the analytics dispatch.
- `Shortener`: the deployed system as store plus cache. It states an invariant
  that every request preserves, and proves end-to-end properties:
  - the cache is transparent;
  - a redirect resolves exactly the live stored links;
  - a taken alias is refused;
  - create → redirect → analytics reports exactly one click.

Some inputs of the original are parameters of the model:

- the clock (`now`);
- the random draws behind a generated code;
- the JSON binding outcome and the validator's verdict;
- the user-agent library's four answers (`UaParser`);
- the client's IP and headers (`Visitor`);
- the database driver's answers to an insert and to a lookup.

### Behaviour the model follows from the code

- An expired link answers `400 FIELD_INCORRECT` for field `url`. It is not
  reported as "not found".
- A missing link answers `400 SHORT_NOT_FOUND`, not 404.
- A failed lookup in the analytics handler is also reported as not found.
- A taken custom alias is reported as `400 FIELD_INCORRECT` with the text
  "Custom alias already exists".
  - The `ShortAlreadyExistsError` helper exists but no handler uses it.
- A generated code that collides with a stored one answers 500. There is no
  retry.
- A user agent is classed Mobile before Bot: a mobile bot is "Mobile".
- The cache is written only when a link is created. An expired link stays
  cached, and the handler checks expiry itself on every hit.
- The generated-code alphabet is `a–z`, then `A–Z`, then `0–9`.
- A link expires when `expires_at` is strictly before now. A link whose
  expiry is exactly now still redirects.
- The breakdown queries group on the raw columns. Only the output labels pass
  through `COALESCE(…, 'Unknown')`. So a NULL browser and a literal "Unknown"
  browser form two separate rows with identical labels
  (`Repo.NullAndUnknownStaySeparate`).
- `ORDER BY count DESC` leaves the order of equal counts unspecified. The
  breakdown contracts therefore accept every correct answer: any grouping that
  is a permutation with distinct keys and exact counts, in descending order.
- The model assumes a UNIQUE constraint on `urls.short`. PostgreSQL reports a
  violation as SQLSTATE `23505`, which is what the handler tests for. The
  migrations that create it are not part of this model.

## Model

| member | source | states |
|---|---|---|
| Repo.CreateUrl | internal/repo/repo.go:89-117 | The insert fails with SQLSTATE 23505 exactly when the short code is already stored. On success the row is appended with a fresh id, and the click log is untouched. |
| Repo.GetUrlByShort | internal/repo/repo.go:119-150 | No row is returned exactly when no row has the code as its short or its custom alias. A returned row matches the code. Where several rows match, the model picks the first in storage order (see "Left out"). |
| Repo.CreateClick | internal/repo/repo.go:151-172 | The click is appended after every existing click with the next id. Links and earlier clicks are unchanged. |
| Repo.CreateClickCounts | internal/repo/repo.go:151-172 | Recording a click adds one to its own link's total, and leaves every other link's total as it was. |
| Repo.Select | internal/repo/repo.go:209-220 | A click is in the filtered rows exactly when it is in the log, belongs to the code and falls in the time window. There are never more rows than the log holds. |
| Repo.SelectNone | internal/repo/repo.go:209-220 | A code with no clicks in the log has no clicks in any window. |
| Repo.SelectMonotone | internal/repo/repo.go:237-255 | A wider time window never counts fewer clicks. |
| Repo.SelectSplit | internal/repo/repo.go:369-439 | Two adjacent half-open windows count exactly the clicks of their union. |
| Repo.Period | internal/repo/repo.go:237-255 | The 7-day count is the number of the code's clicks at or after now minus 7 days, and the 30-day count likewise for 30 days. The all-time count equals the link's total clicks. 7-day ≤ 30-day ≤ total. |
| Repo.PeriodBoundary | internal/repo/repo.go:239-240 | Both period windows include their lower edge: a click exactly 7 (or 30) days old is counted, and one a second older is not. |
| Repo.SelectOfSelect | internal/repo/repo.go:209-220 | Filtering a code's clicks again by code and window gives what filtering the whole log by code and window gives. |
| Repo.WindowsFollowCode | internal/repo/repo.go:237-255 | Two logs holding the same clicks for a code agree on every time window of that code. |
| Repo.IpsOf | internal/repo/repo.go:223-234 | An IP is counted exactly when some selected click carries it. NULL IPs are never counted. |
| Repo.UniqueIps | internal/repo/repo.go:223-234 | The distinct-IP count never exceeds the number of clicks. |
| Repo.UserAgentStatsOf | internal/repo/repo.go:174-205 | The rows built are a correct answer to the grouped, descending-ordered browser/os/device query over the given clicks. |
| Repo.LabelsKeepUserAgentCounts | internal/repo/repo.go:176-183 | Labelling groups with COALESCE keeps the sum of their counts. |
| Repo.UserAgentBreakdownFacts | internal/repo/repo.go:174-205 | Every correct breakdown: counts sum to the number of clicks, there are no more rows than clicks, counts descend, and each count lies between 1 and the number of clicks. |
| Repo.UserAgentBreakdownLabels | internal/repo/repo.go:176-183 | Every row's labels are the COALESCE labels of some click, and every click's labels appear in some row. |
| Repo.NullAndUnknownStaySeparate | internal/repo/repo.go:176-183 | A NULL browser and a stored "Unknown" browser with equal os and device give two identical rows of count 1, not one row of count 2. |
| Repo.ColumnNamed | internal/repo/repo.go:443-447 | Only "browser", "os" and "device" name a column that can be aggregated. |
| Repo.FieldStatsOf | internal/repo/repo.go:449-467 | The rows built are a correct answer to the single-column grouped, descending-ordered query. |
| Repo.LabelsKeepFieldCounts | internal/repo/repo.go:449-451 | Labelling single-column groups keeps the sum of their counts. |
| Repo.FieldBreakdownFacts | internal/repo/repo.go:449-467 | Every correct field breakdown: counts sum to the number of clicks, count at most one row per click, descend, and lie between 1 and the number of clicks. |
| Repo.FieldBreakdownLabels | internal/repo/repo.go:449-451 | Every row's value is the COALESCE label of some click's column, and every click's label appears in some row. |
| Repo.WindowAnalytics | internal/repo/repo.go:296-366 | Over a window, the total is the number of the code's clicks in it, and the distinct IPs are those clicks' IPs and never exceed the total. The breakdown is a correct grouping of exactly those clicks. |
| Repo.GetUserAgentStats | internal/repo/repo.go:174-205 | The rows are a correct breakdown of all the code's clicks, and their counts add up to the code's total. |
| Repo.GetUrlAnalytics | internal/repo/repo.go:207-293 | The total counts all the code's clicks. Distinct IPs never exceed it. The all-time period equals it, with 7-day ≤ 30-day ≤ total. The breakdown is the all-time user-agent breakdown. |
| Repo.DayWindow | internal/repo/repo.go:297-298 | The window starts on a midnight, lasts exactly 24 hours and contains the requested instant. |
| Repo.MonthWindow | internal/repo/repo.go:370-371 | The window starts at the first instant of the instant's month, lasts exactly that month's number of days and contains the instant. |
| Repo.GetAnalyticsByDay | internal/repo/repo.go:296-366 | Totals, distinct IPs and breakdown are computed over exactly the clicks from the day's midnight (inclusive) to 24 hours later (exclusive). |
| Repo.GetAnalyticsByMonth | internal/repo/repo.go:369-439 | Totals, distinct IPs and breakdown are computed over exactly the clicks from the first instant of the month to the first instant of the next month (exclusive). |
| Repo.GetAnalyticsByField | internal/repo/repo.go:442-491 | It fails, with the message naming the field, exactly when the field is not browser, os or device. Otherwise the rows are a correct breakdown of all the code's clicks by that column, their counts add up to the all-time period, and the period is the link's. |
| Repo.DayWindowMembership | internal/repo/repo.go:296-298 | A click is counted for a day exactly when it belongs to the code and lies in the 24 hours after that day's midnight. |
| Repo.MidnightWindow | internal/repo/repo.go:297-298 | Truncating a parsed date, which is already at midnight, leaves it unchanged. |
| Repo.FirstOfMonthWindow | internal/repo/repo.go:370-371 | The window for the first instant of a month runs from that instant to the first instant of the next month. |
| Repo.DayMonthNesting | internal/repo/repo.go:296-439 | A day's total never exceeds the total of the month that contains it. |
| Repo.AdjacentMonths | internal/repo/repo.go:369-439 | Two consecutive months' totals add up to the clicks between the first month's start and the end of the second. December followed by January of the next year is included. |
| Calendar.YearsMonotone | internal/repo/repo.go:370-371 | A later year never starts before an earlier one. |
| Calendar.ClosedFormAgrees | internal/repo/repo.go:297-298 | The recursive count of days before a year agrees with the closed form 365·y + leap days for every year. |
| Calendar.DateOfDayRoundTrip | internal/repo/repo.go:370-371 | Every day number is the day number of a unique valid date, and converting back recovers it. |
| Calendar.DayNumberInjective | internal/repo/repo.go:370-371 | Distinct valid dates have distinct day numbers. |
| Calendar.DayStart | internal/repo/repo.go:297 | The truncation is a midnight at or before the instant, less than a day before it. |
| Calendar.DayStartUnique | internal/repo/repo.go:297 | Any midnight within the day before an instant is its truncation. |
| Calendar.DateOf | internal/repo/repo.go:370 | The date of an instant is valid, and the instant lies in the 24 hours after that date's midnight. |
| Calendar.MonthWindowContains | internal/repo/repo.go:370-371 | An instant lies between the first instant of its month and the first instant of the next month. |
| Calendar.MonthWindowLength | internal/repo/repo.go:371 | Adding one month moves the start forward by exactly that month's number of days. |
| Calendar.DayWithinMonth | internal/repo/repo.go:296-439 | A day's 24-hour window lies inside the window of its month. |
| Layout.ParseDay | internal/service/service.go:237-241 | Only a string of the `YYYY-MM-DD` shape parses, and what it yields is a real calendar date with a four-digit year. |
| Layout.ParseMonth | internal/service/service.go:255-259 | Only a string of the `YYYY-MM` shape parses, and what it yields is the first day of a month with a four-digit year. |
| Layout.ParseFormatDay | internal/service/service.go:237-241 | Formatting a date and parsing it gives the date back. |
| Layout.FormatParsedDay | internal/service/service.go:237-241 | A string that parses as a day is exactly the formatted form of its date. |
| Layout.ParseFormatMonth | internal/service/service.go:255-259 | Formatting a year and month and parsing the result gives them back. |
| Layout.FormatParsedMonth | internal/service/service.go:255-259 | A string that parses as a month is exactly the formatted form of its year and month. |
| Layout.DigitsOfNumber | internal/service/service.go:237-241 | Reading a zero-padded decimal rendering gives back the number. |
| Grouping.Tally | internal/repo/repo.go:183 | Counting rows yields groups with distinct keys, each key's count equal to its occurrences, and every row's key present. |
| Grouping.SortByCountDesc | internal/repo/repo.go:184 | The result is ordered by descending count and is a permutation of the input groups. |
| Grouping.GroupAndSort | internal/repo/repo.go:174-205 | Tallying and sorting yields a correct grouping in descending order. |
| Grouping.GroupingsAgree | internal/repo/repo.go:174-205 | Any two correct groupings of the same rows hold the same groups. |
| Grouping.SumOfGroupCounts | internal/repo/repo.go:209-220 | In a correct grouping, the counts add up to the number of rows. |
| Grouping.GroupingFacts | internal/repo/repo.go:174-205 | A correct grouping has at most as many groups as rows, and every count lies between 1 and the number of rows. |
| Dto.BadResponseError | internal/dto/http_responses.go:48-56 | A 400 error envelope that carries exactly the given code and description. |
| Dto.InternalServerError | internal/dto/http_responses.go:58-66 | A 500 error envelope carrying only the generic unavailability message. |
| Dto.FieldBadFormatError | internal/dto/http_responses.go:68-70 | A 400 FIELD_BADFORMAT envelope naming the field. |
| Dto.FieldIncorrectError | internal/dto/http_responses.go:72-74 | A 400 FIELD_INCORRECT envelope from whose message the field name can be read back. |
| Dto.IncorrectFieldRoundTrip | internal/dto/http_responses.go:72-74 | Parsing an "is incorrect" message recovers the field name it was built from. |
| Dto.FieldIncorrectInjective | internal/dto/http_responses.go:72-74 | Different field names give different replies. |
| Dto.ShortAlreadyExistsError | internal/dto/http_responses.go:76-78 | A 400 SHORT_ALREADY_EXISTS envelope. |
| Dto.ShortNotFoundError | internal/dto/http_responses.go:80-82 | A missing link is a 400 SHORT_NOT_FOUND envelope. |
| Dto.SuccessResponse | internal/dto/http_responses.go:84-89 | A 200 success envelope that carries exactly the given data. |
| Dto.SuccessCreatedResponse | internal/dto/http_responses.go:91-96 | A 201 success envelope that carries exactly the given data. |
| Service.ServiceUrlRoundTrip | internal/service/entity.go:50-59 | Converting a row to the service's link record and back loses nothing, in both directions. |
| Service.AlphabetLayout | internal/service/service.go:101 | The alphabet has 62 symbols: the lower-case letters, then the upper-case letters, then the digits, each in order. |
| Service.Symbol | internal/service/service.go:105-106 | Every draw picks an alphanumeric symbol. |
| Service.DrawOf | internal/service/service.go:105-106 | Every alphanumeric character is the symbol of some draw. |
| Service.SymbolInjective | internal/service/service.go:105-106 | Distinct draws pick distinct symbols. |
| Service.ShortCode | internal/service/service.go:100-108 | A generated code has one alphanumeric character per draw. |
| Service.DecodeGenerated | internal/service/service.go:100-108 | The draws can be read back from the code they generated. |
| Service.GenerateDecoded | internal/service/service.go:100-108 | Every alphanumeric string is the code of some draws. |
| Service.GeneratedCodeShape | internal/service/service.go:59-64 | A generated code is six alphanumeric characters, and different draws give different codes. |
| Service.ParseUserAgent | internal/service/service.go:156-172 | An empty header is Unknown for all three fields. Otherwise browser and os come from the library, and the device is Mobile exactly when the library says mobile, Bot exactly when it says bot but not mobile, and Desktop otherwise. |
| Service.DeviceCategory | internal/service/service.go:156-172 | Every device label is one of Unknown, Mobile, Bot and Desktop, and it is Unknown exactly for an empty header. |
| Service.ClickFor | internal/service/service.go:174-203 | The recorded click names the link and the time. It stores the client's IP, raw header and referer, and the three labels the parser gives for the header. |
| Service.ServeLink | internal/service/service.go:122-129 | An expired link answers FIELD_INCORRECT for "url" and records nothing. A live link answers a 302 to its target and records one click. |
| Service.Redirect | internal/service/service.go:110-154 | An empty code is refused without reading anything. The store is read exactly when the cache yields nothing. A cached link is served as is. A stored link is served the same way. A store failure or miss answers SHORT_NOT_FOUND. A click is recorded exactly when the reply is a redirect. |
| Service.RedirectServesLiveLink | internal/service/service.go:110-154 | A redirect always points at the target of an unexpired link from the cache or the store, and logs its click under that link's short code. |
| Service.CreateUrl | internal/service/service.go:41-98 | An unbound body answers FIELD_BADFORMAT, and a rejected body answers FIELD_INCORRECT with the validator's message. Otherwise the row inserted carries the alias (or a generated code), the target, the time and the expiry. A successful insert answers 201 with the link and caches it. A unique violation on an alias answers "Custom alias already exists". Any other failure answers 500. The reply is 201 exactly when the insert succeeded. |
| Service.ShowAnalytics | internal/service/service.go:211-297 | Every reply is an error or success envelope. An empty code answers FIELD_INCORRECT, and an unknown link SHORT_NOT_FOUND. A 500 occurs exactly when the link exists, the value parses and the click query fails. An unparsable or missing day or month value is a 400. A successful reply carries the day, month, field or default analytics that the request names. |
| Service.DefaultAnalytics | internal/service/service.go:289-296 | A request naming no known breakdown gets the link's overall analytics in a 200 reply. |
| Shortener.Initial | internal/repo/repo.go:89-172 | The empty system satisfies the invariant. |
| Shortener.InsertAnswer | internal/repo/repo.go:89-117 | The handler's insert succeeds exactly when the short code is free, and otherwise fails with 23505. |
| Shortener.Create | internal/service/service.go:41-98 | Creation never touches the click log. A 201 means the code was free and exactly the new row was appended. Any other reply leaves the system unchanged. |
| Shortener.Redirect | internal/service/service.go:110-203 | A redirect never changes links or cache. It appends exactly the click it records, and leaves the system unchanged when it records none. |
| Shortener.Analytics | internal/service/service.go:211-297 | Against a store whose queries succeed, the analytics handler never answers 500. |
| Shortener.CacheKeyInjective | internal/service/service.go:90 | Different short codes have different cache keys. |
| Shortener.AtMostOneMatch | internal/repo/repo.go:119-126 | Under the invariant, at most one stored row matches a code by short or alias, so which matching row `LIMIT 1` returns cannot be observed. |
| Shortener.LookupFinds | internal/repo/repo.go:119-150 | Under the invariant, looking up a stored short code finds exactly its row. |
| Shortener.LookupMisses | internal/repo/repo.go:119-150 | Under the invariant, a code no row has as its short finds nothing. |
| Shortener.CacheHitIsStored | internal/service/service.go:117-132 | Under the invariant, a cache hit is the row the store lookup would return. |
| Shortener.CreatePreservesCoherence | internal/service/service.go:41-98 | Every create request keeps the following: short codes unique, aliases stored as shorts, cache entries equal to their stored rows, and every click owned by a stored link. |
| Shortener.RedirectPreservesCoherence | internal/service/service.go:110-203 | Every redirect request keeps the same invariant. |
| Shortener.CacheIsTransparent | internal/service/service.go:117-153 | Under the invariant, a redirect with the cache answers, records and leaves the same state as one without it. |
| Shortener.RedirectResolves | internal/service/service.go:110-154 | Under the invariant, a redirect succeeds exactly when the code is non-empty and a live stored link has it as its short. The location is that link's target. |
| Shortener.UncachedRedirectResolves | internal/service/service.go:110-154 | The same, with the cache switched off: every answer comes from the stored row the lookup finds. |
| Shortener.DuplicateAliasRefused | internal/service/service.go:74-80 | A taken custom alias answers 400 "Custom alias already exists" and leaves the system unchanged. |
| Shortener.CreatedLinkResolves | internal/service/service.go:41-154 | A link just created redirects to its target for as long as it has not expired. |
| Shortener.RedirectClickShort | internal/service/service.go:135-153 | Following a live stored link records a click under its short code. |
| Shortener.NoClicksForNewCode | internal/service/service.go:41-98 | A code that no link has yet has no clicks. |
| Shortener.SingleClickBreakdown | internal/repo/repo.go:174-205 | The only correct breakdown of one click is one row with its labels and count 1. |
| Shortener.SingleClickAnalytics | internal/repo/repo.go:207-293 | One click gives total 1, one distinct IP, and a single breakdown row. |
| Shortener.AnalyticsFollowWindow | internal/repo/repo.go:207-293 | The default analytics depend only on the code's own clicks: two logs with the same clicks for a code give equal totals, distinct IPs, breakdowns and periods. |
| Shortener.FirstVisitLog | internal/service/service.go:41-203 | Creating a link and following it once leaves exactly that one click in the link's log. |
| Shortener.StoredLinkAnalytics | internal/service/service.go:211-296 | For a stored link, a request naming no breakdown gets the repository's overall analytics in a 200 reply. |
| Shortener.OneClickAnalytics | internal/service/service.go:211-296 | A stored link with one logged click gets a 200 whose analytics report total 1, one distinct IP and one breakdown row. |
| Shortener.FirstVisitAnalytics | internal/service/service.go:41-296 | Create a link, follow it once, then ask for its analytics. The reply reports one click, one distinct IP, and one breakdown row labelled with the visitor's parsed browser, os and device. |

## Left out

- Database and cache setup are not modelled: connection handling, `NewRepository`, `MigrateUp`, `MigrateDown` and `NewService`. They hold no logic of the core.
- The HTTP router, middleware and process entry point are left out. They only wire handlers.
- Click recording is modelled as if it happened before the reply. The real click is written by a goroutine, so ordering and concurrency are not modelled.
- A failed click insert is only logged by the original. The model assumes the insert succeeds.
- The user-agent library is not part of this model. Its browser, os, mobile and bot answers are the `UaParser` parameter.
- The request validator is not part of this model. Its verdict is an input: `None` for an accepted body, or the error text.
- JSON binding is an input, so a body either binds or does not. JSON encoding and decoding of the cached link is assumed to round-trip.
  - A cache entry that fails to decode is modelled as a cache miss, as in the original.
- Cache read failures are modelled as misses. A failed cache write is ignored, as in the original.
- The database's failure modes are collapsed to one outcome per call, a `Result` parameter. Scan errors and driver errors are not distinguished except for the SQLSTATE of an insert.
- Repo.GetUrlAnalytics: the repository's own error returns for failed sub-queries are not modelled. The handler maps them all to 500, and `Service.ShowAnalytics` models that 500.
- Timestamps are whole seconds in UTC. Sub-second precision, time zones other than UTC and DST are left out, and the database session's time zone is assumed to be UTC.
- `NOW()` and `time.Now()` are one `now` parameter per request. The real database clock and server clock can differ slightly.
- Counts are unbounded naturals. The original's 64-bit counters and ids cannot overflow in practice.
- The seeding of the random generator is left out. The six values drawn by `rand.Intn(62)` are the `draws` parameter.
- `getUserInfo` is the `Visitor` parameter, the client's IP and headers as gin reports them.
- Repo.GetUrlByShort: `LIMIT 1` without `ORDER BY` lets the database return any matching row. The model always returns the first match in storage order. Under the system invariant at most one row matches (`Shortener.AtMostOneMatch`), so the choice is invisible there.
- The system starts with an empty store and an empty cache (`Shortener.Initial`). The process applies its migrations at start-up and rolls them back at shutdown (cmd/main.go:66 and 100-104), while Redis keeps its `url:` entries. After such a restart a cached code can have no stored row: the redirect handler would still serve it and record clicks, and the analytics for that code would answer SHORT_NOT_FOUND. Such restarts are outside the model, and the invariant-based lemmas (`Shortener.CacheIsTransparent`, `Shortener.RedirectResolves`) do not cover them.
- The records the original declares but never uses are not modelled. These are the request/response structs in the DTO package and the service's own `Click` and analytics structs.
- The error values `time.Parse` returns are not modelled: the handler replaces them with fixed texts, which the model keeps.
