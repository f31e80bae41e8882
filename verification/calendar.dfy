/** Proleptic Gregorian calendar arithmetic on instants counted in whole
    seconds since 1970-01-01 00:00 UTC: the part of Go's `time` package that
    the day and month analytics windows rely on (`Truncate(24h)`,
    `time.Date(y, m, 1, ...)`, `AddDate(0, 1, 0)`, `Year()`, `Month()`). */
module Calendar {

  const SecondsPerDay: int := 86400

  type Month = m: int | 1 <= m <= 12 witness 1

  /** A civil date; `ValidDate` says whether the day exists in that month. */
  datatype Date = Date(year: int, month: Month, day: int)

  predicate IsLeapYear(y: int) {
    y % 4 == 0 && (y % 100 != 0 || y % 400 == 0)
  }

  function DaysInYear(y: int): int {
    if IsLeapYear(y) then 366 else 365
  }

  function DaysInMonth(y: int, m: Month): int {
    if m == 2 then (if IsLeapYear(y) then 29 else 28)
    else if m == 4 || m == 6 || m == 9 || m == 11 then 30
    else 31
  }

  predicate ValidDate(d: Date) {
    1 <= d.day <= DaysInMonth(d.year, d.month)
  }

  /** Days from January 1 of year `y` to the first of month `m`. */
  function DaysBeforeMonth(y: int, m: Month): int {
    var leap := if m > 2 && IsLeapYear(y) then 1 else 0;
    [0, 31, 59, 90, 120, 151, 181, 212, 243, 273, 304, 334][m - 1] + leap
  }

  /** Days from 1970-01-01 to January 1 of year `y` (negative before 1970),
      counted one year at a time. */
  function DaysBeforeYear(y: int): int
    decreases if y < 1970 then 1970 - y else y - 1970
  {
    if y == 1970 then 0
    else if y > 1970 then DaysBeforeYear(y - 1) + DaysInYear(y - 1)
    else DaysBeforeYear(y + 1) - DaysInYear(y)
  }

  /** Days since 1970-01-01 of a civil date. */
  function DayNumber(d: Date): int {
    DaysBeforeYear(d.year) + DaysBeforeMonth(d.year, d.month) + d.day - 1
  }

  // ---------------------------------------------------------------------
  // Facts about the year and month tables
  // ---------------------------------------------------------------------

  /** Month lengths add up: the next month starts where this one ends, and
      December ends where the year ends. */
  lemma MonthsAccumulate(y: int, m: Month)
    ensures m < 12 ==> DaysBeforeMonth(y, m + 1) == DaysBeforeMonth(y, m) + DaysInMonth(y, m)
    ensures m == 12 ==> DaysBeforeMonth(y, m) + DaysInMonth(y, m) == DaysInYear(y)
    ensures DaysBeforeMonth(y, m) + DaysInMonth(y, m) <= DaysInYear(y)
  {
  }

  lemma YearStep(y: int)
    ensures DaysBeforeYear(y + 1) == DaysBeforeYear(y) + DaysInYear(y)
  {
  }

  lemma {:induction false} YearsMonotone(a: int, b: int)
    requires a <= b
    ensures DaysBeforeYear(a) <= DaysBeforeYear(b)
    decreases b - a
  {
    if a < b {
      YearStep(b - 1);
      YearsMonotone(a, b - 1);
    }
  }

  lemma {:induction false} MonthsMonotone(y: int, a: Month, b: Month)
    requires a < b
    ensures DaysBeforeMonth(y, a) + DaysInMonth(y, a) <= DaysBeforeMonth(y, b)
    decreases b - a
  {
    MonthsAccumulate(y, b - 1);
    if a < b - 1 {
      MonthsMonotone(y, a, b - 1);
    }
  }

  /** A valid date's day number falls inside its own year and month. */
  lemma DayNumberBounds(d: Date)
    requires ValidDate(d)
    ensures DaysBeforeYear(d.year) <= DayNumber(d) < DaysBeforeYear(d.year + 1)
    ensures DayNumber(Date(d.year, d.month, 1)) <= DayNumber(d)
              < DayNumber(Date(d.year, d.month, 1)) + DaysInMonth(d.year, d.month)
  {
    MonthsAccumulate(d.year, d.month);
    YearStep(d.year);
  }

  /** Leap years among years 1 .. y-1, as the 4/100/400 rule counts them
      (a signed count below year 1). */
  function LeapYearsBefore(y: int): int {
    (y - 1) / 4 - (y - 1) / 100 + (y - 1) / 400
  }

  /** A closed form for `DaysBeforeYear`, the way calendar libraries compute
      it without iterating over years. */
  function DaysBeforeYearClosed(y: int): int {
    365 * (y - 1970) + LeapYearsBefore(y) - LeapYearsBefore(1970)
  }

  lemma DivisorStep(y: int)
    ensures y / 4 - (y - 1) / 4 == if y % 4 == 0 then 1 else 0
    ensures y / 100 - (y - 1) / 100 == if y % 100 == 0 then 1 else 0
    ensures y / 400 - (y - 1) / 400 == if y % 400 == 0 then 1 else 0
  {
  }

  lemma LeapStep(y: int)
    ensures LeapYearsBefore(y + 1) == LeapYearsBefore(y) + (if IsLeapYear(y) then 1 else 0)
  {
    DivisorStep(y);
    DivisorsNest(y);
  }

  /** A multiple of 400 is a multiple of 100, and a multiple of 100 is a
      multiple of 4. */
  lemma DivisorsNest(y: int)
    ensures y % 400 == 0 ==> y % 100 == 0
    ensures y % 100 == 0 ==> y % 4 == 0
  {
    if y % 400 == 0 {
      var k := y / 400;
      assert y == 400 * k;
      assert y / 100 == 4 * k;
    }
    if y % 100 == 0 {
      var k := y / 100;
      assert y == 100 * k;
      assert y / 4 == 25 * k;
    }
  }

  /** The year-by-year count and the closed form agree on every year. */
  lemma {:induction false} ClosedFormAgrees(y: int)
    ensures DaysBeforeYearClosed(y) == DaysBeforeYear(y)
    decreases if y < 1970 then 1970 - y else y - 1970
  {
    if y > 1970 {
      ClosedFormAgrees(y - 1);
      LeapStep(y - 1);
    } else if y < 1970 {
      ClosedFormAgrees(y + 1);
      LeapStep(y);
    }
  }

  // ---------------------------------------------------------------------
  // From a day number back to the civil date (Go's Year/Month/Day)
  // ---------------------------------------------------------------------

  function YearAtOrAfter(z: int, y: int): (r: int)
    requires DaysBeforeYear(y) <= z
    ensures DaysBeforeYear(r) <= z < DaysBeforeYear(r + 1)
    decreases z - DaysBeforeYear(y)
  {
    YearStep(y);
    if z < DaysBeforeYear(y + 1) then y else YearAtOrAfter(z, y + 1)
  }

  function YearAtOrBefore(z: int, y: int): (r: int)
    requires z < DaysBeforeYear(y + 1)
    ensures DaysBeforeYear(r) <= z < DaysBeforeYear(r + 1)
    decreases DaysBeforeYear(y) - z
  {
    YearStep(y - 1);
    if DaysBeforeYear(y) <= z then y else YearAtOrBefore(z, y - 1)
  }

  function MonthAtOrAfter(y: int, r: int, m: Month): (n: Month)
    requires DaysBeforeMonth(y, m) <= r < DaysInYear(y)
    ensures DaysBeforeMonth(y, n) <= r < DaysBeforeMonth(y, n) + DaysInMonth(y, n)
    decreases 12 - m
  {
    MonthsAccumulate(y, m);
    if r < DaysBeforeMonth(y, m) + DaysInMonth(y, m) then m else MonthAtOrAfter(y, r, m + 1)
  }

  /** The civil date of the `z`-th day after 1970-01-01 (negative `z` before). */
  function DateOfDay(z: int): (d: Date)
    ensures ValidDate(d)
    ensures DayNumber(d) == z
  {
    var y := if z >= 0 then YearAtOrAfter(z, 1970) else YearAtOrBefore(z, 1969);
    YearStep(y);
    var m := MonthAtOrAfter(y, z - DaysBeforeYear(y), 1);
    Date(y, m, z - DaysBeforeYear(y) - DaysBeforeMonth(y, m) + 1)
  }

  lemma YearUnique(a: int, b: int, z: int)
    requires DaysBeforeYear(a) <= z < DaysBeforeYear(a + 1)
    requires DaysBeforeYear(b) <= z < DaysBeforeYear(b + 1)
    ensures a == b
  {
    if a < b {
      YearsMonotone(a + 1, b);
    } else if b < a {
      YearsMonotone(b + 1, a);
    }
  }

  /** Distinct valid dates have distinct day numbers. */
  lemma DayNumberInjective(a: Date, b: Date)
    requires ValidDate(a) && ValidDate(b)
    requires DayNumber(a) == DayNumber(b)
    ensures a == b
  {
    DayNumberBounds(a);
    DayNumberBounds(b);
    YearUnique(a.year, b.year, DayNumber(a));
    if a.month < b.month {
      MonthsMonotone(a.year, a.month, b.month);
    } else if b.month < a.month {
      MonthsMonotone(a.year, b.month, a.month);
    }
  }

  /** `DateOfDay` inverts `DayNumber` on every valid date. */
  lemma DateOfDayRoundTrip(d: Date)
    requires ValidDate(d)
    ensures DateOfDay(DayNumber(d)) == d
  {
    DayNumberInjective(DateOfDay(DayNumber(d)), d);
  }

  // ---------------------------------------------------------------------
  // Instants
  // ---------------------------------------------------------------------

  /** Go's `t.Truncate(24 * time.Hour)`: the last multiple of a day at or
      before `t` (Go truncates relative to year 1, which lies a whole number
      of days before 1970, so the multiples coincide). */
  function DayStart(t: int): (s: int)
    ensures s % SecondsPerDay == 0
    ensures s <= t < s + SecondsPerDay
  {
    (t / SecondsPerDay) * SecondsPerDay
  }

  /** Truncation is the only day multiple within a day below `t`. */
  lemma DayStartUnique(t: int, s: int)
    requires s % SecondsPerDay == 0
    requires s <= t < s + SecondsPerDay
    ensures DayStart(t) == s
  {
    var k := s / SecondsPerDay;
    assert s == k * SecondsPerDay;
    assert t / SecondsPerDay == k;
  }

  /** Midnight UTC of a civil date. */
  function Midnight(d: Date): int {
    DayNumber(d) * SecondsPerDay
  }

  /** The civil date an instant falls on, in UTC. */
  function DateOf(t: int): (d: Date)
    ensures ValidDate(d)
    ensures Midnight(d) <= t < Midnight(d) + SecondsPerDay
  {
    DateOfDay(t / SecondsPerDay)
  }

  /** `time.Date(y, m, 1, 0, 0, 0, 0, UTC)`. */
  function MonthStart(y: int, m: Month): int {
    Midnight(Date(y, m, 1))
  }

  /** `MonthStart(y, m).AddDate(0, 1, 0)`: the first of the following month,
      December rolling over into January of the next year. */
  function MonthEnd(y: int, m: Month): int {
    if m == 12 then MonthStart(y + 1, 1) else MonthStart(y, m + 1)
  }

  /** A month window spans exactly that month's days. */
  lemma MonthWindowLength(y: int, m: Month)
    ensures MonthEnd(y, m) - MonthStart(y, m) == DaysInMonth(y, m) * SecondsPerDay
  {
    MonthsAccumulate(y, m);
    YearStep(y);
  }

  /** The month window built from an instant's year and month contains it. */
  lemma MonthWindowContains(t: int)
    ensures MonthStart(DateOf(t).year, DateOf(t).month) <= t
    ensures t < MonthEnd(DateOf(t).year, DateOf(t).month)
  {
    var d := DateOf(t);
    DayNumberBounds(d);
    MonthWindowLength(d.year, d.month);
  }

  /** The day window of a valid date lies inside the window of its month. */
  lemma DayWithinMonth(d: Date)
    requires ValidDate(d)
    ensures MonthStart(d.year, d.month) <= Midnight(d)
    ensures Midnight(d) + SecondsPerDay <= MonthEnd(d.year, d.month)
  {
    DayNumberBounds(d);
    MonthWindowLength(d.year, d.month);
  }
}
