/** The two `time.Parse` layouts the analytics handler accepts, "2006-01-02"
    and "2006-01", as fixed-width formats: four year digits, two month digits
    in 01..12, and for a day two day digits that must name a day of that
    month; nothing may follow. Both yield a UTC date. */
module Layout {
  import opened Wrappers
  import opened Calendar

  predicate IsDigit(c: char) {
    '0' <= c <= '9'
  }

  predicate AllDigits(s: string) {
    forall i :: 0 <= i < |s| ==> IsDigit(s[i])
  }

  function Pow10(n: nat): nat {
    if n == 0 then 1 else 10 * Pow10(n - 1)
  }

  /** The decimal value of a digit string. */
  function Number(s: string): nat
    requires AllDigits(s)
  {
    if s == [] then 0
    else 10 * Number(s[..|s| - 1]) + (s[|s| - 1] as int - '0' as int)
  }

  /** `n` written with exactly `width` decimal digits, zero padded. */
  function Digits(n: nat, width: nat): (s: string)
    ensures |s| == width
    ensures AllDigits(s)
  {
    if width == 0 then "" else Digits(n / 10, width - 1) + [('0' as int + n % 10) as char]
  }

  lemma {:induction false} NumberBound(s: string)
    requires AllDigits(s)
    ensures Number(s) < Pow10(|s|)
  {
    if s != [] {
      NumberBound(s[..|s| - 1]);
    }
  }

  /** Reading back a padded number gives the number. */
  lemma {:induction false} NumberOfDigits(n: nat, width: nat)
    requires n < Pow10(width)
    ensures Number(Digits(n, width)) == n
  {
    if width > 0 {
      var s := Digits(n, width);
      assert s[..|s| - 1] == Digits(n / 10, width - 1);
      NumberOfDigits(n / 10, width - 1);
    }
  }

  /** Writing a digit string's value at its own width gives the string. */
  lemma {:induction false} DigitsOfNumber(s: string)
    requires AllDigits(s)
    ensures Digits(Number(s), |s|) == s
  {
    if s != [] {
      var p := s[..|s| - 1];
      DigitsOfNumber(p);
      assert Number(s) / 10 == Number(p);
      assert s == p + [s[|s| - 1]];
    }
  }

  predicate DayShaped(s: string) {
    && |s| == 10 && s[4] == '-' && s[7] == '-'
    && AllDigits(s[0..4]) && AllDigits(s[5..7]) && AllDigits(s[8..10])
  }

  predicate MonthShaped(s: string) {
    |s| == 7 && s[4] == '-' && AllDigits(s[0..4]) && AllDigits(s[5..7])
  }

  /** `time.Parse("2006-01-02", s)`: the date, or None for any error. */
  function ParseDay(s: string): (r: Option<Date>)
    ensures r.Some? ==> DayShaped(s)
    ensures r.Some? ==> ValidDate(r.value) && 0 <= r.value.year <= 9999
  {
    if !DayShaped(s) then None
    else
      var y, m, d := Number(s[0..4]), Number(s[5..7]), Number(s[8..10]);
      NumberBound(s[0..4]);
      if 1 <= m <= 12 && 1 <= d <= DaysInMonth(y, m) then Some(Date(y, m, d)) else None
  }

  /** `time.Parse("2006-01", s)`: the first of that month, or None. */
  function ParseMonth(s: string): (r: Option<Date>)
    ensures r.Some? ==> MonthShaped(s)
    ensures r.Some? ==> r.value.day == 1 && 0 <= r.value.year <= 9999
  {
    if !MonthShaped(s) then None
    else
      var y, m := Number(s[0..4]), Number(s[5..7]);
      NumberBound(s[0..4]);
      if 1 <= m <= 12 then Some(Date(y, m, 1)) else None
  }

  /** The canonical "2006-01-02" rendering of a date with a four-digit year. */
  function FormatDay(d: Date): (s: string)
    requires 0 <= d.year <= 9999 && 1 <= d.day <= 99
    ensures DayShaped(s)
  {
    var s := Digits(d.year, 4) + "-" + Digits(d.month, 2) + "-" + Digits(d.day, 2);
    assert s[0..4] == Digits(d.year, 4) && s[5..7] == Digits(d.month, 2) && s[8..10] == Digits(d.day, 2);
    s
  }

  function FormatMonth(d: Date): (s: string)
    requires 0 <= d.year <= 9999
    ensures MonthShaped(s)
  {
    var s := Digits(d.year, 4) + "-" + Digits(d.month, 2);
    assert s[0..4] == Digits(d.year, 4) && s[5..7] == Digits(d.month, 2);
    s
  }

  /** Every valid date with a four-digit year is accepted in its canonical
      form, and parsing recovers it. */
  lemma ParseFormatDay(d: Date)
    requires ValidDate(d) && 0 <= d.year <= 9999
    ensures ParseDay(FormatDay(d)) == Some(d)
  {
    var s := FormatDay(d);
    assert s[0..4] == Digits(d.year, 4) && s[5..7] == Digits(d.month, 2) && s[8..10] == Digits(d.day, 2);
    assert Pow10(4) == 10000 && Pow10(2) == 100;
    NumberOfDigits(d.year, 4);
    NumberOfDigits(d.month, 2);
    NumberOfDigits(d.day, 2);
  }

  /** Whatever "2006-01-02" accepts is exactly the canonical form of the date
      it yields: there is one spelling per day. */
  lemma FormatParsedDay(s: string)
    requires ParseDay(s).Some?
    ensures FormatDay(ParseDay(s).value) == s
  {
    DigitsOfNumber(s[0..4]);
    DigitsOfNumber(s[5..7]);
    DigitsOfNumber(s[8..10]);
    var t := FormatDay(ParseDay(s).value);
    assert t[0..4] == s[0..4] && t[5..7] == s[5..7] && t[8..10] == s[8..10];
    assert t == s[0..4] + "-" + s[5..7] + "-" + s[8..10];
    assert s == s[0..4] + "-" + s[5..7] + "-" + s[8..10];
  }

  lemma ParseFormatMonth(d: Date)
    requires d.day == 1 && 0 <= d.year <= 9999
    ensures ParseMonth(FormatMonth(d)) == Some(d)
  {
    var s := FormatMonth(d);
    assert s[0..4] == Digits(d.year, 4) && s[5..7] == Digits(d.month, 2);
    assert Pow10(4) == 10000 && Pow10(2) == 100;
    NumberOfDigits(d.year, 4);
    NumberOfDigits(d.month, 2);
  }

  lemma FormatParsedMonth(s: string)
    requires ParseMonth(s).Some?
    ensures FormatMonth(ParseMonth(s).value) == s
  {
    DigitsOfNumber(s[0..4]);
    DigitsOfNumber(s[5..7]);
    var t := FormatMonth(ParseMonth(s).value);
    assert t == s[0..4] + "-" + s[5..7];
    assert s == s[0..4] + "-" + s[5..7];
  }
}
