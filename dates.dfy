/**
 * Calendar days as the application sees them: the "yyyy-MM-dd" strings it
 * stores in every event, the proleptic Gregorian calendar those strings
 * name, and a day count that stands in for the millisecond arithmetic of
 * JavaScript `Date` values taken at the start of a day.
 */
module Dates {
  import opened Base
  import opened Text

  /** A calendar day: full year, month 1..12, day of the month. */
  datatype Ymd = Ymd(year: int, month: int, day: int)

  /** A month of the calendar view: full year and month 1..12. */
  datatype YearMonth = YearMonth(year: int, month: int)

  // ------------------------------------------------------------------ the Gregorian calendar

  predicate IsLeapYear(y: int) {
    y % 4 == 0 && (y % 100 != 0 || y % 400 == 0)
  }

  function DaysInMonth(y: int, m: int): (n: int)
    requires 1 <= m <= 12
    ensures 28 <= n <= 31
    ensures m == 2 ==> (n == 29 <==> IsLeapYear(y))
    ensures m != 2 ==> (n == 30 <==> m in {4, 6, 9, 11})
  {
    if m == 2 then (if IsLeapYear(y) then 29 else 28)
    else if m == 4 || m == 6 || m == 9 || m == 11 then 30
    else 31
  }

  predicate IsValidYmd(d: Ymd) {
    1 <= d.month <= 12 && 1 <= d.day <= DaysInMonth(d.year, d.month)
  }

  // ------------------------------------------------------------------ "yyyy-MM-dd" strings

  /** The pattern /^\d{4}-\d{2}-\d{2}$/. */
  predicate IsIsoShape(s: string) {
    && |s| == 10
    && AllDigits(s[..4]) && s[4] == '-'
    && AllDigits(s[5..7]) && s[7] == '-'
    && AllDigits(s[8..])
  }

  /** The three numbers of an ISO-shaped string. */
  function IsoFields(s: string): (d: Ymd)
    requires IsIsoShape(s)
    ensures 0 <= d.year <= 9999 && 0 <= d.month <= 99 && 0 <= d.day <= 99
  {
    DigitsBound(s[..4]);
    DigitsBound(s[5..7]);
    DigitsBound(s[8..]);
    Ymd(DigitsValue(s[..4]), DigitsValue(s[5..7]), DigitsValue(s[8..]))
  }

  /**
   * `parse(s, "yyyy-MM-dd", …)` followed by `isValid`: the day an ISO-shaped
   * string names, when the calendar has such a day.
   */
  function ParseDay(s: string): (r: Option<Ymd>)
    ensures r.Some? <==> IsIsoShape(s) && IsValidYmd(IsoFields(s))
    ensures r.Some? ==> r.value == IsoFields(s)
  {
    if IsIsoShape(s) && IsValidYmd(IsoFields(s)) then Some(IsoFields(s)) else None
  }

  lemma {:induction false} DigitsBound(s: string)
    requires AllDigits(s)
    ensures DigitsValue(s) < Power10(|s|)
    decreases |s|
  {
    if s != [] {
      DigitsBound(s[..|s| - 1]);
    }
  }

  function Power10(k: nat): (p: nat)
    ensures p >= 1
  {
    if k == 0 then 1 else 10 * Power10(k - 1)
  }

  /** `String(n).padStart(width, "0")`. */
  function Padded(n: nat, width: nat): string {
    PadZeros(NatToString(n), width)
  }

  /** A number below 10^k is written with at most k digits. */
  lemma {:induction false} NatToStringLength(n: nat, k: nat)
    requires k >= 1 && n < Power10(k)
    ensures |NatToString(n)| <= k
    decreases k
  {
    if n >= 10 {
      assert k >= 2;
      NatToStringLength(n / 10, k - 1);
    }
  }

  /** A padded number has exactly `width` digits and reads back as itself. */
  lemma PaddedValue(n: nat, width: nat)
    requires width >= 1 && n < Power10(width)
    ensures |Padded(n, width)| == width
    ensures AllDigits(Padded(n, width)) && DigitsValue(Padded(n, width)) == n
  {
    var s := NatToString(n);
    assert |Padded(n, width)| == width by {
      NatToStringLength(n, width);
    }
    assert AllDigits(Padded(n, width)) && DigitsValue(Padded(n, width)) == n by {
      NatToStringValue(n);
      PadZerosValue(s, width);
    }
  }

  /** `format(day, "yyyy-MM-dd")` for a year of at most four digits. */
  function FormatDay(d: Ymd): string
    requires 0 <= d.year <= 9999 && IsValidYmd(d)
  {
    Padded(d.year, 4) + "-" + Padded(d.month, 2) + "-" + Padded(d.day, 2)
  }

  /** Formatting a day and parsing it back gives the same day. */
  lemma FormatParseDay(d: Ymd)
    requires 0 <= d.year <= 9999 && IsValidYmd(d)
    ensures IsIsoShape(FormatDay(d))
    ensures ParseDay(FormatDay(d)) == Some(d)
  {
    assert Power10(2) == 100 && Power10(4) == 10000;
    var y, m, dd := Padded(d.year, 4), Padded(d.month, 2), Padded(d.day, 2);
    PaddedValue(d.year, 4);
    PaddedValue(d.month, 2);
    PaddedValue(d.day, 2);
    IsoPieces(y, m, dd);
    var s := FormatDay(d);
    assert s[..4] == y && s[5..7] == m && s[8..] == dd;
    assert IsIsoShape(s);
    assert IsoFields(s) == d;
  }

  /** The pieces of a string laid out as "yyyy-MM-dd". */
  lemma IsoPieces(y: string, m: string, d: string)
    requires |y| == 4 && |m| == 2 && |d| == 2
    ensures var s := y + "-" + m + "-" + d;
      |s| == 10 && s[..4] == y && s[4] == '-' && s[5..7] == m && s[7] == '-' && s[8..] == d
  {
  }

  /** `format(date, "yyyy-MM")`, the month parameter of the page address. */
  function FormatMonth(ym: YearMonth): (r: string)
    requires 0 <= ym.year && 1 <= ym.month <= 12
    ensures |r| >= 7
  {
    Padded(ym.year, 4) + "-" + Padded(ym.month, 2)
  }

  /** `parse(param + "-01", "yyyy-MM-dd", …)` and `isValid`, kept at month precision. */
  function ParseMonth(param: string): (r: Option<YearMonth>)
    ensures r.Some? ==> 1 <= r.value.month <= 12
  {
    match ParseDay(param + "-01")
    case Some(d) => Some(YearMonth(d.year, d.month))
    case None => None
  }

  /** A month written to the address reads back as the same month. */
  lemma FormatParseMonth(ym: YearMonth)
    requires 0 <= ym.year <= 9999 && 1 <= ym.month <= 12
    ensures ParseMonth(FormatMonth(ym)) == Some(ym)
  {
    var d := Ymd(ym.year, ym.month, 1);
    assert Padded(1, 2) == "01";
    assert FormatMonth(ym) + "-01" == FormatDay(d);
    FormatParseDay(d);
  }

  /** The month a day falls in. */
  function MonthOf(d: Ymd): YearMonth {
    YearMonth(d.year, d.month)
  }

  // ------------------------------------------------------------------ day numbers

  /** The number of days in the years before `y`, counted from year 0. */
  function DaysBeforeYear(y: int): int {
    365 * y + (y + 3) / 4 - (y + 99) / 100 + (y + 399) / 400
  }

  function DaysInYear(y: int): int {
    if IsLeapYear(y) then 366 else 365
  }

  /** The days of `y` before the first of month `m`. */
  function DaysBeforeMonth(y: int, m: int): (n: int)
    requires 1 <= m <= 12
    ensures 0 <= n <= 335
  {
    var table := [0, 31, 59, 90, 120, 151, 181, 212, 243, 273, 304, 334];
    table[m - 1] + (if m > 2 && IsLeapYear(y) then 1 else 0)
  }

  /**
   * A day as a count of days; the difference of two counts is the
   * difference of the two days' midnights divided by the length of a day.
   */
  function DayNumber(d: Ymd): int
    requires 1 <= d.month <= 12
  {
    DaysBeforeYear(d.year) + DaysBeforeMonth(d.year, d.month) + d.day - 1
  }

  /** The next calendar day. */
  function NextDay(d: Ymd): (r: Ymd)
    requires IsValidYmd(d)
    ensures IsValidYmd(r)
  {
    if d.day < DaysInMonth(d.year, d.month) then Ymd(d.year, d.month, d.day + 1)
    else if d.month < 12 then Ymd(d.year, d.month + 1, 1)
    else Ymd(d.year + 1, 1, 1)
  }

  lemma YearLength(y: int)
    ensures DaysBeforeYear(y + 1) == DaysBeforeYear(y) + DaysInYear(y)
  {
    LeapStep4(y);
    LeapStep100(y);
    LeapStep400(y);
    assert DaysInYear(y) == 365 + (if y % 4 == 0 then 1 else 0) - (if y % 100 == 0 then 1 else 0)
                               + (if y % 400 == 0 then 1 else 0) by {
      MultiplesNest(y);
    }
  }

  /** A multiple of 400 is one of 100, and a multiple of 100 one of 4. */
  lemma MultiplesNest(y: int)
    ensures y % 400 == 0 ==> y % 100 == 0
    ensures y % 100 == 0 ==> y % 4 == 0
  {
    if y % 400 == 0 {
      HundredsOf(4 * (y / 400));
    }
    if y % 100 == 0 {
      FoursOf(25 * (y / 100));
    }
  }

  /** Multiples of 100, and below of 4, leave no remainder. */
  lemma HundredsOf(k: int)
    ensures (100 * k) % 100 == 0
  {
  }

  lemma FoursOf(k: int)
    ensures (4 * k) % 4 == 0
  {
  }

  /** The count of multiples of 4 (of 100, of 400) grows by one exactly at such a multiple. */
  lemma LeapStep4(y: int)
    ensures (y + 4) / 4 - (y + 3) / 4 == if y % 4 == 0 then 1 else 0
  {
  }

  lemma LeapStep100(y: int)
    ensures (y + 100) / 100 - (y + 99) / 100 == if y % 100 == 0 then 1 else 0
  {
  }

  lemma LeapStep400(y: int)
    ensures (y + 400) / 400 - (y + 399) / 400 == if y % 400 == 0 then 1 else 0
  {
  }

  lemma MonthLength(y: int, m: int)
    requires 1 <= m <= 12
    ensures m < 12 ==> DaysBeforeMonth(y, m + 1) == DaysBeforeMonth(y, m) + DaysInMonth(y, m)
    ensures m == 12 ==> DaysBeforeMonth(y, m) + DaysInMonth(y, m) == DaysInYear(y)
  {
  }

  /** Consecutive days have consecutive day numbers. */
  lemma NextDayNumber(d: Ymd)
    requires IsValidYmd(d)
    ensures DayNumber(NextDay(d)) == DayNumber(d) + 1
  {
    MonthLength(d.year, d.month);
    if d.day == DaysInMonth(d.year, d.month) && d.month == 12 {
      YearLength(d.year);
    }
  }

  /** A valid day's number lies within its year. */
  lemma DayNumberInYear(d: Ymd)
    requires IsValidYmd(d)
    ensures DaysBeforeYear(d.year) <= DayNumber(d) < DaysBeforeYear(d.year + 1)
  {
    YearLength(d.year);
    MonthLength(d.year, d.month);
    MonthsIncrease(d.year, d.month, 12);
  }

  lemma {:induction false} MonthsIncrease(y: int, m1: int, m2: int)
    requires 1 <= m1 <= m2 <= 12
    ensures DaysBeforeMonth(y, m1) + (if m1 < m2 then DaysInMonth(y, m1) else 0) <= DaysBeforeMonth(y, m2)
    decreases m2 - m1
  {
    if m1 < m2 {
      MonthLength(y, m1);
      MonthsIncrease(y, m1 + 1, m2);
    }
  }

  lemma {:induction false} YearsIncrease(y1: int, y2: int)
    requires y1 <= y2
    ensures DaysBeforeYear(y1) + 365 * (y2 - y1) <= DaysBeforeYear(y2)
    decreases y2 - y1
  {
    if y1 < y2 {
      YearLength(y1);
      YearsIncrease(y1 + 1, y2);
    }
  }

  /** The order of day numbers is the calendar order of (year, month, day). */
  predicate Before(a: Ymd, b: Ymd) {
    a.year < b.year
    || (a.year == b.year && a.month < b.month)
    || (a.year == b.year && a.month == b.month && a.day < b.day)
  }

  lemma DayNumberOrder(a: Ymd, b: Ymd)
    requires IsValidYmd(a) && IsValidYmd(b)
    ensures DayNumber(a) < DayNumber(b) <==> Before(a, b)
    ensures DayNumber(a) == DayNumber(b) <==> a == b
  {
    DayNumberInYear(a);
    DayNumberInYear(b);
    if a.year < b.year {
      YearsIncrease(a.year + 1, b.year);
    } else if b.year < a.year {
      YearsIncrease(b.year + 1, a.year);
    } else if a.month < b.month {
      MonthsIncrease(a.year, a.month, b.month);
    } else if b.month < a.month {
      MonthsIncrease(a.year, b.month, a.month);
    }
  }
}
