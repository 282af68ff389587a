/** Calendar dates as the task core uses them: the `YYYY-MM-DD` strings of the
    due-date field, and the day count a JavaScript `Date` compares by. */
module Calendar {
  import opened Wrappers

  /** A year-month-day triple. Nothing here forces it to name a real day:
      V8's `Date` accepts day 31 in every month and rolls it over (see
      `DayNumber`). */
  datatype CalendarDate = CalendarDate(year: int, month: int, day: int)

  /** The date `new Date('9999-12-31')` in the due-date comparator. */
  const LatestDate := CalendarDate(9999, 12, 31)

  predicate IsLeapYear(y: int) {
    y % 4 == 0 && (y % 100 != 0 || y % 400 == 0)
  }

  function YearLength(y: int): int {
    if IsLeapYear(y) then 366 else 365
  }

  function DaysInMonth(y: int, m: int): int
    requires 1 <= m <= 12
  {
    if m == 2 then (if IsLeapYear(y) then 29 else 28)
    else if m == 4 || m == 6 || m == 9 || m == 11 then 30
    else 31
  }

  /** A date that names a real day of the proleptic Gregorian calendar. */
  predicate IsRealDate(d: CalendarDate) {
    1 <= d.month <= 12 && 1 <= d.day <= DaysInMonth(d.year, d.month)
  }

  /** Days from the first of January to the first of month `m`. */
  function DaysBeforeMonth(y: int, m: int): int
    requires 1 <= m <= 12
  {
    var common :=
      if m <= 6 then
        (if m == 1 then 0 else if m == 2 then 31 else if m == 3 then 59
         else if m == 4 then 90 else if m == 5 then 120 else 151)
      else
        (if m == 7 then 181 else if m == 8 then 212 else if m == 9 then 243
         else if m == 10 then 273 else if m == 11 then 304 else 334);
    common + (if m > 2 && IsLeapYear(y) then 1 else 0)
  }

  /** Consecutive months are `DaysInMonth` apart and December ends the year. */
  lemma DaysBeforeMonthStep(y: int, m: int)
    requires 1 <= m <= 12
    ensures m < 12 ==> DaysBeforeMonth(y, m + 1) == DaysBeforeMonth(y, m) + DaysInMonth(y, m)
    ensures m == 12 ==> DaysBeforeMonth(y, m) + DaysInMonth(y, m) == YearLength(y)
    ensures DaysBeforeMonth(y, m) <= DaysBeforeMonth(y, 12)
  {
  }

  /** Days from 0000-01-01 to the first of January of year `y` (negative
      before year 0). */
  function DaysBeforeYear(y: int): int
    decreases if y < 0 then -y else y
  {
    if y == 0 then 0
    else if y > 0 then DaysBeforeYear(y - 1) + YearLength(y - 1)
    else DaysBeforeYear(y + 1) - YearLength(y)
  }

  /** The day count of `d`, counted from 0000-01-01, computed the way
      ECMAScript's MakeDay does: an out-of-range month carries into the year
      and a day past the end of its month carries into the next month. */
  function DayNumber(d: CalendarDate): int {
    var y := d.year + (d.month - 1) / 12;
    var m := (d.month - 1) % 12 + 1;
    DaysBeforeYear(y) + DaysBeforeMonth(y, m) + d.day - 1
  }

  lemma DaysBeforeYearStep(y: int)
    ensures DaysBeforeYear(y + 1) == DaysBeforeYear(y) + YearLength(y)
  {
  }

  /** Later years start later. */
  lemma {:induction false} DaysBeforeYearMonotone(a: int, b: int)
    requires a <= b
    ensures DaysBeforeYear(a) + (b - a) * 365 <= DaysBeforeYear(b)
    decreases b - a
  {
    if a < b {
      DaysBeforeYearMonotone(a, b - 1);
      DaysBeforeYearStep(b - 1);
    }
  }

  /** A date whose month is in range and whose day is at most 31 falls inside
      its own year, even when the day rolls over into a following month. */
  lemma DayNumberWithinYear(d: CalendarDate)
    requires 1 <= d.month <= 12 && 1 <= d.day <= 31
    ensures DaysBeforeYear(d.year) <= DayNumber(d) < DaysBeforeYear(d.year + 1)
  {
    DayNumberInRange(d);
    DaysBeforeMonthStep(d.year, d.month);
    DaysBeforeMonthStep(d.year, 12);
    DaysBeforeYearStep(d.year);
  }

  /** Lexicographic order on (year, month, day): the calendar order of real dates. */
  predicate Precedes(a: CalendarDate, b: CalendarDate) {
    a.year < b.year
    || (a.year == b.year && a.month < b.month)
    || (a.year == b.year && a.month == b.month && a.day < b.day)
  }

  /** On real dates the day count orders dates exactly as the calendar does,
      and two real dates share a day count only when they are the same date. */
  lemma DayNumberOrder(a: CalendarDate, b: CalendarDate)
    requires IsRealDate(a) && IsRealDate(b)
    ensures Precedes(a, b) <==> DayNumber(a) < DayNumber(b)
    ensures a == b <==> DayNumber(a) == DayNumber(b)
  {
    if Precedes(a, b) {
      DayNumberBefore(a, b);
    } else if Precedes(b, a) {
      DayNumberBefore(b, a);
    }
  }

  lemma DayNumberBefore(a: CalendarDate, b: CalendarDate)
    requires IsRealDate(a) && IsRealDate(b) && Precedes(a, b)
    ensures DayNumber(a) < DayNumber(b)
  {
    DayNumberWithinYear(a);
    DayNumberWithinYear(b);
    DayNumberInRange(a);
    DayNumberInRange(b);
    if a.year < b.year {
      DaysBeforeYearMonotone(a.year + 1, b.year);
    } else if a.month < b.month {
      DaysBeforeMonthStep(a.year, a.month);
      MonthStartsMonotone(a.year, a.month + 1, b.month);
    }
  }

  lemma {:induction false} MonthStartsMonotone(y: int, m: int, n: int)
    requires 1 <= m <= n <= 12
    ensures DaysBeforeMonth(y, m) <= DaysBeforeMonth(y, n)
    decreases n - m
  {
    if m < n {
      DaysBeforeMonthStep(y, m);
      MonthStartsMonotone(y, m + 1, n);
    }
  }

  /* ---- The `YYYY-MM-DD` form ---- */

  predicate IsDigit(c: char) {
    '0' <= c <= '9'
  }

  function DigitValue(c: char): int
    requires IsDigit(c)
  {
    c as int - '0' as int
  }

  function DigitChar(n: int): char
    requires 0 <= n <= 9
  {
    ('0' as int + n) as char
  }

  predicate AllDigits(s: string) {
    forall i :: 0 <= i < |s| ==> IsDigit(s[i])
  }

  /** The regular expression `^\d{4}-\d{2}-\d{2}$`: exactly ten characters,
      ASCII digits everywhere but the two dashes. */
  predicate MatchesDateShape(s: string) {
    |s| == 10 && AllDigits(s[0..4]) && s[4] == '-' && AllDigits(s[5..7])
    && s[7] == '-' && AllDigits(s[8..10])
  }

  function Pow10(n: nat): nat {
    if n == 0 then 1 else 10 * Pow10(n - 1)
  }

  /** The decimal value of a digit string. */
  function Number(s: string): nat
    requires AllDigits(s)
  {
    if s == [] then 0 else Number(s[..|s| - 1]) * 10 + DigitValue(s[|s| - 1])
  }

  /** The last `width` decimal digits of `n`, zero-padded on the left. */
  function Pad(n: nat, width: nat): (r: string)
    ensures |r| == width && AllDigits(r)
  {
    if width == 0 then [] else Pad(n / 10, width - 1) + [DigitChar(n % 10)]
  }

  lemma {:induction false} NumberBound(s: string)
    requires AllDigits(s)
    ensures Number(s) < Pow10(|s|)
  {
    if s != [] {
      NumberBound(s[..|s| - 1]);
    }
  }

  /** Padding then reading back gives the number, when it fits the width. */
  lemma {:induction false} NumberOfPad(n: nat, width: nat)
    requires n < Pow10(width)
    ensures Number(Pad(n, width)) == n
  {
    if width > 0 {
      NumberOfPad(n / 10, width - 1);
      var p := Pad(n, width);
      assert p[..|p| - 1] == Pad(n / 10, width - 1);
    }
  }

  /** Reading then padding to the same width gives the digit string back. */
  lemma {:induction false} PadOfNumber(s: string)
    requires AllDigits(s)
    ensures Pad(Number(s), |s|) == s
  {
    if s != [] {
      var init := s[..|s| - 1];
      PadOfNumber(init);
      assert Number(s) / 10 == Number(init);
      assert Number(s) % 10 == DigitValue(s[|s| - 1]);
      assert s == init + [s[|s| - 1]];
    }
  }

  /** `new Date(s)` for a string of the date-only form: a date when the month
      is 01-12 and the day 01-31 (the ranges of the ECMAScript Date Time String
      Format), otherwise an invalid date. */
  function ParseIsoDate(s: string): (r: Option<CalendarDate>)
    ensures r.Some? ==> MatchesDateShape(s)
    ensures r.Some? ==> 0 <= r.value.year <= 9999 && 1 <= r.value.month <= 12 && 1 <= r.value.day <= 31
  {
    if !MatchesDateShape(s) then None
    else
      var y := Number(s[0..4]);
      var m := Number(s[5..7]);
      var d := Number(s[8..10]);
      NumberBound(s[0..4]);
      if 1 <= m <= 12 && 1 <= d <= 31 then Some(CalendarDate(y, m, d)) else None
  }

  /** A date written in the `YYYY-MM-DD` form (the date part of `toISOString`). */
  function FormatIsoDate(d: CalendarDate): (r: string)
    requires 0 <= d.year && 0 <= d.month && 0 <= d.day
    ensures MatchesDateShape(r)
  {
    Pad(d.year, 4) + "-" + Pad(d.month, 2) + "-" + Pad(d.day, 2)
  }

  /** Formatting a date the parser accepts and parsing it back is the identity. */
  lemma ParseFormat(d: CalendarDate)
    requires 0 <= d.year <= 9999 && 1 <= d.month <= 12 && 1 <= d.day <= 31
    ensures ParseIsoDate(FormatIsoDate(d)) == Some(d)
  {
    var s := FormatIsoDate(d);
    assert s[0..4] == Pad(d.year, 4);
    assert s[5..7] == Pad(d.month, 2);
    assert s[8..10] == Pad(d.day, 2);
    NumberOfPad(d.year, 4);
    NumberOfPad(d.month, 2);
    NumberOfPad(d.day, 2);
  }

  /** Every string the parser accepts is the formatting of the date it denotes:
      there is exactly one spelling of each due date. */
  lemma FormatParse(s: string)
    requires ParseIsoDate(s).Some?
    ensures FormatIsoDate(ParseIsoDate(s).value) == s
  {
    PadOfNumber(s[0..4]);
    PadOfNumber(s[5..7]);
    PadOfNumber(s[8..10]);
    assert s == s[0..4] + "-" + s[5..7] + "-" + s[8..10];
  }

  /** For a month in range no carrying happens. */
  lemma DayNumberInRange(d: CalendarDate)
    requires 1 <= d.month <= 12
    ensures DayNumber(d) == DaysBeforeYear(d.year) + DaysBeforeMonth(d.year, d.month) + d.day - 1
  {
    assert (d.month - 1) / 12 == 0 && (d.month - 1) % 12 + 1 == d.month;
  }

  /** No date of year `y` or earlier with month 01-12 and day 01-31 lies
      after the last day of year `y`, and only that day itself reaches it. */
  lemma NotAfterYearEnd(d: CalendarDate, y: int)
    requires d.year <= y && 1 <= d.month <= 12 && 1 <= d.day <= 31
    ensures DayNumber(d) <= DayNumber(CalendarDate(y, 12, 31))
    ensures DayNumber(d) == DayNumber(CalendarDate(y, 12, 31)) <==> d == CalendarDate(y, 12, 31)
  {
    var end := CalendarDate(y, 12, 31);
    DayNumberWithinYear(d);
    DayNumberInRange(end);
    if d.year < y {
      DaysBeforeYearMonotone(d.year + 1, y);
    } else if d.month < 12 {
      DayNumberInRange(d);
      DaysBeforeMonthStep(y, d.month);
      MonthStartsMonotone(y, d.month + 1, 12);
    } else {
      DayNumberInRange(d);
    }
  }

  /** No parseable due date lies after 9999-12-31, and only that date itself
      reaches it. */
  lemma ParsedNotAfterLatest(s: string)
    requires ParseIsoDate(s).Some?
    ensures DayNumber(ParseIsoDate(s).value) <= DayNumber(LatestDate)
    ensures DayNumber(ParseIsoDate(s).value) == DayNumber(LatestDate) <==> ParseIsoDate(s).value == LatestDate
  {
    NotAfterYearEnd(ParseIsoDate(s).value, LatestDate.year);
  }
}
