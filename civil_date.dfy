/** Calendar dates of the proleptic Gregorian calendar, as JavaScript's Date
    computes them, and the "YYYY-MM-DD" text that `toISOString().split('T')[0]`
    yields for an instant. */
module CivilDate {
  import opened Wrappers
  import opened Text
  import opened UtcTime

  datatype Date = Date(year: int, month: int, day: int)

  predicate IsLeap(y: int) {
    y % 4 == 0 && (y % 100 != 0 || y % 400 == 0)
  }

  function DaysInYear(y: int): int {
    if IsLeap(y) then 366 else 365
  }

  /** Days from 0000-01-01 to the first day of year y (negative before it). */
  function DaysBeforeYear(y: int): int {
    365 * y + (y + 3) / 4 - (y + 99) / 100 + (y + 399) / 400
  }

  /** Days from 0000-01-01 to 1970-01-01. */
  const EpochDays: int := 719528

  /** Days in 400 consecutive years. */
  const EraDays: int := 146097

  lemma NextYear(y: int)
    ensures DaysBeforeYear(y + 1) == DaysBeforeYear(y) + DaysInYear(y)
  {
    assert (y + 4) / 4 - (y + 3) / 4 == if y % 4 == 0 then 1 else 0;
    assert (y + 100) / 100 - (y + 99) / 100 == if y % 100 == 0 then 1 else 0;
    assert (y + 400) / 400 - (y + 399) / 400 == if y % 400 == 0 then 1 else 0;
  }

  lemma EraStart(q: int)
    ensures DaysBeforeYear(400 * q) == EraDays * q
  {
    assert (400 * q + 3) / 4 == 100 * q;
    assert (400 * q + 99) / 100 == 4 * q;
    assert (400 * q + 399) / 400 == q;
  }

  lemma {:induction false} YearsAscend(a: int, b: int)
    requires a <= b
    ensures DaysBeforeYear(a) <= DaysBeforeYear(b)
    decreases b - a
  {
    if a < b {
      NextYear(a);
      YearsAscend(a + 1, b);
    }
  }

  /** Days from the first of January of year y to the first of month m. */
  function DaysBeforeMonth(y: int, m: int): (n: int)
    requires 1 <= m <= 13
    ensures m == 13 ==> n == DaysInYear(y)
  {
    [0, 31, 59, 90, 120, 151, 181, 212, 243, 273, 304, 334, 365][m - 1]
      + (if IsLeap(y) && m > 2 then 1 else 0)
  }

  function DaysInMonth(y: int, m: int): (n: int)
    requires 1 <= m <= 12
    ensures 28 <= n <= 31
  {
    DaysBeforeMonth(y, m + 1) - DaysBeforeMonth(y, m)
  }

  predicate Valid(d: Date) {
    1 <= d.month <= 12 && 1 <= d.day <= DaysInMonth(d.year, d.month)
  }

  /** The day number (days since 1970-01-01) of a calendar date. */
  function DayNumberOf(d: Date): int
    requires Valid(d)
  {
    DaysBeforeYear(d.year) + DaysBeforeMonth(d.year, d.month) + d.day - 1 - EpochDays
  }

  /** The year that contains day k (counted from 0000-01-01), searched
      upwards from year y. */
  function YearFrom(y: int, k: int): (r: int)
    requires DaysBeforeYear(y) <= k
    ensures DaysBeforeYear(r) <= k < DaysBeforeYear(r + 1)
    decreases k - DaysBeforeYear(y)
  {
    NextYear(y);
    if k < DaysBeforeYear(y + 1) then y else YearFrom(y + 1, k)
  }

  /** The month of year y that contains day-of-year doy, searched upwards
      from month m. */
  function MonthFrom(y: int, m: int, doy: int): (r: int)
    requires 1 <= m <= 12 && DaysBeforeMonth(y, m) <= doy < DaysInYear(y)
    ensures m <= r <= 12 && DaysBeforeMonth(y, r) <= doy < DaysBeforeMonth(y, r + 1)
    decreases 12 - m
  {
    if doy < DaysBeforeMonth(y, m + 1) then m else MonthFrom(y, m + 1, doy)
  }

  /** The calendar date of day number n (days since 1970-01-01). */
  function DateOfDay(n: int): (d: Date)
    ensures Valid(d) && DayNumberOf(d) == n
  {
    var k := n + EpochDays;
    EraStart(k / EraDays);
    var y := YearFrom(400 * (k / EraDays), k);
    var doy := k - DaysBeforeYear(y);
    NextYear(y);
    var m := MonthFrom(y, 1, doy);
    Date(y, m, doy - DaysBeforeMonth(y, m) + 1)
  }

  lemma {:induction false} MonthsAscend(y: int, a: int, b: int)
    requires 1 <= a < b <= 13
    ensures DaysBeforeMonth(y, a) < DaysBeforeMonth(y, b)
    decreases b - a
  {
    assert DaysInMonth(y, a) >= 28;
    if a + 1 < b {
      MonthsAscend(y, a + 1, b);
    }
  }

  lemma YearUnique(a: int, b: int, k: int)
    requires DaysBeforeYear(a) <= k < DaysBeforeYear(a + 1)
    requires DaysBeforeYear(b) <= k < DaysBeforeYear(b + 1)
    ensures a == b
  {
    if a < b {
      YearsAscend(a + 1, b);
    } else if b < a {
      YearsAscend(b + 1, a);
    }
  }

  lemma MonthUnique(y: int, a: int, b: int, doy: int)
    requires 1 <= a <= 12 && 1 <= b <= 12
    requires DaysBeforeMonth(y, a) <= doy < DaysBeforeMonth(y, a + 1)
    requires DaysBeforeMonth(y, b) <= doy < DaysBeforeMonth(y, b + 1)
    ensures a == b
  {
    if a < b {
      MonthsAscend(y, a + 1, b + 1);
      if a + 1 < b { MonthsAscend(y, a + 1, b); }
    } else if b < a {
      MonthsAscend(y, b + 1, a + 1);
      if b + 1 < a { MonthsAscend(y, b + 1, a); }
    }
  }

  /** Where a valid date's day falls: inside its year and inside its month. */
  lemma Placed(d: Date)
    requires Valid(d)
    ensures var k := DayNumberOf(d) + EpochDays;
      DaysBeforeYear(d.year) <= k < DaysBeforeYear(d.year + 1)
      && DaysBeforeMonth(d.year, d.month) <= k - DaysBeforeYear(d.year) < DaysBeforeMonth(d.year, d.month + 1)
  {
    NextYear(d.year);
    if d.month < 12 {
      MonthsAscend(d.year, d.month + 1, 13);
    }
  }

  /** Distinct valid dates have distinct day numbers. */
  lemma DayNumberInjective(a: Date, b: Date)
    requires Valid(a) && Valid(b) && DayNumberOf(a) == DayNumberOf(b)
    ensures a == b
  {
    var k := DayNumberOf(a) + EpochDays;
    Placed(a);
    Placed(b);
    YearUnique(a.year, b.year, k);
    MonthUnique(a.year, a.month, b.month, k - DaysBeforeYear(a.year));
  }

  /** The calendar date of a valid date's day number is that date. */
  lemma DateOfDayNumber(d: Date)
    requires Valid(d)
    ensures DateOfDay(DayNumberOf(d)) == d
  {
    DayNumberInjective(DateOfDay(DayNumberOf(d)), d);
  }

  /** The year as `toISOString` writes it: four digits for years 0 to 9999,
      otherwise a sign and six digits. */
  function YearText(y: int): (s: string)
    ensures 0 <= y <= 9999 ==> |s| == 4 && AllDigits(s) && DigitsValue(s) == y
  {
    if 0 <= y <= 9999 then Padded(y, 4)
    else (if y < 0 then "-" else "+") + Padded(if y < 0 then -y else y, 6)
  }

  /** `t.toISOString().split('T')[0]`: the UTC calendar date of t. */
  function IsoDate(t: int): string {
    var d := DateOfDay(DayNumber(t));
    YearText(d.year) + "-" + Padded(d.month, 2) + "-" + Padded(d.day, 2)
  }

  /** Reads a "YYYY-MM-DD" text back as a day number; None when the text has
      another shape or names no calendar date. */
  function ParseIsoDate(s: string): Option<int> {
    if |s| == 10 && s[4] == '-' && s[7] == '-'
       && AllDigits(s[..4]) && AllDigits(s[5..7]) && AllDigits(s[8..])
    then
      var d := Date(DigitsValue(s[..4]), DigitsValue(s[5..7]), DigitsValue(s[8..]));
      if Valid(d) then Some(DayNumberOf(d)) else None
    else None
  }

  lemma Pieces(y: string, m: string, d: string)
    requires |y| == 4 && |m| == 2 && |d| == 2
    ensures var s := y + "-" + m + "-" + d;
      |s| == 10 && s[4] == '-' && s[7] == '-' && s[..4] == y && s[5..7] == m && s[8..] == d
  {
  }

  /** For years 0 to 9999 the date text has the shape YYYY-MM-DD and names
      exactly the UTC day of the instant. */
  lemma IsoDateNamesDay(t: int)
    requires 0 <= DateOfDay(DayNumber(t)).year <= 9999
    ensures |IsoDate(t)| == 10 && IsoDate(t)[4] == '-' && IsoDate(t)[7] == '-'
    ensures ParseIsoDate(IsoDate(t)) == Some(DayNumber(t))
  {
    var d := DateOfDay(DayNumber(t));
    var y, m, dd := YearText(d.year), Padded(d.month, 2), Padded(d.day, 2);
    Pieces(y, m, dd);
    assert IsoDate(t) == y + "-" + m + "-" + dd;
  }
}
