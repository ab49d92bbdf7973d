/**
 * Python's `datetime.date` as far as the date strings need it: the proleptic
 * Gregorian calendar over years 1..9999, `isoformat()`, `toordinal()` and the
 * step `+ timedelta(days=1)`, and the hyphen-free date strings built from them.
 */
module Dates {
  import opened Results
  import opened Text

  const MinYear := 1
  const MaxYear := 9999

  datatype Date = Date(year: int, month: int, day: int)

  /** The last date `datetime.date` can represent. */
  const LastDate := Date(MaxYear, 12, 31)

  predicate IsLeap(year: int) {
    year % 4 == 0 && (year % 100 != 0 || year % 400 == 0)
  }

  function DaysInMonth(year: int, month: int): (n: int)
    requires 1 <= month <= 12
    ensures 28 <= n <= 31
  {
    if month == 2 then (if IsLeap(year) then 29 else 28)
    else if month == 4 || month == 6 || month == 9 || month == 11 then 30
    else 31
  }

  /** The checks `datetime.date(year, month, day)` makes before it raises ValueError. */
  predicate Valid(d: Date) {
    MinYear <= d.year <= MaxYear && 1 <= d.month <= 12 && 1 <= d.day <= DaysInMonth(d.year, d.month)
  }

  function YearLength(year: int): int {
    if IsLeap(year) then 366 else 365
  }

  /** CPython's `_days_before_year`: days in the years before `year`, closed form. */
  function DaysBeforeYear(year: int): int
    requires year >= 1
  {
    var y := year - 1;
    y * 365 + y / 4 - y / 100 + y / 400
  }

  /** CPython's `_DAYS_BEFORE_MONTH`, indexed by month (entry 0 unused). */
  const DaysBeforeMonthTable: seq<int> := [0, 0, 31, 59, 90, 120, 151, 181, 212, 243, 273, 304, 334]

  /** CPython's `_days_before_month`. */
  function DaysBeforeMonth(year: int, month: int): int
    requires 1 <= month <= 12
  {
    DaysBeforeMonthTable[month] + (if month > 2 && IsLeap(year) then 1 else 0)
  }

  /** `date.toordinal()`: day 1 is 0001-01-01. */
  function Ordinal(d: Date): int
    requires Valid(d)
  {
    DaysBeforeYear(d.year) + DaysBeforeMonth(d.year, d.month) + d.day
  }

  /** The calendar day after `d`: the next day of the month, else the first of the next month, else New Year. */
  function NextDay(d: Date): (n: Date)
    requires Valid(d) && d != LastDate
    ensures Valid(n)
  {
    if d.day < DaysInMonth(d.year, d.month) then Date(d.year, d.month, d.day + 1)
    else if d.month < 12 then Date(d.year, d.month + 1, 1)
    else Date(d.year + 1, 1, 1)
  }

  lemma DaysBeforeYearStep(year: int)
    requires year >= 1
    ensures DaysBeforeYear(year + 1) == DaysBeforeYear(year) + YearLength(year)
  {
    var y := year - 1;
    DivStep(y, 4);
    DivStep(y, 100);
    DivStep(y, 400);
    var a := if year % 4 == 0 then 1 else 0;
    var b := if year % 100 == 0 then 1 else 0;
    var c := if year % 400 == 0 then 1 else 0;
    assert DaysBeforeYear(year + 1) == DaysBeforeYear(year) + 365 + a - b + c;
    LeapDivisors(year);
  }

  /** A multiple of 400 is a multiple of 100, and a multiple of 100 is a multiple of 4. */
  lemma LeapDivisors(year: int)
    ensures year % 400 == 0 ==> year % 100 == 0
    ensures year % 100 == 0 ==> year % 4 == 0
  {
    if year % 400 == 0 {
      MultipleOf(year, 400, 100, 4);
    }
    if year % 100 == 0 {
      MultipleOf(year, 100, 4, 25);
    }
  }

  /** A multiple of `k * f` is a multiple of `f`, for the constant divisors of the leap rule. */
  lemma MultipleOf(year: int, n: int, f: int, k: int)
    requires (n, f, k) == (400, 100, 4) || (n, f, k) == (100, 4, 25)
    requires year % n == 0
    ensures year % f == 0
  {
    var p, q, r := year / n, year / f, year % f;
    assert year == n * p;
    assert year == f * q + r && 0 <= r < f;
    var m := k * p - q;
    assert r == f * m;
    assert m == 0;
  }

  /** One more year adds one to `y / k` exactly when the new year is a multiple of `k`. */
  lemma DivStep(y: int, k: int)
    requires y >= 0 && (k == 4 || k == 100 || k == 400)
    ensures (y + 1) / k == y / k + (if (y + 1) % k == 0 then 1 else 0)
  {
    if k == 4 {
      assert (y + 1) / 4 == y / 4 + (if (y + 1) % 4 == 0 then 1 else 0);
    } else if k == 100 {
      assert (y + 1) / 100 == y / 100 + (if (y + 1) % 100 == 0 then 1 else 0);
    } else {
      assert (y + 1) / 400 == y / 400 + (if (y + 1) % 400 == 0 then 1 else 0);
    }
  }

  lemma DaysBeforeMonthStep(year: int, month: int)
    requires 1 <= month < 12
    ensures DaysBeforeMonth(year, month + 1) == DaysBeforeMonth(year, month) + DaysInMonth(year, month)
  {
  }

  /** `toordinal` of the next day is one more: NextDay agrees with CPython's `date + timedelta(days=1)`. */
  lemma NextDayOrdinal(d: Date)
    requires Valid(d) && d != LastDate
    ensures Ordinal(NextDay(d)) == Ordinal(d) + 1
  {
    if d.day == DaysInMonth(d.year, d.month) {
      if d.month < 12 {
        DaysBeforeMonthStep(d.year, d.month);
      } else {
        DaysBeforeYearStep(d.year);
      }
    }
  }

  /** Every valid date falls inside its own year's run of ordinals. */
  lemma OrdinalWithinYear(d: Date)
    requires Valid(d)
    ensures DaysBeforeYear(d.year) < Ordinal(d) <= DaysBeforeYear(d.year) + YearLength(d.year)
  {
  }

  lemma {:induction false} DaysBeforeYearMonotone(a: int, b: int)
    requires 1 <= a <= b
    ensures DaysBeforeYear(a) + (b - a) * 365 <= DaysBeforeYear(b)
    decreases b - a
  {
    if a < b {
      DaysBeforeYearMonotone(a, b - 1);
      DaysBeforeYearStep(b - 1);
    }
  }

  /** Distinct valid dates have distinct ordinals, so NextDay(d) is the only date one past `d`. */
  lemma OrdinalInjective(d1: Date, d2: Date)
    requires Valid(d1) && Valid(d2)
    requires Ordinal(d1) == Ordinal(d2)
    ensures d1 == d2
  {
    if d1.year < d2.year {
      OrdinalYearOrder(d1, d2);
    } else if d2.year < d1.year {
      OrdinalYearOrder(d2, d1);
    }
    assert d1.month == d2.month by {
      if d1.month < d2.month {
        MonthsBefore(d1.year, d1.month, d2.month);
      } else if d2.month < d1.month {
        MonthsBefore(d1.year, d2.month, d1.month);
      }
    }
  }

  /** A date of an earlier year has a smaller ordinal. */
  lemma OrdinalYearOrder(d1: Date, d2: Date)
    requires Valid(d1) && Valid(d2) && d1.year < d2.year
    ensures Ordinal(d1) < Ordinal(d2)
  {
    OrdinalWithinYear(d1);
    OrdinalWithinYear(d2);
    DaysBeforeYearMonotone(d1.year + 1, d2.year);
    DaysBeforeYearStep(d1.year);
  }

  /** The days of an earlier month all come before the first day of a later one. */
  lemma {:induction false} MonthsBefore(year: int, m1: int, m2: int)
    requires 1 <= m1 < m2 <= 12
    ensures DaysBeforeMonth(year, m1) + DaysInMonth(year, m1) <= DaysBeforeMonth(year, m2)
    decreases m2 - m1
  {
    DaysBeforeMonthStep(year, m1);
    if m1 + 1 < m2 {
      MonthsBefore(year, m1 + 1, m2);
    }
  }

  /** `date.isoformat()`: `'%04d-%02d-%02d'`. */
  function IsoFormat(d: Date): string
    requires Valid(d)
  {
    ZeroPad(d.year, 4) + "-" + ZeroPad(d.month, 2) + "-" + ZeroPad(d.day, 2)
  }

  /** `date.isoformat().replace('-', '')`. */
  function Compact(d: Date): string
    requires Valid(d)
  {
    Replace(IsoFormat(d), '-', "")
  }

  /** Reads a compact date string back into its three fields. */
  function ParseCompact(s: string): Date
    requires |s| == 8 && AllDigits(s)
  {
    Date(DigitsValue(s[..4]), DigitsValue(s[4..6]), DigitsValue(s[6..]))
  }

  /** Removing the hyphens from `isoformat()` leaves the three zero-padded fields side by side. */
  lemma CompactFields(d: Date)
    requires Valid(d)
    ensures Compact(d) == ZeroPad(d.year, 4) + ZeroPad(d.month, 2) + ZeroPad(d.day, 2)
  {
    var y, m, dd := ZeroPad(d.year, 4), ZeroPad(d.month, 2), ZeroPad(d.day, 2);
    DigitsHaveNoHyphen(y);
    DigitsHaveNoHyphen(m);
    DigitsHaveNoHyphen(dd);
    ReplaceAbsent(y, '-', "");
    ReplaceAbsent(m, '-', "");
    ReplaceAbsent(dd, '-', "");
    assert Replace("-", '-', "") == "";
    var a := y + "-";
    var b := a + m;
    var c := b + "-";
    assert IsoFormat(d) == c + dd;
    ReplaceAppend(y, "-", '-', "");
    assert Replace(a, '-', "") == y;
    ReplaceAppend(a, m, '-', "");
    assert Replace(b, '-', "") == y + m;
    ReplaceAppend(b, "-", '-', "");
    assert Replace(c, '-', "") == y + m;
    ReplaceAppend(c, dd, '-', "");
  }

  /** The hyphen-free string is 8 digits and reads back as `d`. */
  lemma CompactRoundTrip(d: Date)
    requires Valid(d)
    ensures |Compact(d)| == 8 && AllDigits(Compact(d))
    ensures ParseCompact(Compact(d)) == d
  {
    CompactFields(d);
    var y, m, dd := ZeroPad(d.year, 4), ZeroPad(d.month, 2), ZeroPad(d.day, 2);
    var s := Compact(d);
    assert s[..4] == y && s[4..6] == m && s[6..] == dd;
    ZeroPadValue(d.year, 4);
    ZeroPadValue(d.month, 2);
    ZeroPadValue(d.day, 2);
  }

  lemma DigitsHaveNoHyphen(s: string)
    requires AllDigits(s)
    ensures '-' !in s
  {
  }

  /** `get_date(year, month, day)`: ValueError for an invalid date, else the compact string. */
  function GetDate(year: int, month: int, day: int): (r: Result<string>)
    ensures r.Err? <==> !Valid(Date(year, month, day))
    ensures r.Err? ==> r.error == ValueError
    ensures r.Ok? ==> |r.value| == 8 && AllDigits(r.value) && ParseCompact(r.value) == Date(year, month, day)
  {
    var d := Date(year, month, day);
    if Valid(d) then CompactRoundTrip(d); Ok(Compact(d)) else Err(ValueError)
  }

  /** `get_today()`, with the clock's reading passed in as `today`. */
  function GetToday(today: Date): (s: string)
    requires Valid(today)
    ensures |s| == 8 && AllDigits(s) && ParseCompact(s) == today
  {
    CompactRoundTrip(today);
    Compact(today)
  }

  /** `get_tomorrow()`: the compact string of the next day; OverflowError after the last date. */
  function GetTomorrow(today: Date): (r: Result<string>)
    requires Valid(today)
    ensures r.Err? <==> today == LastDate
    ensures r.Err? ==> r.error == OverflowError
  {
    if today == LastDate then Err(OverflowError) else Ok(Compact(NextDay(today)))
  }

  /** Tomorrow's string names the one valid date whose ordinal is today's plus one. */
  lemma TomorrowIsSuccessor(today: Date, next: Date)
    requires Valid(today) && GetTomorrow(today).Ok?
    ensures |GetTomorrow(today).value| == 8 && AllDigits(GetTomorrow(today).value)
    ensures var t := ParseCompact(GetTomorrow(today).value);
            Valid(t) && Ordinal(t) == Ordinal(today) + 1
    ensures Valid(next) && Ordinal(next) == Ordinal(today) + 1 ==> ParseCompact(GetTomorrow(today).value) == next
  {
    CompactRoundTrip(NextDay(today));
    NextDayOrdinal(today);
    if Valid(next) && Ordinal(next) == Ordinal(today) + 1 {
      OrdinalInjective(next, NextDay(today));
    }
  }

  /** New Year's Eve rolls over to the first of January of the next year. */
  lemma YearRollover(year: int)
    requires MinYear <= year < MaxYear
    ensures NextDay(Date(year, 12, 31)) == Date(year + 1, 1, 1)
  {
  }

  /** February 28 is followed by February 29 exactly in leap years, otherwise by March 1. */
  lemma LeapDay(year: int)
    requires MinYear <= year <= MaxYear
    ensures NextDay(Date(year, 2, 28)) == (if IsLeap(year) then Date(year, 2, 29) else Date(year, 3, 1))
  {
  }

  /** February 29 exists only in leap years, and there is no year 0. */
  lemma GetDateLeapExamples()
    ensures GetDate(2017, 2, 29) == Err(ValueError)
    ensures GetDate(2016, 2, 29).Ok?
    ensures GetDate(0, 1, 1) == Err(ValueError)
  {
    assert DaysInMonth(2017, 2) == 28 && DaysInMonth(2016, 2) == 29;
    assert !Valid(Date(2017, 2, 29)) && Valid(Date(2016, 2, 29)) && !Valid(Date(0, 1, 1));
  }
}
