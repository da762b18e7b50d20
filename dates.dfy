/** Proleptic Gregorian calendar dates as Python's `datetime` counts them,
    the day arithmetic `date ± timedelta(days=n)` and the `'%Y-%m-%d'`
    format. */
module Dates {
  import opened Basics
  import opened Strings

  datatype Date = Date(year: nat, month: nat, day: nat)

  predicate IsLeap(y: nat) {
    y % 4 == 0 && (y % 100 != 0 || y % 400 == 0)
  }

  function DaysInMonth(y: nat, m: nat): nat
    requires 1 <= m <= 12
  {
    if m == 2 then (if IsLeap(y) then 29 else 28)
    else if m == 4 || m == 6 || m == 9 || m == 11 then 30
    else 31
  }

  function DaysInYear(y: nat): nat {
    if IsLeap(y) then 366 else 365
  }

  /** A date `datetime` accepts (from year 1 on; the upper limit is kept by
      the callers). */
  predicate Valid(d: Date) {
    d.year >= 1 && 1 <= d.month <= 12 && 1 <= d.day <= DaysInMonth(d.year, d.month)
  }

  /** Days in the months of year `y` before month `m`. */
  function DaysBeforeMonth(y: nat, m: nat): nat
    requires 1 <= m <= 13
    decreases m
  {
    if m == 1 then 0 else DaysBeforeMonth(y, m - 1) + DaysInMonth(y, m - 1)
  }

  /** Days in the years before year `y`, counted from 1 January of year 1. */
  function DaysBeforeYear(y: nat): nat
    requires y >= 1
    decreases y
  {
    if y == 1 then 0 else DaysBeforeYear(y - 1) + DaysInYear(y - 1)
  }

  /** Days from 1 January of year 1 (`date.toordinal() - 1`). */
  function Ordinal(d: Date): nat
    requires Valid(d)
  {
    DaysBeforeYear(d.year) + DaysBeforeMonth(d.year, d.month) + d.day - 1
  }

  /** The twelve months make up the year. */
  lemma {:induction false} MonthsMakeYear(y: nat)
    ensures DaysBeforeMonth(y, 13) == DaysInYear(y)
  {
    assert DaysBeforeMonth(y, 2) == 31;
    assert DaysBeforeMonth(y, 4) == DaysBeforeMonth(y, 3) + 31;
    assert DaysBeforeMonth(y, 7) == DaysBeforeMonth(y, 4) + 91;
    assert DaysBeforeMonth(y, 10) == DaysBeforeMonth(y, 7) + 92;
  }

  /** The day after `d`. */
  function NextDay(d: Date): (r: Date)
    requires Valid(d)
  {
    if d.day < DaysInMonth(d.year, d.month) then Date(d.year, d.month, d.day + 1)
    else if d.month < 12 then Date(d.year, d.month + 1, 1)
    else Date(d.year + 1, 1, 1)
  }

  /** The day before `d`, for any day after 1 January of year 1. */
  function PrevDay(d: Date): (r: Date)
    requires Valid(d) && Ordinal(d) > 0
  {
    if d.day > 1 then Date(d.year, d.month, d.day - 1)
    else if d.month > 1 then Date(d.year, d.month - 1, DaysInMonth(d.year, d.month - 1))
    else Date(d.year - 1, 12, 31)
  }

  /** The day after is one day further. */
  lemma {:induction false} NextDayOrdinal(d: Date)
    requires Valid(d)
    ensures Valid(NextDay(d)) && Ordinal(NextDay(d)) == Ordinal(d) + 1
  {
    if d.day < DaysInMonth(d.year, d.month) {
    } else if d.month < 12 {
      NextMonthOrdinal(d.year, d.month);
    } else {
      NextYearOrdinal(d.year);
    }
  }

  /** The first of the next month follows the last day of month `m`. */
  lemma {:induction false} NextMonthOrdinal(y: nat, m: nat)
    requires y >= 1 && 1 <= m < 12
    ensures Ordinal(Date(y, m + 1, 1)) == Ordinal(Date(y, m, DaysInMonth(y, m))) + 1
  {
  }

  /** New Year's day follows the last day of December. */
  lemma {:induction false} NextYearOrdinal(y: nat)
    requires y >= 1
    ensures Ordinal(Date(y + 1, 1, 1)) == Ordinal(Date(y, 12, 31)) + 1
  {
    MonthsMakeYear(y);
  }

  /** The day before is one day back. */
  lemma {:induction false} PrevDayOrdinal(d: Date)
    requires Valid(d) && Ordinal(d) > 0
    ensures Valid(PrevDay(d)) && Ordinal(PrevDay(d)) == Ordinal(d) - 1
  {
    if d.day > 1 {
    } else if d.month > 1 {
      NextMonthOrdinal(d.year, d.month - 1);
    } else {
      assert d.year > 1;
      NextYearOrdinal(d.year - 1);
    }
  }

  /** Going forward one day and back one day are inverse. */
  lemma {:induction false} PrevNext(d: Date)
    requires Valid(d)
    ensures Valid(NextDay(d)) && Ordinal(NextDay(d)) > 0 && PrevDay(NextDay(d)) == d
  {
    NextDayOrdinal(d);
  }

  lemma {:induction false} NextPrev(d: Date)
    requires Valid(d) && Ordinal(d) > 0
    ensures Valid(PrevDay(d)) && NextDay(PrevDay(d)) == d
  {
    PrevDayOrdinal(d);
  }

  /** `d + timedelta(days=n)`. */
  function AddDays(d: Date, n: nat): (r: Date)
    requires Valid(d)
    ensures Valid(r) && Ordinal(r) == Ordinal(d) + n
    decreases n
  {
    if n == 0 then d
    else
      NextDayOrdinal(d);
      AddDays(NextDay(d), n - 1)
  }

  /** `d - timedelta(days=n)`, which `datetime` allows back to year 1. */
  function SubDays(d: Date, n: nat): (r: Date)
    requires Valid(d) && n <= Ordinal(d)
    ensures Valid(r) && Ordinal(r) == Ordinal(d) - n
    decreases n
  {
    if n == 0 then d
    else
      PrevDayOrdinal(d);
      SubDays(PrevDay(d), n - 1)
  }

  /** Adding one more day is one more step at the end. */
  lemma {:induction false} AddDaysLast(d: Date, n: nat)
    requires Valid(d)
    ensures AddDays(d, n + 1) == NextDay(AddDays(d, n))
    decreases n
  {
    if n > 0 {
      NextDayOrdinal(d);
      AddDaysLast(NextDay(d), n - 1);
    }
  }

  lemma {:induction false} SubDaysLast(d: Date, n: nat)
    requires Valid(d) && n + 1 <= Ordinal(d)
    ensures Ordinal(SubDays(d, n)) > 0 && SubDays(d, n + 1) == PrevDay(SubDays(d, n))
    decreases n
  {
    if n > 0 {
      PrevDayOrdinal(d);
      SubDaysLast(PrevDay(d), n - 1);
    }
  }

  /** Subtracting undoes adding. */
  lemma {:induction false} SubAddDays(d: Date, n: nat)
    requires Valid(d)
    ensures n <= Ordinal(AddDays(d, n)) && SubDays(AddDays(d, n), n) == d
    decreases n
  {
    if n > 0 {
      var k: nat := n - 1;
      var e := AddDays(d, k);
      SubAddDays(d, k);
      AddDaysLast(d, k);
      PrevNext(e);
      SubDaysFirst(NextDay(e), k);
      assert k + 1 == n;
    }
  }

  /** The first step of `SubDays`, with its argument named. */
  lemma {:induction false} SubDaysFirst(d: Date, k: nat)
    requires Valid(d) && k + 1 <= Ordinal(d)
    ensures Valid(PrevDay(d)) && k <= Ordinal(PrevDay(d)) && SubDays(d, k + 1) == SubDays(PrevDay(d), k)
  {
    PrevDayOrdinal(d);
  }

  /** Adding undoes subtracting. */
  lemma {:induction false} AddSubDays(d: Date, n: nat)
    requires Valid(d) && n <= Ordinal(d)
    ensures AddDays(SubDays(d, n), n) == d
    decreases n
  {
    if n > 0 {
      var k: nat := n - 1;
      var e := SubDays(d, k);
      AddSubDays(d, k);
      SubDaysLast(d, k);
      NextPrev(e);
      AddDaysFirst(PrevDay(e), k);
      assert k + 1 == n;
    }
  }

  /** The first step of `AddDays`, with its argument named. */
  lemma {:induction false} AddDaysFirst(d: Date, k: nat)
    requires Valid(d)
    ensures Valid(NextDay(d)) && AddDays(d, k + 1) == AddDays(NextDay(d), k)
  {
    NextDayOrdinal(d);
  }

  // ------------------------------------------------------------ years

  lemma {:induction false} DaysBeforeYearMonotone(a: nat, b: nat)
    requires 1 <= a <= b
    ensures DaysBeforeYear(a) + 365 * (b - a) <= DaysBeforeYear(b)
    decreases b
  {
    if a < b {
      DaysBeforeYearMonotone(a, b - 1);
    }
  }

  /** A date's ordinal lies inside its year. */
  lemma {:induction false} OrdinalInYear(d: Date)
    requires Valid(d)
    ensures DaysBeforeYear(d.year) <= Ordinal(d) < DaysBeforeYear(d.year + 1)
  {
    DaysBeforeMonthBound(d.year, d.month);
    MonthsMakeYear(d.year);
  }

  lemma {:induction false} DaysBeforeMonthBound(y: nat, m: nat)
    requires 1 <= m <= 12
    ensures DaysBeforeMonth(y, m) + DaysInMonth(y, m) <= DaysBeforeMonth(y, 13)
    decreases 12 - m
  {
    if m < 12 {
      DaysBeforeMonthBound(y, m + 1);
    }
  }

  /** A date no later than another is in the same or an earlier year. */
  lemma {:induction false} YearOrder(a: Date, b: Date)
    requires Valid(a) && Valid(b) && Ordinal(a) <= Ordinal(b)
    ensures a.year <= b.year
  {
    OrdinalInYear(a);
    OrdinalInYear(b);
    if a.year > b.year {
      DaysBeforeYearMonotone(b.year + 1, a.year);
    }
  }

  /** Each day added moves the year on by at most one. */
  lemma {:induction false} AddDaysYear(d: Date, n: nat)
    requires Valid(d)
    ensures d.year <= AddDays(d, n).year <= d.year + n
    decreases n
  {
    if n > 0 {
      NextDayOrdinal(d);
      AddDaysYear(NextDay(d), n - 1);
    }
  }

  lemma {:induction false} DaysBeforeMonthMonotone(y: nat, a: nat, b: nat)
    requires 1 <= a <= b <= 13
    ensures DaysBeforeMonth(y, a) <= DaysBeforeMonth(y, b)
    decreases b
  {
    if a < b {
      DaysBeforeMonthMonotone(y, a, b - 1);
    }
  }

  /** Two valid dates with the same ordinal are the same date. */
  lemma {:induction false} OrdinalInjective(a: Date, b: Date)
    requires Valid(a) && Valid(b) && Ordinal(a) == Ordinal(b)
    ensures a == b
  {
    YearOrder(a, b);
    YearOrder(b, a);
    MonthDayInjective(a.year, a.month, a.day, b.month, b.day);
  }

  /** Within one year, the day count from New Year fixes month and day. */
  lemma {:induction false} MonthDayInjective(y: nat, m1: nat, d1: nat, m2: nat, d2: nat)
    requires 1 <= m1 <= 12 && 1 <= d1 <= DaysInMonth(y, m1)
    requires 1 <= m2 <= 12 && 1 <= d2 <= DaysInMonth(y, m2)
    requires DaysBeforeMonth(y, m1) + d1 == DaysBeforeMonth(y, m2) + d2
    ensures m1 == m2 && d1 == d2
  {
    if m1 < m2 {
      DaysBeforeMonthMonotone(y, m1 + 1, m2);
    } else if m2 < m1 {
      DaysBeforeMonthMonotone(y, m2 + 1, m1);
    }
  }

  // ------------------------------------------------------------ format

  /** `n` written with exactly `k` decimal digits, zero-padded. */
  function Digits(n: nat, k: nat): (s: string)
    requires n < Pow10(k)
    ensures |s| == k && All(s, IsDigit) && NumeralValue(s) == n
    decreases k
  {
    if k == 0 then []
    else
      var init := Digits(n / 10, k - 1);
      NumeralSnoc(init, DigitChar(n % 10));
      init + [DigitChar(n % 10)]
  }

  /** `strftime('%Y-%m-%d')` for years up to 9999, the most `datetime` has. */
  function FormatDate(d: Date): (s: string)
    requires Valid(d) && d.year < 10000
    ensures |s| == 10 && s[4] == '-' && s[7] == '-'
  {
    Digits(d.year, 4) + "-" + Digits(d.month, 2) + "-" + Digits(d.day, 2)
  }

  /** Reading `YYYY-MM-DD` back. */
  function ReadDate(s: string): Option<Date> {
    if |s| == 10 && s[4] == '-' && s[7] == '-'
       && All(s[..4], IsDigit) && All(s[5..7], IsDigit) && All(s[8..], IsDigit)
    then Some(Date(NumeralValue(s[..4]), NumeralValue(s[5..7]), NumeralValue(s[8..])))
    else None
  }

  /** Reading `k` digits and writing the value back with `k` digits gives
      the same digits. */
  lemma {:induction false} DigitsOfNumeral(t: string)
    requires All(t, IsDigit)
    ensures NumeralValue(t) < Pow10(|t|) && Digits(NumeralValue(t), |t|) == t
    decreases |t|
  {
    if t != [] {
      var init, c := t[..|t| - 1], t[|t| - 1];
      assert All(init, IsDigit) by {
        forall k | 0 <= k < |init| ensures IsDigit(init[k]) { assert init[k] == t[k]; }
      }
      assert t == init + [c];
      NumeralSnoc(init, c);
      DigitsOfNumeral(init);
      var n := NumeralValue(t);
      assert n / 10 == NumeralValue(init) && n % 10 == DigitValue(c);
      assert DigitChar(DigitValue(c)) == c;
    }
  }

  /** A text that reads as a valid date is that date's formatted text. */
  lemma {:induction false} FormatReadDate(x: string)
    requires ReadDate(x).Some? && Valid(ReadDate(x).value)
    ensures ReadDate(x).value.year < 10000 && FormatDate(ReadDate(x).value) == x
  {
    var y, m, dd := x[..4], x[5..7], x[8..];
    DigitsOfNumeral(y);
    DigitsOfNumeral(m);
    DigitsOfNumeral(dd);
    assert x == y + "-" + m + "-" + dd;
  }

  /** The formatted text names the date it was made from. */
  lemma {:induction false} ReadFormatDate(d: Date)
    requires Valid(d) && d.year < 10000
    ensures ReadDate(FormatDate(d)) == Some(d)
  {
    var y, m, dd := Digits(d.year, 4), Digits(d.month, 2), Digits(d.day, 2);
    var s := FormatDate(d);
    assert s == y + "-" + m + "-" + dd;
    assert s[..4] == y && s[5..7] == m && s[8..] == dd;
  }
}
