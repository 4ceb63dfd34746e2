/**
 * Proleptic Gregorian dates with the arithmetic of Python's datetime.date:
 * ordinals (0001-01-01 is day 1), weekday() with 0 = Monday ... 6 = Sunday,
 * comparison as (year, month, day) tuples, and stepping by whole days
 * forward and back.
 */
module Dates {

  datatype Date = Date(year: int, month: int, day: int)

  predicate IsLeapYear(y: int) {
    y % 4 == 0 && (y % 100 != 0 || y % 400 == 0)
  }

  function DaysInMonth(y: int, m: int): (n: int)
    requires 1 <= m <= 12
    ensures 28 <= n <= 31
    ensures n == 29 <==> m == 2 && IsLeapYear(y)
    ensures n == 28 <==> m == 2 && !IsLeapYear(y)
  {
    if m == 2 then (if IsLeapYear(y) then 29 else 28)
    else if m == 4 || m == 6 || m == 9 || m == 11 then 30
    else 31
  }

  function DaysInYear(y: int): int {
    if IsLeapYear(y) then 366 else 365
  }

  /** A date Python's date() constructor accepts, without its year bound 1..9999. */
  predicate IsValid(d: Date) {
    1 <= d.month <= 12 && 1 <= d.day <= DaysInMonth(d.year, d.month)
  }

  /** Days before January 1 of year y (Python's _days_before_year, floor division). */
  function DaysBeforeYear(y: int): int {
    var p := y - 1;
    p * 365 + p / 4 - p / 100 + p / 400
  }

  /** Days of year y before the first of month m (Python's _days_before_month). */
  function DaysBeforeMonth(y: int, m: int): int
    requires 1 <= m <= 12
  {
    var common :=
      match m
      case 1 => 0   case 2 => 31   case 3 => 59   case 4 => 90
      case 5 => 120 case 6 => 151  case 7 => 181  case 8 => 212
      case 9 => 243 case 10 => 273 case 11 => 304 case _ => 334;
    common + (if m > 2 && IsLeapYear(y) then 1 else 0)
  }

  /** The proleptic Gregorian ordinal, January 1 of year 1 being day 1. */
  function Ordinal(d: Date): int
    requires 1 <= d.month <= 12
  {
    DaysBeforeYear(d.year) + DaysBeforeMonth(d.year, d.month) + d.day
  }

  /** The day of the week: 0 = Monday ... 6 = Sunday. */
  function Weekday(d: Date): (w: int)
    requires 1 <= d.month <= 12
    ensures 0 <= w < 7
  {
    (Ordinal(d) + 6) % 7
  }

  /** The numbering's anchor: 0001-01-01 is day 1 and a Monday. */
  lemma FirstDayIsMonday()
    ensures Ordinal(Date(1, 1, 1)) == 1 && Weekday(Date(1, 1, 1)) == 0
  {
    assert DaysBeforeYear(1) == 0;
    var first := Ordinal(Date(1, 1, 1));
    assert first == 1;
    assert first + 6 == 7 * 1;
  }

  /** Whether date a is on or before date b (year, then month, then day). */
  predicate NotAfter(a: Date, b: Date) {
    a.year < b.year
    || (a.year == b.year && (a.month < b.month || (a.month == b.month && a.day <= b.day)))
  }

  /** The month before (year, month), as calendar._prevmonth. */
  function PrevMonthOf(year: int, month: int): (r: (int, int))
    requires 1 <= month <= 12
    ensures 1 <= r.1 <= 12
  {
    if month == 1 then (year - 1, 12) else (year, month - 1)
  }

  /** The month after (year, month), as calendar._nextmonth. */
  function NextMonthOf(year: int, month: int): (r: (int, int))
    requires 1 <= month <= 12
    ensures 1 <= r.1 <= 12
  {
    if month == 12 then (year + 1, 1) else (year, month + 1)
  }

  /** The day before. */
  function PrevDay(d: Date): (r: Date)
    requires IsValid(d)
    ensures IsValid(r)
  {
    if d.day > 1 then Date(d.year, d.month, d.day - 1)
    else
      var (y, m) := PrevMonthOf(d.year, d.month);
      Date(y, m, DaysInMonth(y, m))
  }

  /** The day after. */
  function NextDay(d: Date): (r: Date)
    requires IsValid(d)
    ensures IsValid(r)
  {
    if d.day < DaysInMonth(d.year, d.month) then Date(d.year, d.month, d.day + 1)
    else
      var (y, m) := NextMonthOf(d.year, d.month);
      Date(y, m, 1)
  }

  /** Floor division by n goes up by one exactly at the multiples of n. */
  lemma FloorStep(y: int, n: int)
    requires n > 0
    ensures y / n - (y - 1) / n == (if y % n == 0 then 1 else 0)
  {
    var q, r := y / n, y % n;
    if r == 0 {
      FloorOf(y - 1, n, q - 1, n - 1);
    } else {
      FloorOf(y - 1, n, q, r - 1);
    }
  }

  lemma FloorOf(a: int, n: int, q: int, r: int)
    requires n > 0 && 0 <= r < n && a == n * q + r
    ensures a / n == q
  {
    var q', r' := a / n, a % n;
    assert n * q' + r' == n * q + r;
    if q > q' {
      assert n * (q - q') == n * q - n * q';
      MulAtLeast(n, q - q');
    } else if q < q' {
      assert n * (q' - q) == n * q' - n * q;
      MulAtLeast(n, q' - q);
    }
  }

  lemma {:induction false} MulAtLeast(n: int, d: int)
    requires n > 0 && d >= 1
    ensures n * d >= n
    decreases d
  {
    if d > 1 {
      MulAtLeast(n, d - 1);
      assert n * d == n * (d - 1) + n;
    }
  }

  lemma YearStep(y: int)
    ensures DaysBeforeYear(y + 1) == DaysBeforeYear(y) + DaysInYear(y)
  {
    FloorStep(y, 4);
    FloorStep(y, 100);
    FloorStep(y, 400);
  }

  /** Going back one day gives the date whose ordinal is one less, and an earlier one. */
  lemma PrevDayOrdinal(d: Date)
    requires IsValid(d)
    ensures Ordinal(PrevDay(d)) == Ordinal(d) - 1
    ensures NotAfter(PrevDay(d), d) && PrevDay(d) != d
  {
    if d.day == 1 && d.month == 1 {
      YearStep(d.year - 1);
    }
  }

  /** Going forward one day gives the date whose ordinal is one more, and a later one. */
  lemma NextDayOrdinal(d: Date)
    requires IsValid(d)
    ensures Ordinal(NextDay(d)) == Ordinal(d) + 1
    ensures NotAfter(d, NextDay(d)) && NextDay(d) != d
  {
    if d.day == DaysInMonth(d.year, d.month) && d.month == 12 {
      YearStep(d.year);
    }
  }

  /** The date k days earlier. */
  function SubDays(d: Date, k: nat): (r: Date)
    requires IsValid(d)
    ensures IsValid(r)
    decreases k
  {
    if k == 0 then d else SubDays(PrevDay(d), k - 1)
  }

  /** The date k days later. */
  function AddDays(d: Date, k: nat): (r: Date)
    requires IsValid(d)
    ensures IsValid(r)
    decreases k
  {
    if k == 0 then d else AddDays(NextDay(d), k - 1)
  }

  /** Subtracting k days lowers the ordinal by k and never moves later. */
  lemma {:induction false} SubDaysOrdinal(d: Date, k: nat)
    requires IsValid(d)
    ensures Ordinal(SubDays(d, k)) == Ordinal(d) - k && NotAfter(SubDays(d, k), d)
    decreases k
  {
    if k > 0 {
      PrevDayOrdinal(d);
      SubDaysOrdinal(PrevDay(d), k - 1);
      NotAfterTransitive(SubDays(d, k), PrevDay(d), d);
    }
  }

  /** Adding k days raises the ordinal by k and never moves earlier. */
  lemma {:induction false} AddDaysOrdinal(d: Date, k: nat)
    requires IsValid(d)
    ensures Ordinal(AddDays(d, k)) == Ordinal(d) + k && NotAfter(d, AddDays(d, k))
    decreases k
  {
    if k > 0 {
      NextDayOrdinal(d);
      AddDaysOrdinal(NextDay(d), k - 1);
      NotAfterTransitive(d, NextDay(d), AddDays(d, k));
    }
  }

  lemma NotAfterTransitive(a: Date, b: Date, c: Date)
    requires NotAfter(a, b) && NotAfter(b, c)
    ensures NotAfter(a, c)
  {
  }

  lemma ModSeven(a: int, b: int)
    ensures (a + b) % 7 == (a % 7 + b) % 7
  {
    var q := a / 7;
    assert a == 7 * q + a % 7;
    assert a + b == 7 * q + (a % 7 + b);
  }

  /** Dates k days apart are k apart in the weekday cycle. */
  lemma WeekdayStep(a: Date, b: Date, k: int)
    requires 1 <= a.month <= 12 && 1 <= b.month <= 12 && Ordinal(b) == Ordinal(a) + k
    ensures Weekday(b) == (Weekday(a) + k) % 7
  {
    ModSeven(Ordinal(a) + 6, k);
  }

  /** Adding days that stay inside the month only moves the day of the month. */
  lemma {:induction false} AddDaysWithinMonth(d: Date, k: nat)
    requires IsValid(d) && d.day + k <= DaysInMonth(d.year, d.month)
    ensures AddDays(d, k) == Date(d.year, d.month, d.day + k)
    decreases k
  {
    if k > 0 {
      AddDaysWithinMonth(NextDay(d), k - 1);
    }
  }

  /** Adding days that run past the month's end, but not past the next month's end. */
  lemma {:induction false} AddDaysIntoNextMonth(d: Date, k: nat)
    requires IsValid(d)
    requires DaysInMonth(d.year, d.month) < d.day + k
    requires d.day + k - DaysInMonth(d.year, d.month)
             <= DaysInMonth(NextMonthOf(d.year, d.month).0, NextMonthOf(d.year, d.month).1)
    ensures AddDays(d, k)
            == Date(NextMonthOf(d.year, d.month).0, NextMonthOf(d.year, d.month).1,
                    d.day + k - DaysInMonth(d.year, d.month))
    decreases k
  {
    var n := DaysInMonth(d.year, d.month);
    if d.day == n {
      AddDaysWithinMonth(NextDay(d), k - 1);
    } else {
      AddDaysIntoNextMonth(NextDay(d), k - 1);
    }
  }
}
