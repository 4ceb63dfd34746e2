/**
 * The dashboard's progress figures: the week-to-date and month-to-date
 * windows, the counts of existing completion records in a window, the
 * completion percentage (0 when nothing was tracked) and its display value
 * rounded to one decimal.
 */
module Progress {
  import opened Dates
  import opened Models
  import opened Tables
  import opened Wrappers

  // ---------------------------------------------------------------- windows

  /** The week's length after its Monday, and the jump that always lands in the next month. */
  const WeekSpan: nat := 6
  const MonthJump: nat := 32

  /** The Monday of today's week. */
  function WeekStart(today: Date): Date
    requires IsValid(today)
  {
    SubDays(today, Weekday(today))
  }

  /** The Sunday six days after the week's Monday. */
  function WeekEnd(today: Date): Date
    requires IsValid(today)
  {
    AddDays(WeekStart(today), WeekSpan)
  }

  /** The 1st of today's month. */
  function MonthStart(today: Date): Date {
    Date(today.year, today.month, 1)
  }

  /** The last day of today's month: 32 days past the 1st, back to that month's 1st, then one day back. */
  function MonthEnd(today: Date): Date
    requires IsValid(today)
  {
    var later := AddDays(MonthStart(today), MonthJump);
    PrevDay(Date(later.year, later.month, 1))
  }

  /** The week window starts on the Monday on or before today, at most six days earlier. */
  lemma WeekStartBounds(today: Date)
    requires IsValid(today)
    ensures IsValid(WeekStart(today)) && Weekday(WeekStart(today)) == 0
    ensures 0 <= Ordinal(today) - Ordinal(WeekStart(today)) <= 6
    ensures NotAfter(WeekStart(today), today)
  {
    var w := Weekday(today);
    var start := SubDays(today, w);
    SubDaysOrdinal(today, w);
    WeekdayStep(today, start, -w);
    assert (w - w) % 7 == 0;
  }

  /** end_of_week is the Sunday six days after start_of_week. */
  lemma WeekEndBounds(today: Date)
    requires IsValid(today)
    ensures Weekday(WeekEnd(today)) == 6 && Ordinal(WeekEnd(today)) == Ordinal(WeekStart(today)) + 6
  {
    WeekStartBounds(today);
    var start := WeekStart(today);
    AddDaysOrdinal(start, WeekSpan);
    SundayAfterMonday(start, AddDays(start, WeekSpan));
  }

  lemma SundayAfterMonday(monday: Date, later: Date)
    requires IsValid(monday) && IsValid(later) && Weekday(monday) == 0
    requires Ordinal(later) == Ordinal(monday) + WeekSpan
    ensures Weekday(later) == 6
  {
    WeekdayStep(monday, later, WeekSpan);
  }

  /** The month window starts on the 1st of today's month; end_of_month is that month's last day. */
  lemma MonthBounds(today: Date)
    requires IsValid(today)
    ensures IsValid(MonthStart(today)) && MonthStart(today).day == 1
    ensures MonthStart(today).year == today.year && MonthStart(today).month == today.month
    ensures NotAfter(MonthStart(today), today)
    ensures MonthEnd(today) == Date(today.year, today.month, DaysInMonth(today.year, today.month))
  {
    var start := MonthStart(today);
    var (ny, nm) := NextMonthOf(today.year, today.month);
    AddDaysIntoNextMonth(start, MonthJump);
    assert AddDays(start, MonthJump) == Date(ny, nm, 33 - DaysInMonth(today.year, today.month));
  }

  // ---------------------------------------------------------------- counts

  /** On or after lo and, when there is an upper bound, on or before hi. */
  predicate InWindow(d: Date, lo: Date, hi: Option<Date>) {
    NotAfter(lo, d) && (hi.None? || NotAfter(d, hi.value))
  }

  /**
   * The number of records of the goals ids inside the window; the numerator
   * counts only the completed ones among the denominator's records.
   */
  function Count(recs: seq<GoalCompletion>, ids: set<GoalId>, lo: Date, hi: Option<Date>,
                 onlyCompleted: bool): nat
  {
    if recs == [] then 0
    else
      var x := recs[|recs| - 1];
      Count(recs[..|recs| - 1], ids, lo, hi, onlyCompleted)
      + (if x.goal in ids && InWindow(x.date, lo, hi) && (x.completed || !onlyCompleted) then 1 else 0)
  }

  /** Completed records in a window never outnumber the window's records. */
  lemma {:induction false} CompletedAtMostTracked(recs: seq<GoalCompletion>, ids: set<GoalId>,
                                                  lo: Date, hi: Option<Date>)
    ensures Count(recs, ids, lo, hi, true) <= Count(recs, ids, lo, hi, false)
  {
    if recs != [] {
      CompletedAtMostTracked(recs[..|recs| - 1], ids, lo, hi);
    }
  }

  /** Every counted record is one of the window's records: the count is at most the table's size. */
  lemma {:induction false} CountAtMostRecords(recs: seq<GoalCompletion>, ids: set<GoalId>,
                                              lo: Date, hi: Option<Date>, onlyCompleted: bool)
    ensures Count(recs, ids, lo, hi, onlyCompleted) <= |recs|
    ensures (forall x :: x in recs ==> !(x.goal in ids && InWindow(x.date, lo, hi)))
            ==> Count(recs, ids, lo, hi, onlyCompleted) == 0
  {
    if recs != [] {
      assert forall x :: x in recs[..|recs| - 1] ==> x in recs;
      CountAtMostRecords(recs[..|recs| - 1], ids, lo, hi, onlyCompleted);
    }
  }

  /**
   * A record dated after today never changes a count bounded by today;
   * without an upper bound (the leaderboard's window) a matching record
   * dated after today is counted like any other.
   */
  lemma CountLaterRecord(recs: seq<GoalCompletion>, ids: set<GoalId>, lo: Date, today: Date,
                         x: GoalCompletion, onlyCompleted: bool)
    requires !NotAfter(x.date, today)
    ensures Count(recs + [x], ids, lo, Some(today), onlyCompleted) == Count(recs, ids, lo, Some(today), onlyCompleted)
    ensures x.goal in ids && NotAfter(lo, x.date) && (x.completed || !onlyCompleted)
            ==> Count(recs + [x], ids, lo, None, onlyCompleted) == Count(recs, ids, lo, None, onlyCompleted) + 1
  {
    assert (recs + [x])[..|recs|] == recs;
  }

  // ---------------------------------------------------------------- percentages

  /** The completed share as a percentage, 0 without records, in exact arithmetic. */
  function Percentage(done: nat, total: nat): real {
    if total == 0 then 0.0 else (done as real / total as real) * 100.0
  }

  lemma PercentageBounds(done: nat, total: nat)
    requires done <= total
    ensures 0.0 <= Percentage(done, total) <= 100.0
    ensures total == 0 ==> Percentage(done, total) == 0.0
  {
    if total > 0 {
      var q := done as real / total as real;
      assert q * total as real == done as real;
      assert q <= 1.0;
    }
  }

  /**
   * round(percentage, 1) as a number of tenths: 1000 * done / total rounded
   * to the nearest integer, ties to even; 0 when total is 0.
   */
  function RoundTenths(done: nat, total: nat): int {
    if total == 0 then 0
    else
      var q, r := (1000 * done) / total, (1000 * done) % total;
      if 2 * r < total || (2 * r == total && q % 2 == 0) then q else q + 1
  }

  /** Rounding a / b at the remainder: the result is within half of b, a tie goes to the even side. */
  lemma RoundHalfEven(a: int, b: int, q: int, r: int, t: int)
    requires b > 0 && a == q * b + r && 0 <= r < b
    requires t == if 2 * r < b || (2 * r == b && q % 2 == 0) then q else q + 1
    ensures -b <= 2 * (t * b - a) <= b
    ensures (2 * (t * b - a) == b || 2 * (t * b - a) == -b) ==> t % 2 == 0
  {
    if t == q {
      assert t * b - a == -r;
    } else {
      assert t * b == q * b + b;
      assert t * b - a == b - r;
    }
  }

  lemma PositiveFactor(x: int, y: int)
    requires y > 0 && x * y > 0
    ensures x > 0
  {
  }

  /** A quotient of at most 1000 * b by b rounds to at most 1000. */
  lemma RoundWithinRange(a: int, b: int, q: int, r: int, t: int)
    requires b > 0 && 0 <= a <= 1000 * b && a == q * b + r && 0 <= r < b
    requires t == if 2 * r < b || (2 * r == b && q % 2 == 0) then q else q + 1
    ensures 0 <= t <= 1000
  {
    assert (q + 1) * b == a + (b - r);
    PositiveFactor(q + 1, b);
    if t == q {
      assert (1001 - q) * b == 1000 * b - a + (b + r);
      PositiveFactor(1001 - q, b);
    } else {
      assert (1000 - q) * b == 1000 * b - a + r;
      PositiveFactor(1000 - q, b);
    }
  }

  /**
   * The rounded figure is the nearest number of tenths to the exact
   * percentage, an exact half goes to the even neighbour, the figure is 0
   * without records, and it lies within 0..1000 tenths (0% .. 100%).
   */
  lemma RoundTenthsSpec(done: nat, total: nat)
    ensures total == 0 ==> RoundTenths(done, total) == 0
    ensures total > 0 ==> -(total as int) <= 2 * (RoundTenths(done, total) * total - 1000 * done) <= total
    ensures total > 0 && (2 * (RoundTenths(done, total) * total - 1000 * done) == total
                          || 2 * (RoundTenths(done, total) * total - 1000 * done) == -(total as int))
            ==> RoundTenths(done, total) % 2 == 0
    ensures done <= total ==> 0 <= RoundTenths(done, total) <= 1000
  {
    if total > 0 {
      var a := 1000 * done;
      var q, r := a / total, a % total;
      var t := RoundTenths(done, total);
      RoundHalfEven(a, total, q, r, t);
      if done <= total {
        RoundWithinRange(a, total, q, r, t);
      }
    }
  }

  lemma RealFactorBound(x: real, n: real)
    requires n > 0.0 && -n <= 20.0 * (x * n) <= n
    ensures -0.05 <= x <= 0.05
  {
    assert (20.0 * x - 1.0) * n == 20.0 * (x * n) - n;
    assert (20.0 * x + 1.0) * n == 20.0 * (x * n) + n;
  }

  lemma PercentageTimesTotal(done: nat, total: nat)
    requires total > 0
    ensures Percentage(done, total) * total as real == 100.0 * done as real
  {
    var q := done as real / total as real;
    assert q * total as real == done as real;
  }

  /** A figure t / 10 whose error 2 * (t * n - 1000 * done) is within n is within 0.05 of pct. */
  lemma TenthsNear(t: real, done: real, n: real, pct: real)
    requires n > 0.0 && pct * n == 100.0 * done
    requires -n <= 2.0 * (t * n - 1000.0 * done) <= n
    ensures -0.05 <= t / 10.0 - pct <= 0.05
  {
    var x := t / 10.0 - pct;
    assert x * n == (t / 10.0) * n - pct * n;
    assert (t / 10.0) * n == (t * n) / 10.0;
    assert 20.0 * (x * n) == 2.0 * (t * n - 1000.0 * done);
    RealFactorBound(x, n);
  }

  lemma ProductAsReal(a: int, b: int)
    ensures (a * b) as real == a as real * b as real
  {
  }

  lemma NearFromError(t: int, done: int, total: int, pct: real)
    requires total > 0 && pct * total as real == 100.0 * done as real
    requires -total <= 2 * (t * total - 1000 * done) <= total
    ensures -0.05 <= t as real / 10.0 - pct <= 0.05
  {
    ProductAsReal(t, total);
    var e := 2 * (t * total - 1000 * done);
    assert e as real == 2.0 * (t as real * total as real - 1000.0 * done as real);
    TenthsNear(t as real, done as real, total as real, pct);
  }

  /** The displayed tenths are within half a tenth of the exact percentage. */
  lemma RoundTenthsNearPercentage(done: nat, total: nat)
    requires total > 0
    ensures -0.05 <= RoundTenths(done, total) as real / 10.0 - Percentage(done, total) <= 0.05
  {
    RoundTenthsSpec(done, total);
    PercentageTimesTotal(done, total);
    NearFromError(RoundTenths(done, total), done, total, Percentage(done, total));
  }

  // ---------------------------------------------------------------- the dashboard

  /** One row of the dashboard's per-goal table. */
  datatype GoalStat = GoalStat(
    goalName: string,
    monthSet: nat, monthDone: nat, monthTenths: int,
    weekSet: nat, weekDone: nat, weekTenths: int)

  datatype DashboardPage = DashboardPage(
    today: Date, monthlyTenths: int, weeklyTenths: int, goalStats: seq<GoalStat>)

  /** A goal's month-to-date and week-to-date record counts and percentages. */
  function StatOf(g: Goal, recs: seq<GoalCompletion>, today: Date): (s: GoalStat)
    requires IsValid(today)
    ensures s.goalName == g.name
    ensures s.monthSet == Count(recs, {g.id}, MonthStart(today), Some(today), false)
    ensures s.weekSet == Count(recs, {g.id}, WeekStart(today), Some(today), false)
    ensures s.monthDone == Count(recs, {g.id}, MonthStart(today), Some(today), true)
    ensures s.weekDone == Count(recs, {g.id}, WeekStart(today), Some(today), true)
    ensures s.monthDone <= s.monthSet && s.weekDone <= s.weekSet
    ensures 0 <= s.monthTenths <= 1000 && 0 <= s.weekTenths <= 1000
    ensures s.monthTenths == RoundTenths(s.monthDone, s.monthSet)
    ensures s.weekTenths == RoundTenths(s.weekDone, s.weekSet)
  {
    var som, sow := MonthStart(today), WeekStart(today);
    var mSet, mDone := Count(recs, {g.id}, som, Some(today), false), Count(recs, {g.id}, som, Some(today), true);
    var wSet, wDone := Count(recs, {g.id}, sow, Some(today), false), Count(recs, {g.id}, sow, Some(today), true);
    CompletedAtMostTracked(recs, {g.id}, som, Some(today));
    CompletedAtMostTracked(recs, {g.id}, sow, Some(today));
    RoundTenthsSpec(mDone, mSet);
    RoundTenthsSpec(wDone, wSet);
    GoalStat(g.name, mSet, mDone, RoundTenths(mDone, mSet), wSet, wDone, RoundTenths(wDone, wSet))
  }

  /**
   * dashboard: the overall month-to-date and week-to-date figures over the
   * user's goals, and one statistics row per goal, in table order.
   */
  method Dashboard(goals: seq<Goal>, recs: seq<GoalCompletion>, user: UserId, today: Date)
    returns (page: DashboardPage)
    requires IsValid(today)
    ensures page.today == today
    ensures var ids, som, sow := OwnedIds(goals, user), MonthStart(today), WeekStart(today);
      && page.monthlyTenths == RoundTenths(Count(recs, ids, som, Some(today), true), Count(recs, ids, som, Some(today), false))
      && page.weeklyTenths == RoundTenths(Count(recs, ids, sow, Some(today), true), Count(recs, ids, sow, Some(today), false))
    ensures 0 <= page.monthlyTenths <= 1000 && 0 <= page.weeklyTenths <= 1000
    ensures |page.goalStats| == |GoalsOf(goals, user)|
    ensures forall i :: 0 <= i < |page.goalStats| ==> page.goalStats[i] == StatOf(GoalsOf(goals, user)[i], recs, today)
  {
    var sow := WeekStart(today);
    var som := MonthStart(today);
    var owned := GoalsOf(goals, user);
    var ids := OwnedIds(goals, user);

    var monthlyDone := Count(recs, ids, som, Some(today), true);
    var monthlySet := Count(recs, ids, som, Some(today), false);
    var weeklyDone := Count(recs, ids, sow, Some(today), true);
    var weeklySet := Count(recs, ids, sow, Some(today), false);
    CompletedAtMostTracked(recs, ids, som, Some(today));
    CompletedAtMostTracked(recs, ids, sow, Some(today));
    RoundTenthsSpec(monthlyDone, monthlySet);
    RoundTenthsSpec(weeklyDone, weeklySet);

    var stats := GoalStats(owned, recs, today);
    page := DashboardPage(today, RoundTenths(monthlyDone, monthlySet), RoundTenths(weeklyDone, weeklySet), stats);
  }

  /** The per-goal loop of the dashboard: one statistics row per goal, in order. */
  method GoalStats(owned: seq<Goal>, recs: seq<GoalCompletion>, today: Date) returns (stats: seq<GoalStat>)
    requires IsValid(today)
    ensures |stats| == |owned|
    ensures forall i :: 0 <= i < |owned| ==> stats[i] == StatOf(owned[i], recs, today)
  {
    var som, sow := MonthStart(today), WeekStart(today);
    stats := [];
    for i := 0 to |owned|
      invariant |stats| == i
      invariant forall k :: 0 <= k < i ==> stats[k] == StatOf(owned[k], recs, today)
    {
      var g := owned[i];
      var mDone := Count(recs, {g.id}, som, Some(today), true);
      var mSet := Count(recs, {g.id}, som, Some(today), false);
      var mPct := RoundTenths(mDone, mSet);
      var wDone := Count(recs, {g.id}, sow, Some(today), true);
      var wSet := Count(recs, {g.id}, sow, Some(today), false);
      var wPct := RoundTenths(wDone, wSet);
      var row := GoalStat(g.name, mSet, mDone, mPct, wSet, wDone, wPct);
      assert row == StatOf(g, recs, today);
      stats := stats + [row];
    }
  }
}
