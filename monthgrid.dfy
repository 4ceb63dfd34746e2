/**
 * The month grid of Python's calendar.Calendar(firstweekday).itermonthdays4:
 * whole weeks starting on firstweekday, the last days of the previous month
 * before the 1st, the days of the month, then the first days of the next
 * month, each cell tagged with (firstweekday + index) % 7.
 */
module MonthGrid {
  import opened Dates

  /** The view's calendar starts its weeks on Sunday (weekday 6). */
  const SundayFirst := 6

  /** One (year, month, day, weekday) tuple of itermonthdays4. */
  datatype DayTuple = DayTuple(year: int, month: int, day: int, weekday: int)

  /** The padding cells before the 1st: the days from the first weekday back from the 1st. */
  function DaysBefore(year: int, month: int): (n: int)
    requires 1 <= month <= 12
    ensures 0 <= n < 7
  {
    (Weekday(Date(year, month, 1)) - SundayFirst) % 7
  }

  /** The padding cells after the last day, completing the final week. */
  function DaysAfter(year: int, month: int): (n: int)
    requires 1 <= month <= 12
    ensures 0 <= n < 7
  {
    (SundayFirst - Weekday(Date(year, month, 1)) - DaysInMonth(year, month)) % 7
  }

  /** itermonthdays3: the dates of the grid, in order. */
  function GridDates(year: int, month: int): (r: seq<Date>)
    requires 1 <= month <= 12
    ensures |r| == DaysBefore(year, month) + DaysInMonth(year, month) + DaysAfter(year, month)
  {
    var before, after := DaysBefore(year, month), DaysAfter(year, month);
    var (py, pm) := PrevMonthOf(year, month);
    var end := DaysInMonth(py, pm) + 1;
    var (ny, nm) := NextMonthOf(year, month);
    seq(before, i => Date(py, pm, end - before + i))
    + seq(DaysInMonth(year, month), i => Date(year, month, i + 1))
    + seq(after, i => Date(ny, nm, i + 1))
  }

  /** itermonthdays4: the grid dates numbered by enumerate and tagged with a weekday. */
  function MonthDays(year: int, month: int): (r: seq<DayTuple>)
    requires 1 <= month <= 12
    ensures |r| == |GridDates(year, month)|
  {
    var t := GridDates(year, month);
    seq(|t|, i requires 0 <= i < |t| => DayTuple(t[i].year, t[i].month, t[i].day, (SundayFirst + i) % 7))
  }

  /** Whether grid cell i lies in the requested month. */
  predicate InMonth(year: int, month: int, i: int)
    requires 1 <= month <= 12
  {
    DaysBefore(year, month) <= i < DaysBefore(year, month) + DaysInMonth(year, month)
  }

  // ---------------------------------------------------------------- shape

  lemma SumOfPaddings(a: int, n: int)
    ensures ((a - 6) % 7 + n + (6 - a - n) % 7) % 7 == 0
  {
    var b := (a - 6) % 7;
    var c := (6 - a - n) % 7;
    assert a - 6 == 7 * ((a - 6) / 7) + b;
    assert 6 - a - n == 7 * ((6 - a - n) / 7) + c;
    assert b + n + c == 7 * (-((a - 6) / 7) - (6 - a - n) / 7);
  }

  /** The grid is whole weeks (four to six of them) and starts on a Sunday cell. */
  lemma GridShape(year: int, month: int)
    requires 1 <= month <= 12
    ensures |MonthDays(year, month)| % 7 == 0
    ensures 28 <= |MonthDays(year, month)| <= 42
    ensures MonthDays(year, month)[0].weekday == SundayFirst
  {
    SumOfPaddings(Weekday(Date(year, month, 1)), DaysInMonth(year, month));
  }

  /**
   * The cells of the requested month are exactly the cells DaysBefore ..
   * DaysBefore + N - 1, and they carry the days 1 .. N in order; no cell has
   * day 0.
   */
  lemma GridDays(year: int, month: int)
    requires 1 <= month <= 12
    ensures var md, before := MonthDays(year, month), DaysBefore(year, month);
      forall i :: 0 <= i < |md| ==>
        && md[i].day >= 1
        && (md[i].month == month <==> InMonth(year, month, i))
        && (InMonth(year, month, i) ==> md[i].year == year && md[i].day == i - before + 1)
  {
    var md, t := MonthDays(year, month), GridDates(year, month);
    var before, n := DaysBefore(year, month), DaysInMonth(year, month);
    var (py, pm) := PrevMonthOf(year, month);
    var (ny, nm) := NextMonthOf(year, month);
    assert pm != month && nm != month;
    forall i | 0 <= i < |md|
      ensures md[i].day >= 1
      ensures md[i].month == month <==> InMonth(year, month, i)
      ensures InMonth(year, month, i) ==> md[i].year == year && md[i].day == i - before + 1
    {
      assert md[i].year == t[i].year && md[i].month == t[i].month && md[i].day == t[i].day;
      if i < before {
        assert t[i] == Date(py, pm, DaysInMonth(py, pm) + 1 - before + i);
      } else if i < before + n {
        assert t[i] == Date(year, month, i - before + 1);
      } else {
        assert t[i] == Date(ny, nm, i - before - n + 1);
      }
    }
  }

  // ---------------------------------------------------------------- weekdays

  /** The month before, then the month after, is the month itself. */
  lemma NextOfPrev(year: int, month: int)
    requires 1 <= month <= 12
    ensures NextMonthOf(PrevMonthOf(year, month).0, PrevMonthOf(year, month).1) == (year, month)
  {
  }

  /** The leading dates end on the day before the 1st. */
  lemma LeadingOrdinals(year: int, month: int)
    requires 1 <= month <= 12
    ensures var t, first := GridDates(year, month), Date(year, month, 1);
      forall i :: 0 <= i < DaysBefore(year, month) ==>
        IsValid(t[i]) && Ordinal(t[i]) == Ordinal(first) - DaysBefore(year, month) + i
  {
    var t, first := GridDates(year, month), Date(year, month, 1);
    var before := DaysBefore(year, month);
    var (py, pm) := PrevMonthOf(year, month);
    NextOfPrev(year, month);
    forall i | 0 <= i < before
      ensures IsValid(t[i]) && Ordinal(t[i]) == Ordinal(first) - before + i
    {
      assert t[i] == Date(py, pm, DaysInMonth(py, pm) + 1 - before + i);
      DaysBackFromFirst(year, month, before - i);
    }
  }

  /** The date k days before the 1st (k at most 7) is a day of the previous month, k ordinals back. */
  lemma DaysBackFromFirst(year: int, month: int, k: int)
    requires 1 <= month <= 12 && 1 <= k <= 7
    ensures var (py, pm) := PrevMonthOf(year, month);
      var c := Date(py, pm, DaysInMonth(py, pm) + 1 - k);
      IsValid(c) && Ordinal(c) == Ordinal(Date(year, month, 1)) - k
  {
    var (py, pm) := PrevMonthOf(year, month);
    var c := Date(py, pm, DaysInMonth(py, pm) + 1 - k);
    NextOfPrev(year, month);
    AddDaysIntoNextMonth(c, k);
    AddDaysOrdinal(c, k);
  }

  /** The month's own dates follow the 1st day by day. */
  lemma MiddleOrdinals(year: int, month: int)
    requires 1 <= month <= 12
    ensures var t, first := GridDates(year, month), Date(year, month, 1);
      forall i :: DaysBefore(year, month) <= i < DaysBefore(year, month) + DaysInMonth(year, month) ==>
        IsValid(t[i]) && Ordinal(t[i]) == Ordinal(first) - DaysBefore(year, month) + i
  {
    var t, first := GridDates(year, month), Date(year, month, 1);
    var before, n := DaysBefore(year, month), DaysInMonth(year, month);
    forall i | before <= i < before + n
      ensures IsValid(t[i]) && Ordinal(t[i]) == Ordinal(first) - before + i
    {
      assert t[i] == Date(year, month, i - before + 1);
      AddDaysWithinMonth(first, i - before);
      AddDaysOrdinal(first, i - before);
    }
  }

  /** The trailing dates start on the day after the month's last day. */
  lemma TrailingOrdinals(year: int, month: int)
    requires 1 <= month <= 12
    ensures var t, first := GridDates(year, month), Date(year, month, 1);
      forall i :: DaysBefore(year, month) + DaysInMonth(year, month) <= i < |t| ==>
        IsValid(t[i]) && Ordinal(t[i]) == Ordinal(first) - DaysBefore(year, month) + i
  {
    var t, first := GridDates(year, month), Date(year, month, 1);
    var before, n := DaysBefore(year, month), DaysInMonth(year, month);
    var (ny, nm) := NextMonthOf(year, month);
    forall i | before + n <= i < |t|
      ensures IsValid(t[i]) && Ordinal(t[i]) == Ordinal(first) - before + i
    {
      assert t[i] == Date(ny, nm, i - before - n + 1);
      DaysPastEnd(year, month, i - before - n + 1);
    }
  }

  /** The k-th day of the next month (k at most 7) lies N - 1 + k ordinals after the 1st, N the month's length. */
  lemma DaysPastEnd(year: int, month: int, k: int)
    requires 1 <= month <= 12 && 1 <= k <= 7
    ensures var (ny, nm) := NextMonthOf(year, month);
      var c := Date(ny, nm, k);
      IsValid(c) && Ordinal(c) == Ordinal(Date(year, month, 1)) + DaysInMonth(year, month) - 1 + k
  {
    var first := Date(year, month, 1);
    AddDaysIntoNextMonth(first, DaysInMonth(year, month) - 1 + k);
    AddDaysOrdinal(first, DaysInMonth(year, month) - 1 + k);
  }

  lemma ShiftedWeekday(w: int, i: int, b: int)
    requires b == (w - 6) % 7
    ensures (w + (i - b)) % 7 == (6 + i) % 7
  {
    var k := (w - 6) / 7;
    assert w - 6 == 7 * k + b;
    assert w + (i - b) == 7 * k + (6 + i);
    ModSeven(7 * k, 6 + i);
    assert (7 * k) % 7 == 0;
  }

  /** Each cell's weekday tag is the real weekday of its date. */
  lemma GridWeekdays(year: int, month: int)
    requires 1 <= month <= 12
    ensures var md := MonthDays(year, month);
      forall i :: 0 <= i < |md| ==>
        var d := Date(md[i].year, md[i].month, md[i].day);
        IsValid(d) && Weekday(d) == md[i].weekday
  {
    var md, t, first := MonthDays(year, month), GridDates(year, month), Date(year, month, 1);
    var before := DaysBefore(year, month);
    LeadingOrdinals(year, month);
    MiddleOrdinals(year, month);
    TrailingOrdinals(year, month);
    forall i | 0 <= i < |md|
      ensures IsValid(Date(md[i].year, md[i].month, md[i].day))
      ensures Weekday(Date(md[i].year, md[i].month, md[i].day)) == md[i].weekday
    {
      assert Date(md[i].year, md[i].month, md[i].day) == t[i];
      WeekdayStep(first, t[i], i - before);
      ShiftedWeekday(Weekday(first), i, before);
    }
  }

  /** Cell i of the grid: in the month exactly when its month is the requested one, and then the day i - before + 1 with its weekday. */
  lemma GridCell(year: int, month: int, i: int)
    requires 1 <= month <= 12 && 0 <= i < |MonthDays(year, month)|
    ensures var c := MonthDays(year, month)[i];
      && c.day >= 1
      && (c.month == month <==> InMonth(year, month, i))
      && (InMonth(year, month, i) ==>
            c.year == year && c.day == i - DaysBefore(year, month) + 1
            && Weekday(Date(year, month, c.day)) == c.weekday)
  {
    GridDays(year, month);
    GridWeekdays(year, month);
  }
}
