/**
 * CalendarView.get: the requested (or current) month as a Sunday-first grid
 * of cells, each day of the month listing the user's goals scheduled on that
 * weekday with their completed flag for that day, plus the previous and next
 * month for navigation.
 */
module Calendar {
  import opened Dates
  import opened Models
  import opened Tables
  import opened Tracker
  import opened MonthGrid
  import opened Wrappers

  /** One goal of a calendar cell, with its completion flag. */
  datatype GoalEntry = GoalEntry(goal: Goal, completed: bool)

  /** A calendar cell: a day with its goals, or no day and no goals for a padding cell. */
  datatype Cell = Cell(day: Option<int>, goals: Option<seq<GoalEntry>>)

  datatype Navigation = Navigation(prevYear: int, prevMonth: int, nextYear: int, nextMonth: int)

  datatype CalendarPage = CalendarPage(
    year: int, month: int, monthData: seq<Cell>, monthName: string, nav: Navigation, today: Date)

  /**
   * The calendar module raises IllegalMonthError for a month outside 1..12;
   * the month's completion query raises ValueError for a year that no date
   * can have (outside 1..9999).
   */
  datatype CalendarError = IllegalMonth(month: int) | YearOutOfRange(year: int)

  // ---------------------------------------------------------------- parameters

  /** A missing or zero year or month selects today's year and month; otherwise the parameters are used. */
  function Requested(yearParam: Option<nat>, monthParam: Option<nat>, today: Date): (r: (int, int))
    ensures yearParam.None? || yearParam == Some(0) || monthParam.None? || monthParam == Some(0)
            ==> r == (today.year, today.month)
    ensures yearParam.Some? && yearParam.value != 0 && monthParam.Some? && monthParam.value != 0
            ==> r == (yearParam.value, monthParam.value)
  {
    if yearParam.GetOr(0) == 0 || monthParam.GetOr(0) == 0 then (today.year, today.month)
    else (yearParam.value, monthParam.value)
  }

  /** The months before and after the one shown, wrapping into the adjacent year at January and December. */
  function MonthNavigation(year: int, month: int): Navigation {
    var (pm, py) := if month - 1 == 0 then (12, year - 1) else (month - 1, year);
    var (nm, ny) := if month + 1 == 13 then (1, year + 1) else (month + 1, year);
    Navigation(py, pm, ny, nm)
  }

  /** For a real month both neighbours are real months; the year moves only at January and December. */
  lemma NavigationInRange(year: int, month: int)
    requires 1 <= month <= 12
    ensures var n := MonthNavigation(year, month);
      && 1 <= n.prevMonth <= 12 && 1 <= n.nextMonth <= 12
      && n.prevYear == (if month == 1 then year - 1 else year)
      && n.nextYear == (if month == 12 then year + 1 else year)
  {
  }

  /** The neighbours are the months of the day before the 1st and of the day after the last day. */
  lemma NavigationAdjacent(year: int, month: int)
    requires 1 <= month <= 12
    ensures var n := MonthNavigation(year, month);
      && PrevDay(Date(year, month, 1)) == Date(n.prevYear, n.prevMonth, DaysInMonth(n.prevYear, n.prevMonth))
      && NextDay(Date(year, month, DaysInMonth(year, month))) == Date(n.nextYear, n.nextMonth, 1)
  {
  }

  /** Going back then forward, or forward then back, returns to the month shown. */
  lemma NavigationRoundTrip(year: int, month: int)
    requires 1 <= month <= 12
    ensures var n := MonthNavigation(year, month);
      && MonthNavigation(n.prevYear, n.prevMonth).nextYear == year
      && MonthNavigation(n.prevYear, n.prevMonth).nextMonth == month
      && MonthNavigation(n.nextYear, n.nextMonth).prevYear == year
      && MonthNavigation(n.nextYear, n.nextMonth).prevMonth == month
  {
  }

  /** The month's English name, as the calendar module's default locale gives it. */
  function MonthName(month: int): string
    requires 1 <= month <= 12
  {
    ["January", "February", "March", "April", "May", "June", "July",
     "August", "September", "October", "November", "December"][month - 1]
  }

  // ---------------------------------------------------------------- goals per day

  /** The goals of gs, in order, whose flag for weekday wd is set. */
  function DayGoals(gs: seq<Goal>, wd: int): seq<Goal> {
    if gs == [] then []
    else
      var g := gs[|gs| - 1];
      DayGoals(gs[..|gs| - 1], wd) + (if g.ScheduledOn(wd) then [g] else [])
  }

  /** A day lists exactly the goals scheduled on its weekday. */
  lemma {:induction false} DayGoalsMembers(gs: seq<Goal>, wd: int)
    ensures forall g :: g in DayGoals(gs, wd) <==> g in gs && g.ScheduledOn(wd)
  {
    if gs != [] {
      var init := gs[..|gs| - 1];
      DayGoalsMembers(init, wd);
      assert gs == init + [gs[|gs| - 1]];
    }
  }

  /** Selecting from a concatenation concatenates the selections: goal order is kept. */
  lemma {:induction false} DayGoalsAppend(a: seq<Goal>, b: seq<Goal>, wd: int)
    ensures DayGoals(a + b, wd) == DayGoals(a, wd) + DayGoals(b, wd)
    decreases |b|
  {
    if b != [] {
      var init := b[..|b| - 1];
      assert a + b == (a + init) + [b[|b| - 1]];
      assert (a + b)[..|a + b| - 1] == a + init;
      DayGoalsAppend(a, init, wd);
    } else {
      assert a + b == a;
    }
  }

  /** The keys of day_goal_map: the days 1 .. 31. */
  const DayKeys: set<int> := set d | 1 <= d <= 31

  /** The reference value of day_goal_map[d] for the goals gs. */
  function DayList(gs: seq<Goal>, year: int, month: int, d: int): seq<Goal>
    requires 1 <= month <= 12
  {
    if 1 <= d <= DaysInMonth(year, month) then DayGoals(gs, Weekday(Date(year, month, d))) else []
  }

  /**
   * The nested loops filling day_goal_map: for each goal, for each grid cell
   * of the month whose weekday flag is set, append the goal to that day.
   */
  method DayGoalMap(owned: seq<Goal>, year: int, month: int) returns (dgm: map<int, seq<Goal>>)
    requires 1 <= month <= 12
    ensures dgm.Keys == DayKeys
    ensures forall d :: 1 <= d <= 31 ==> d in dgm && dgm[d] == DayList(owned, year, month, d)
  {
    dgm := map[];
    for d := 1 to 32
      invariant forall e :: e in dgm <==> 1 <= e < d
      invariant forall e :: 1 <= e < d ==> e in dgm && dgm[e] == []
    {
      dgm := dgm[d := []];
    }
    assert dgm.Keys == DayKeys;
    for gi := 0 to |owned|
      invariant dgm.Keys == DayKeys
      invariant forall d :: 1 <= d <= 31 ==> d in dgm && dgm[d] == DayList(owned[..gi], year, month, d)
    {
      var g := owned[gi];
      dgm := AppendToDays(dgm, g, year, month);
      assert owned[..gi + 1] == owned[..gi] + [g];
      assert owned[..gi + 1][..gi] == owned[..gi];
    }
    assert owned[..|owned|] == owned;
  }

  /** The inner loop: goal g is appended to every day of the month that falls on one of its weekdays. */
  method AppendToDays(dgm0: map<int, seq<Goal>>, g: Goal, year: int, month: int) returns (dgm: map<int, seq<Goal>>)
    requires 1 <= month <= 12
    requires forall d :: 1 <= d <= 31 ==> d in dgm0
    ensures dgm.Keys == dgm0.Keys
    ensures forall d :: 1 <= d <= 31 ==> d in dgm
    ensures forall d :: 1 <= d <= 31 ==>
      dgm[d] == dgm0[d] + (if d <= DaysInMonth(year, month) && g.ScheduledOn(Weekday(Date(year, month, d)))
                           then [g] else [])
  {
    var md := MonthDays(year, month);
    var before, n := DaysBefore(year, month), DaysInMonth(year, month);
    dgm := dgm0;
    for ti := 0 to |md|
      invariant dgm.Keys == dgm0.Keys
      invariant forall d :: 1 <= d <= 31 ==> d in dgm
      invariant forall d :: 1 <= d <= 31 ==>
        dgm[d] == dgm0[d] + (if d <= n && before + d - 1 < ti && g.ScheduledOn(Weekday(Date(year, month, d)))
                             then [g] else [])
    {
      var cell := md[ti];
      GridCell(year, month, ti);
      if cell.day != 0 && cell.month == month && g.ScheduledOn(cell.weekday) {
        dgm := dgm[cell.day := dgm[cell.day] + [g]];
      }
    }
  }

  // ---------------------------------------------------------------- completion flags

  /** The records of the user's goals dated in the given year and month, in table order. */
  function MonthRecords(recs: seq<GoalCompletion>, ids: set<GoalId>, year: int, month: int): seq<GoalCompletion> {
    if recs == [] then []
    else
      var x := recs[|recs| - 1];
      MonthRecords(recs[..|recs| - 1], ids, year, month)
      + (if x.goal in ids && x.date.year == year && x.date.month == month then [x] else [])
  }

  /** The completion map keyed by (goal id, day of month): a later record overwrites an earlier one. */
  function CompletionMap(rs: seq<GoalCompletion>): map<(GoalId, int), bool> {
    if rs == [] then map[]
    else
      var x := rs[|rs| - 1];
      CompletionMap(rs[..|rs| - 1])[(x.goal, x.date.day) := x.completed]
  }

  /** A lookup in the completion map, False for a missing key. */
  function Lookup(cm: map<(GoalId, int), bool>, key: (GoalId, int)): bool {
    if key in cm then cm[key] else false
  }

  /** For a goal of the user, the month's map has day d exactly when a record for that date exists, with its flag. */
  lemma {:induction false} CompletionMapLookup(recs: seq<GoalCompletion>, ids: set<GoalId>,
                                               year: int, month: int, gid: GoalId, d: int)
    requires gid in ids
    ensures var cm := CompletionMap(MonthRecords(recs, ids, year, month));
      Lookup(cm, (gid, d)) == Recorded(recs, gid, Date(year, month, d)).GetOr(false)
  {
    if recs != [] {
      var init := recs[..|recs| - 1];
      CompletionMapLookup(init, ids, year, month, gid, d);
      var x := recs[|recs| - 1];
      if x.goal in ids && x.date.year == year && x.date.month == month {
        var rs := MonthRecords(recs, ids, year, month);
        assert rs == MonthRecords(init, ids, year, month) + [x];
        assert rs[..|rs| - 1] == MonthRecords(init, ids, year, month);
        assert x.date == Date(year, month, x.date.day);
        var cm0 := CompletionMap(MonthRecords(init, ids, year, month));
        assert rs[|rs| - 1] == x;
        assert CompletionMap(rs) == cm0[(x.goal, x.date.day) := x.completed];
        if (gid, d) == (x.goal, x.date.day) {
          assert Recorded(recs, gid, Date(year, month, d)) == Some(x.completed);
        } else {
          assert Recorded(recs, gid, Date(year, month, d)) == Recorded(init, gid, Date(year, month, d));
        }
      } else {
        assert MonthRecords(recs, ids, year, month) == MonthRecords(init, ids, year, month) + [];
        assert MonthRecords(recs, ids, year, month) == MonthRecords(init, ids, year, month);
        assert Recorded(recs, gid, Date(year, month, d)) == Recorded(init, gid, Date(year, month, d));
      }
    }
  }

  /** The goals entry of an in-month cell: each goal of the day with its completed flag. */
  function Entries(gs: seq<Goal>, cm: map<(GoalId, int), bool>, d: int): (r: seq<GoalEntry>)
    ensures |r| == |gs|
    ensures forall k :: 0 <= k < |gs| ==> r[k] == GoalEntry(gs[k], Lookup(cm, (gs[k].id, d)))
  {
    seq(|gs|, k requires 0 <= k < |gs| => GoalEntry(gs[k], Lookup(cm, (gs[k].id, d))))
  }

  /** The reference cell list of day d: the user's goals of that weekday, each with its day's record flag or false. */
  function ExpectedEntries(owned: seq<Goal>, recs: seq<GoalCompletion>, year: int, month: int, d: int): seq<GoalEntry>
    requires 1 <= month <= 12
  {
    var gs := DayList(owned, year, month, d);
    seq(|gs|, k requires 0 <= k < |gs| => GoalEntry(gs[k], Recorded(recs, gs[k].id, Date(year, month, d)).GetOr(false)))
  }

  /** An in-month cell lists exactly the user's goals flagged for its weekday, each with its record's value. */
  lemma ExpectedEntriesSpec(goals: seq<Goal>, user: UserId, recs: seq<GoalCompletion>, year: int, month: int, d: int)
    requires 1 <= month <= 12 && 1 <= d <= DaysInMonth(year, month) && UniqueCompletions(recs)
    ensures var es, wd := ExpectedEntries(GoalsOf(goals, user), recs, year, month, d), Weekday(Date(year, month, d));
      && (forall e :: e in es ==> e.goal in goals && e.goal.user == user && e.goal.ScheduledOn(wd))
      && (forall g :: g in goals && g.user == user && g.ScheduledOn(wd) ==> exists e :: e in es && e.goal == g)
      && (forall e, v :: e in es && GoalCompletion(e.goal.id, Date(year, month, d), v) in recs ==> e.completed == v)
      && (forall e :: e in es && (forall v :: GoalCompletion(e.goal.id, Date(year, month, d), v) !in recs) ==> !e.completed)
  {
    var owned := GoalsOf(goals, user);
    var wd := Weekday(Date(year, month, d));
    var gs := DayList(owned, year, month, d);
    var es := ExpectedEntries(owned, recs, year, month, d);
    DayGoalsMembers(owned, wd);
    forall g | g in goals && g.user == user && g.ScheduledOn(wd)
      ensures exists e :: e in es && e.goal == g
    {
      var k :| 0 <= k < |gs| && gs[k] == g;
      assert es[k].goal == g;
    }
    forall e | e in es
      ensures e.goal in owned && e.goal.ScheduledOn(wd)
      ensures forall v :: GoalCompletion(e.goal.id, Date(year, month, d), v) in recs ==> e.completed == v
      ensures (forall v :: GoalCompletion(e.goal.id, Date(year, month, d), v) !in recs) ==> !e.completed
    {
      var k :| 0 <= k < |es| && es[k] == e;
      assert e.goal == gs[k] && gs[k] in gs;
      RecordedIsTheRecord(recs, e.goal.id, Date(year, month, d));
    }
  }

  // ---------------------------------------------------------------- the page

  /** Cell i of month_data as the loop builds it from day_goal_map and completion_map. */
  function BuiltCell(year: int, month: int, dgm: map<int, seq<Goal>>, cm: map<(GoalId, int), bool>, i: int): Cell
    requires 1 <= month <= 12
    requires forall d :: 1 <= d <= 31 ==> d in dgm
  {
    var d := i - DaysBefore(year, month) + 1;
    if InMonth(year, month, i) then Cell(Some(d), Some(Entries(dgm[d], cm, d))) else Cell(None, None)
  }

  /** The reference cell i: padding, or the day with its reference goal list. */
  function ExpectedCell(owned: seq<Goal>, recs: seq<GoalCompletion>, year: int, month: int, i: int): Cell
    requires 1 <= month <= 12
  {
    var d := i - DaysBefore(year, month) + 1;
    if InMonth(year, month, i) then Cell(Some(d), Some(ExpectedEntries(owned, recs, year, month, d)))
    else Cell(None, None)
  }

  /** The loop building month_data: padding cells get None, month cells their day and goal list. */
  method MonthData(year: int, month: int, dgm: map<int, seq<Goal>>, cm: map<(GoalId, int), bool>)
    returns (data: seq<Cell>)
    requires 1 <= month <= 12
    requires forall d :: 1 <= d <= 31 ==> d in dgm
    ensures |data| == |MonthDays(year, month)|
    ensures forall i :: 0 <= i < |data| ==> data[i] == BuiltCell(year, month, dgm, cm, i)
  {
    var md := MonthDays(year, month);
    GridDays(year, month);
    data := [];
    for i := 0 to |md|
      invariant |data| == i
      invariant forall k :: 0 <= k < i ==> data[k] == BuiltCell(year, month, dgm, cm, k)
    {
      var cell := md[i];
      if cell.day == 0 || cell.month != month {
        data := data + [Cell(None, None)];
      } else {
        var d := cell.day;
        var goalsForDay := Entries(dgm[d], cm, d);
        data := data + [Cell(Some(d), Some(goalsForDay))];
      }
    }
  }

  /** Looking each goal of day d up in completion_map gives its record's flag, or false. */
  lemma EntriesAgree(goals: seq<Goal>, user: UserId, recs: seq<GoalCompletion>, year: int, month: int, d: int)
    requires 1 <= month <= 12
    ensures var owned := GoalsOf(goals, user);
      var cm := CompletionMap(MonthRecords(recs, OwnedIds(goals, user), year, month));
      Entries(DayList(owned, year, month, d), cm, d) == ExpectedEntries(owned, recs, year, month, d)
  {
    var owned := GoalsOf(goals, user);
    var ids := OwnedIds(goals, user);
    var gs := DayList(owned, year, month, d);
    var cm := CompletionMap(MonthRecords(recs, ids, year, month));
    DayGoalsMembers(owned, Weekday(Date(year, month, d)));
    forall k | 0 <= k < |gs|
      ensures Lookup(cm, (gs[k].id, d)) == Recorded(recs, gs[k].id, Date(year, month, d)).GetOr(false)
    {
      assert gs[k] in gs;
      CompletionMapLookup(recs, ids, year, month, gs[k].id, d);
    }
  }

  /** Every cell the loop builds is the reference cell, given the day_goal_map the nested loops build. */
  lemma BuiltCellAgrees(goals: seq<Goal>, user: UserId, recs: seq<GoalCompletion>, year: int, month: int,
                        dgm: map<int, seq<Goal>>, i: int)
    requires 1 <= month <= 12
    requires forall d :: 1 <= d <= 31 ==> d in dgm && dgm[d] == DayList(GoalsOf(goals, user), year, month, d)
    ensures var cm := CompletionMap(MonthRecords(recs, OwnedIds(goals, user), year, month));
      BuiltCell(year, month, dgm, cm, i) == ExpectedCell(GoalsOf(goals, user), recs, year, month, i)
  {
    var before, n := DaysBefore(year, month), DaysInMonth(year, month);
    if before <= i < before + n {
      var d := i - before + 1;
      var owned := GoalsOf(goals, user);
      var cm := CompletionMap(MonthRecords(recs, OwnedIds(goals, user), year, month));
      assert dgm[d] == DayList(owned, year, month, d);
      EntriesAgree(goals, user, recs, year, month, d);
      assert BuiltCell(year, month, dgm, cm, i) == Cell(Some(d), Some(Entries(dgm[d], cm, d)));
      assert ExpectedCell(owned, recs, year, month, i) == Cell(Some(d), Some(ExpectedEntries(owned, recs, year, month, d)));
    }
  }

  /**
   * CalendarView.get: an illegal month fails as calendar.monthrange does;
   * otherwise every grid cell of the month carries its day and the
   * reference goal list of that day, every other cell is padding, and the
   * navigation is that of the month shown.
   */
  method CalendarGet(goals: seq<Goal>, recs: seq<GoalCompletion>, user: UserId,
                     yearParam: Option<nat>, monthParam: Option<nat>, today: Date)
    returns (result: Result<CalendarPage, CalendarError>)
    ensures var ym := Requested(yearParam, monthParam, today);
      result.Failure? <==> !(1 <= ym.1 <= 12) || !(1 <= ym.0 <= 9999)
    ensures var ym := Requested(yearParam, monthParam, today);
      result.Failure? ==>
        result.error == (if !(1 <= ym.1 <= 12) then IllegalMonth(ym.1) else YearOutOfRange(ym.0))
    ensures result.Success? ==>
      var ym, page := Requested(yearParam, monthParam, today), result.value;
      var year, month := ym.0, ym.1;
      && 1 <= month <= 12 && 1 <= year <= 9999
      && page.year == year && page.month == month && page.today == today
      && page.nav == MonthNavigation(year, month) && page.monthName == MonthName(month)
      && |page.monthData| == |MonthDays(year, month)|
      && forall i :: 0 <= i < |page.monthData| ==>
        page.monthData[i] == ExpectedCell(GoalsOf(goals, user), recs, year, month, i)
  {
    var ym := Requested(yearParam, monthParam, today);
    var year, month := ym.0, ym.1;
    if !(1 <= month <= 12) {
      return Failure(IllegalMonth(month));
    }
    if !(1 <= year <= 9999) {
      return Failure(YearOutOfRange(year));
    }
    var owned := GoalsOf(goals, user);
    var dgm := DayGoalMap(owned, year, month);
    var cm := CompletionMap(MonthRecords(recs, OwnedIds(goals, user), year, month));
    var data := MonthData(year, month, dgm, cm);
    forall i | 0 <= i < |data|
      ensures data[i] == ExpectedCell(owned, recs, year, month, i)
    {
      BuiltCellAgrees(goals, user, recs, year, month, dgm, i);
    }
    result := Success(CalendarPage(year, month, data, MonthName(month), MonthNavigation(year, month), today));
  }
}
