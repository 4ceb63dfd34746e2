/**
 * The daily tracker (DailyGoalTrackerView): the GET shows the goals scheduled
 * on the selected date's weekday with their status; the POST rewrites every
 * owned goal's record for the selected date from the submitted checkboxes.
 */
module Tracker {
  import opened Dates
  import opened IsoDate
  import opened Models
  import opened Tables
  import opened Store
  import opened Wrappers

  /**
   * The selected date: the parsed 'date' parameter, or today when it is
   * absent, empty or not a valid YYYY-MM-DD date.
   */
  function SelectedDate(field: Option<string>, today: Date): (d: Date)
    requires IsValid(today)
    ensures IsValid(d)
    ensures field.Some? && Parse(field.value).Some? ==> d == Parse(field.value).value
    ensures !(field.Some? && Parse(field.value).Some?) ==> d == today
  {
    if field.None? || field.value == "" then today
    else
      match Parse(field.value)
      case Some(d) => d
      case None => today
  }

  /** The date the POST redirects to is the date the GET that follows selects. */
  lemma RedirectKeepsDate(d: Date, today: Date)
    requires IsValid(d) && 1 <= d.year <= 9999 && IsValid(today)
    ensures SelectedDate(Some(Format(d)), today) == d
  {
    ParseFormat(d);
  }

  /** The goals whose flag for the weekday is set, in table order. */
  function ScheduledGoals(goals: seq<Goal>, wd: int): (r: seq<Goal>)
    ensures forall g :: g in r <==> g in goals && g.ScheduledOn(wd)
  {
    if goals == [] then []
    else (if goals[0].ScheduledOn(wd) then [goals[0]] else []) + ScheduledGoals(goals[1..], wd)
  }

  /** The records of the given goals on the date, in table order. */
  function CompletionsOn(recs: seq<GoalCompletion>, ids: set<GoalId>, date: Date): (r: seq<GoalCompletion>)
    ensures forall x :: x in r <==> x in recs && x.goal in ids && x.date == date
  {
    if recs == [] then []
    else
      CompletionsOn(recs[..|recs| - 1], ids, date)
      + (var x := recs[|recs| - 1]; if x.goal in ids && x.date == date then [x] else [])
  }

  /** The completed flag of the last record for (goal, date), if there is one. */
  function Recorded(recs: seq<GoalCompletion>, goal: GoalId, date: Date): Option<bool> {
    if recs == [] then None
    else
      var x := recs[|recs| - 1];
      if x.goal == goal && x.date == date then Some(x.completed)
      else Recorded(recs[..|recs| - 1], goal, date)
  }

  /** Under the (goal, date) uniqueness constraint, Recorded is the one record's flag, or None without one. */
  lemma {:induction false} RecordedIsTheRecord(recs: seq<GoalCompletion>, goal: GoalId, date: Date)
    requires UniqueCompletions(recs)
    ensures forall v :: GoalCompletion(goal, date, v) in recs ==> Recorded(recs, goal, date) == Some(v)
    ensures (forall v :: GoalCompletion(goal, date, v) !in recs) ==> Recorded(recs, goal, date) == None
  {
    if recs != [] {
      var init := recs[..|recs| - 1];
      var x := recs[|recs| - 1];
      assert UniqueCompletions(init);
      RecordedIsTheRecord(init, goal, date);
      assert forall y :: y in recs ==> y in init || y == x;
      if x.goal == goal && x.date == date {
        assert forall j :: 0 <= j < |init| ==> !SameKey(init[j], x);
        assert forall y :: y in init ==> !(y.goal == goal && y.date == date);
      }
    }
  }

  lemma {:induction false} RecordedOfFiltered(recs: seq<GoalCompletion>, ids: set<GoalId>, goal: GoalId, date: Date)
    requires goal in ids
    ensures Recorded(CompletionsOn(recs, ids, date), goal, date) == Recorded(recs, goal, date)
  {
    if recs != [] {
      var init := recs[..|recs| - 1];
      var x := recs[|recs| - 1];
      RecordedOfFiltered(init, ids, goal, date);
      var f := CompletionsOn(recs, ids, date);
      if x.goal in ids && x.date == date {
        assert f[..|f| - 1] == CompletionsOn(init, ids, date);
      } else {
        assert f == CompletionsOn(init, ids, date);
      }
    }
  }

  /**
   * DailyGoalTrackerView.get: the selected date, the owned goals scheduled on
   * its weekday, and goal_status_map, which maps exactly those goals to their
   * record's completed flag, False where the date has no record.
   */
  method TrackerGet(goals: seq<Goal>, recs: seq<GoalCompletion>, user: UserId,
                    dateField: Option<string>, today: Date)
    returns (selected: Date, shown: seq<Goal>, status: map<GoalId, bool>)
    requires IsValid(today)
    ensures selected == SelectedDate(dateField, today)
    ensures forall g :: g in shown <==>
              g in goals && g.user == user && g.ScheduledOn(Weekday(selected))
    ensures status.Keys == GoalIds(shown)
    ensures forall id :: id in status ==> status[id] == Recorded(recs, id, selected).GetOr(false)
  {
    selected := SelectedDate(dateField, today);
    var dayOfWeek := Weekday(selected);
    shown := ScheduledGoals(GoalsOf(goals, user), dayOfWeek);
    var ids := GoalIds(shown);
    var found := CompletionsOn(recs, ids, selected);
    status := StatusMap(found, ids, selected);
    forall id | id in ids ensures status[id] == Recorded(recs, id, selected).GetOr(false) {
      RecordedOfFiltered(recs, ids, id, selected);
    }
  }

  /**
   * goal_status_map: every shown goal starts at False, then each fetched
   * record, in order, writes its completed flag over its goal's entry.
   */
  method StatusMap(found: seq<GoalCompletion>, ids: set<GoalId>, date: Date) returns (status: map<GoalId, bool>)
    requires forall x :: x in found ==> x.goal in ids && x.date == date
    ensures status.Keys == ids
    ensures forall id :: id in ids ==> status[id] == Recorded(found, id, date).GetOr(false)
  {
    status := map id | id in ids :: false;
    var i := 0;
    while i < |found|
      invariant 0 <= i <= |found|
      invariant status.Keys == ids
      invariant forall id :: id in ids ==> status[id] == Recorded(found[..i], id, date).GetOr(false)
    {
      assert found[i] in found;
      assert found[..i + 1][..i] == found[..i];
      status := status[found[i].goal := found[i].completed];
      i := i + 1;
    }
    assert found[..i] == found;
  }

  /**
   * DailyGoalTrackerView.post: one update_or_create per owned goal, in table
   * order, with completed = (its checkbox read 'on'), then a redirect to the
   * tracker for str(selected_date).
   */
  method TrackerPost(db: Database, user: UserId, dateField: Option<string>,
                     form: map<GoalId, string>, today: Date)
    returns (selected: Date, redirectDate: string)
    requires db.Valid() && IsValid(today) && 1 <= today.year <= 9999
    modifies db
    ensures db.Valid()
    ensures selected == SelectedDate(dateField, today)
    ensures db.completions == PostAll(old(db.completions), GoalsOf(old(db.goals), user), selected, form)
    ensures db.users == old(db.users) && db.goals == old(db.goals)
    ensures db.challenges == old(db.challenges) && db.whitelist == old(db.whitelist)
    ensures redirectDate == Format(selected)
  {
    selected := SelectedDate(dateField, today);
    var owned := GoalsOf(db.goals, user);
    var i := 0;
    while i < |owned|
      invariant 0 <= i <= |owned|
      invariant db.Valid()
      invariant db.users == old(db.users) && db.goals == old(db.goals)
      invariant db.challenges == old(db.challenges) && db.whitelist == old(db.whitelist)
      invariant db.completions == PostAll(old(db.completions), owned[..i], selected, form)
    {
      var goal := owned[i];
      assert goal in owned;
      assert goal.id in GoalIds(db.goals);
      PostAllStep(old(db.completions), owned, i, selected, form);
      db.UpsertCompletion(goal.id, selected, Checked(form, goal.id));
      i := i + 1;
    }
    assert owned[..i] == owned;
    redirectDate := Format(selected);
  }

  /**
   * What a tracker POST does to the completions table: every owned goal then
   * has exactly one record for the date, holding its checkbox value (goals
   * not scheduled that weekday included); every other record is untouched;
   * and submitting the same form again changes nothing.
   */
  lemma PostEffect(recs: seq<GoalCompletion>, goals: seq<Goal>, user: UserId, date: Date,
                   form: map<GoalId, string>)
    requires UniqueCompletions(recs)
    ensures var after := PostAll(recs, GoalsOf(goals, user), date, form);
      && UniqueCompletions(after)
      && (forall g :: g in goals && g.user == user ==>
            GoalCompletion(g.id, date, Checked(form, g.id)) in after)
      && Outside(after, OwnedIds(goals, user), date) == Outside(recs, OwnedIds(goals, user), date)
      && PostAll(after, GoalsOf(goals, user), date, form) == after
  {
    var owned := GoalsOf(goals, user);
    PostAllUnique(recs, owned, date, form);
    PostAllSets(recs, owned, date, form);
    PostAllOutside(recs, owned, date, form, OwnedIds(goals, user));
    PostAllIdempotent(recs, owned, date, form);
  }
}
