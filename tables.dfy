/**
 * The tables as sequences of records, the schema's constraints over them
 * (primary keys, unique_together on (goal, date), unique email, foreign keys),
 * update_or_create on a key, and the ON DELETE CASCADE effects.
 */
module Tables {
  import opened Dates
  import opened Models

  function GoalIds(goals: seq<Goal>): set<GoalId> {
    set g | g in goals :: g.id
  }

  /** The goals owned by u, in table order. */
  function GoalsOf(goals: seq<Goal>, u: UserId): (r: seq<Goal>)
    ensures |r| <= |goals|
    ensures forall g :: g in r <==> g in goals && g.user == u
  {
    if goals == [] then []
    else (if goals[0].user == u then [goals[0]] else []) + GoalsOf(goals[1..], u)
  }

  /** The challenges owned by u, in table order. */
  function ChallengesOf(chs: seq<Challenge>, u: UserId): (r: seq<Challenge>)
    ensures |r| <= |chs|
    ensures forall c :: c in r <==> c in chs && c.user == u
  {
    if chs == [] then []
    else (if chs[0].user == u then [chs[0]] else []) + ChallengesOf(chs[1..], u)
  }

  // ---------------------------------------------------------------- constraints

  predicate DistinctUsers(users: seq<UserId>) {
    forall i, j :: 0 <= i < j < |users| ==> users[i] != users[j]
  }

  predicate DistinctGoalIds(goals: seq<Goal>) {
    forall i, j :: 0 <= i < j < |goals| ==> goals[i].id != goals[j].id
  }

  predicate DistinctChallengeIds(chs: seq<Challenge>) {
    forall i, j :: 0 <= i < j < |chs| ==> chs[i].id != chs[j].id
  }

  predicate SameKey(a: GoalCompletion, b: GoalCompletion) {
    a.goal == b.goal && a.date == b.date
  }

  /** The uniqueness constraint on (goal, date). */
  predicate UniqueCompletions(recs: seq<GoalCompletion>) {
    forall i, j :: 0 <= i < j < |recs| ==> !SameKey(recs[i], recs[j])
  }

  /** The uniqueness constraint on email. */
  predicate UniqueEmails(rows: seq<WhitelistedEmail>) {
    forall i, j :: 0 <= i < j < |rows| ==> rows[i].email != rows[j].email
  }

  /** Every constraint of the schema, foreign keys included. */
  predicate Consistent(users: seq<UserId>, goals: seq<Goal>, recs: seq<GoalCompletion>,
                       chs: seq<Challenge>, rows: seq<WhitelistedEmail>)
  {
    && DistinctUsers(users)
    && DistinctGoalIds(goals)
    && (forall g :: g in goals ==> g.user in users)
    && UniqueCompletions(recs)
    && (forall r :: r in recs ==> r.goal in GoalIds(goals) && IsValid(r.date))
    && DistinctChallengeIds(chs)
    && (forall c :: c in chs ==> c.user in users && c.goals <= GoalIds(goals))
    && (forall c :: c in chs ==> IsValid(c.startDate) && IsValid(c.endDate))
    && UniqueEmails(rows)
  }

  // ---------------------------------------------------------------- update_or_create on (goal, date)

  /**
   * The update-or-create keyed by (goal, date): the first record with the key
   * gets the new completed flag; without one, a record is appended.
   */
  function Upsert(recs: seq<GoalCompletion>, goal: GoalId, date: Date, completed: bool)
    : (r: seq<GoalCompletion>)
    ensures forall x :: x in r ==> x in recs || x == GoalCompletion(goal, date, completed)
    ensures GoalCompletion(goal, date, completed) in r
    ensures forall x :: x in recs && !(x.goal == goal && x.date == date) ==> x in r
  {
    if recs == [] then [GoalCompletion(goal, date, completed)]
    else if recs[0].goal == goal && recs[0].date == date then [recs[0].(completed := completed)] + recs[1..]
    else [recs[0]] + Upsert(recs[1..], goal, date, completed)
  }

  /** The records a write to key (goal in ids, date) must leave alone. */
  function Outside(recs: seq<GoalCompletion>, ids: set<GoalId>, date: Date): (r: seq<GoalCompletion>)
    ensures forall x :: x in r <==> x in recs && !(x.goal in ids && x.date == date)
  {
    if recs == [] then []
    else (if recs[0].goal in ids && recs[0].date == date then [] else [recs[0]]) + Outside(recs[1..], ids, date)
  }

  /** The position of the first record with key (goal, date), or |recs| without one. */
  function KeyIndex(recs: seq<GoalCompletion>, goal: GoalId, date: Date): (i: nat)
    ensures i <= |recs|
    ensures forall j :: 0 <= j < i ==> !(recs[j].goal == goal && recs[j].date == date)
    ensures i < |recs| ==> recs[i].goal == goal && recs[i].date == date
  {
    if recs == [] || (recs[0].goal == goal && recs[0].date == date) then 0
    else
      var k := KeyIndex(recs[1..], goal, date);
      assert forall j :: 1 <= j < k + 1 ==> recs[j] == recs[1..][j - 1];
      k + 1
  }

  /** At most one record per (goal, date) survives an upsert. */
  lemma UpsertUnique(recs: seq<GoalCompletion>, goal: GoalId, date: Date, completed: bool)
    requires UniqueCompletions(recs)
    ensures UniqueCompletions(Upsert(recs, goal, date, completed))
  {
    var i := KeyIndex(recs, goal, date);
    UpsertAt(recs, i, goal, date, completed);
    var r := Upsert(recs, goal, date, completed);
    if i < |recs| {
      forall a, b | 0 <= a < b < |r| ensures !SameKey(r[a], r[b]) {
        assert r[a].goal == recs[a].goal && r[a].date == recs[a].date;
        assert r[b].goal == recs[b].goal && r[b].date == recs[b].date;
      }
    } else {
      forall a, b | 0 <= a < b < |r| ensures !SameKey(r[a], r[b]) {
        if b == |recs| {
          assert !(recs[a].goal == goal && recs[a].date == date);
        }
      }
    }
  }

  /** An upsert changes nothing but the records with its key. */
  lemma {:induction false} UpsertOutside(recs: seq<GoalCompletion>, goal: GoalId, date: Date,
                                         completed: bool, ids: set<GoalId>)
    requires goal in ids
    ensures Outside(Upsert(recs, goal, date, completed), ids, date) == Outside(recs, ids, date)
  {
    if recs != [] && !(recs[0].goal == goal && recs[0].date == date) {
      UpsertOutside(recs[1..], goal, date, completed, ids);
      var r := Upsert(recs, goal, date, completed);
      assert r[1..] == Upsert(recs[1..], goal, date, completed);
    } else if recs != [] {
      var r := Upsert(recs, goal, date, completed);
      assert r[1..] == recs[1..];
    }
  }

  /** Repeating an upsert with the same value changes nothing. */
  lemma {:induction false} UpsertIdempotent(recs: seq<GoalCompletion>, goal: GoalId, date: Date, completed: bool)
    ensures Upsert(Upsert(recs, goal, date, completed), goal, date, completed)
            == Upsert(recs, goal, date, completed)
  {
    if recs != [] && !(recs[0].goal == goal && recs[0].date == date) {
      UpsertIdempotent(recs[1..], goal, date, completed);
      var r := Upsert(recs, goal, date, completed);
      assert r[1..] == Upsert(recs[1..], goal, date, completed);
    }
  }

  /** An upsert that finds its key already holding the value is a no-op. */
  lemma UpsertPresent(recs: seq<GoalCompletion>, goal: GoalId, date: Date, completed: bool)
    requires UniqueCompletions(recs) && GoalCompletion(goal, date, completed) in recs
    ensures Upsert(recs, goal, date, completed) == recs
  {
    var j :| 0 <= j < |recs| && recs[j] == GoalCompletion(goal, date, completed);
    assert forall k :: 0 <= k < j ==> !SameKey(recs[k], recs[j]);
    UpsertAt(recs, j, goal, date, completed);
    assert recs[j := recs[j].(completed := completed)] == recs;
  }

  // ---------------------------------------------------------------- sequence steps

  lemma ConsUpdate<T>(s: seq<T>, i: nat, v: T)
    requires 0 < i < |s|
    ensures [s[0]] + s[1..][i - 1 := v] == s[i := v]
  {
  }

  lemma ConsAppend<T>(s: seq<T>, v: T)
    requires s != []
    ensures [s[0]] + (s[1..] + [v]) == s + [v]
  {
  }

  lemma HeadUpdate<T>(s: seq<T>, v: T)
    requires s != []
    ensures [v] + s[1..] == s[0 := v]
  {
  }

  /** The upsert rewrites the first record with the key in place, or appends one when there is none. */
  lemma {:induction false} UpsertAt(recs: seq<GoalCompletion>, i: nat, goal: GoalId, date: Date, completed: bool)
    requires i <= |recs|
    requires forall j :: 0 <= j < i ==> !(recs[j].goal == goal && recs[j].date == date)
    requires i < |recs| ==> recs[i].goal == goal && recs[i].date == date
    ensures Upsert(recs, goal, date, completed)
            == if i < |recs| then recs[i := recs[i].(completed := completed)]
               else recs + [GoalCompletion(goal, date, completed)]
  {
    if i > 0 {
      var tail := recs[1..];
      UpsertAt(tail, i - 1, goal, date, completed);
      assert Upsert(recs, goal, date, completed) == [recs[0]] + Upsert(tail, goal, date, completed);
      if i < |recs| {
        ConsUpdate(recs, i, recs[i].(completed := completed));
      } else {
        ConsAppend(recs, GoalCompletion(goal, date, completed));
      }
    } else if recs != [] {
      HeadUpdate(recs, recs[0].(completed := completed));
    }
  }

  /** An upsert on an existing goal and a valid date keeps the schema consistent. */
  lemma UpsertConsistent(users: seq<UserId>, goals: seq<Goal>, recs: seq<GoalCompletion>,
                         chs: seq<Challenge>, rows: seq<WhitelistedEmail>,
                         goal: GoalId, date: Date, completed: bool)
    requires Consistent(users, goals, recs, chs, rows) && goal in GoalIds(goals) && IsValid(date)
    ensures Consistent(users, goals, Upsert(recs, goal, date, completed), chs, rows)
  {
    UpsertUnique(recs, goal, date, completed);
  }

  // ---------------------------------------------------------------- the tracker's batch of upserts

  /** The value a submitted form gives a goal: its checkbox field reads 'on' (an absent field reads 'off'). */
  predicate Checked(form: map<GoalId, string>, goal: GoalId) {
    goal in form && form[goal] == "on"
  }

  /** One upsert per goal, in the goals' order, each setting the goal's checkbox value for the date. */
  function PostAll(recs: seq<GoalCompletion>, goals: seq<Goal>, date: Date, form: map<GoalId, string>)
    : seq<GoalCompletion>
  {
    if goals == [] then recs
    else
      var g := goals[|goals| - 1];
      Upsert(PostAll(recs, goals[..|goals| - 1], date, form), g.id, date, Checked(form, g.id))
  }

  /** One more goal's update_or_create on top of the earlier ones. */
  lemma PostAllStep(recs: seq<GoalCompletion>, goals: seq<Goal>, i: nat, date: Date, form: map<GoalId, string>)
    requires i < |goals|
    ensures PostAll(recs, goals[..i + 1], date, form)
            == Upsert(PostAll(recs, goals[..i], date, form), goals[i].id, date, Checked(form, goals[i].id))
  {
    assert goals[..i + 1][..i] == goals[..i];
  }

  lemma {:induction false} PostAllUnique(recs: seq<GoalCompletion>, goals: seq<Goal>, date: Date,
                                         form: map<GoalId, string>)
    requires UniqueCompletions(recs)
    ensures UniqueCompletions(PostAll(recs, goals, date, form))
  {
    if goals != [] {
      var g := goals[|goals| - 1];
      PostAllUnique(recs, goals[..|goals| - 1], date, form);
      UpsertUnique(PostAll(recs, goals[..|goals| - 1], date, form), g.id, date, Checked(form, g.id));
    }
  }

  /** After the batch every goal has the record (goal, date, its checkbox value). */
  lemma {:induction false} PostAllSets(recs: seq<GoalCompletion>, goals: seq<Goal>, date: Date,
                                       form: map<GoalId, string>)
    ensures forall g :: g in goals ==> GoalCompletion(g.id, date, Checked(form, g.id)) in PostAll(recs, goals, date, form)
  {
    if goals != [] {
      var init := goals[..|goals| - 1];
      PostAllSets(recs, init, date, form);
      forall g | g in goals
        ensures GoalCompletion(g.id, date, Checked(form, g.id)) in PostAll(recs, goals, date, form)
      {
        if g != goals[|goals| - 1] {
          assert g in init;
        }
      }
    }
  }

  /** The batch leaves every record of another date or of another goal as it was. */
  lemma {:induction false} PostAllOutside(recs: seq<GoalCompletion>, goals: seq<Goal>, date: Date,
                                          form: map<GoalId, string>, ids: set<GoalId>)
    requires forall g :: g in goals ==> g.id in ids
    ensures Outside(PostAll(recs, goals, date, form), ids, date) == Outside(recs, ids, date)
  {
    if goals != [] {
      var init := goals[..|goals| - 1];
      var g := goals[|goals| - 1];
      PostAllOutside(recs, init, date, form, ids);
      UpsertOutside(PostAll(recs, init, date, form), g.id, date, Checked(form, g.id), ids);
    }
  }

  lemma {:induction false} PostAllPresent(recs: seq<GoalCompletion>, goals: seq<Goal>, date: Date,
                                          form: map<GoalId, string>)
    requires UniqueCompletions(recs)
    requires forall g :: g in goals ==> GoalCompletion(g.id, date, Checked(form, g.id)) in recs
    ensures PostAll(recs, goals, date, form) == recs
  {
    if goals != [] {
      var g := goals[|goals| - 1];
      PostAllPresent(recs, goals[..|goals| - 1], date, form);
      UpsertPresent(recs, g.id, date, Checked(form, g.id));
    }
  }

  /** Submitting the same tracker form twice gives the same table as submitting it once. */
  lemma PostAllIdempotent(recs: seq<GoalCompletion>, goals: seq<Goal>, date: Date, form: map<GoalId, string>)
    requires UniqueCompletions(recs)
    ensures PostAll(PostAll(recs, goals, date, form), goals, date, form) == PostAll(recs, goals, date, form)
  {
    var once := PostAll(recs, goals, date, form);
    PostAllUnique(recs, goals, date, form);
    PostAllSets(recs, goals, date, form);
    PostAllPresent(once, goals, date, form);
  }

  // ---------------------------------------------------------------- update_or_create on email

  /**
   * The update-or-create keyed by email: the first row with the email gets the
   * new active flag; without one, a row is appended.
   */
  function UpsertEmail(rows: seq<WhitelistedEmail>, email: string, active: bool): (r: seq<WhitelistedEmail>)
    ensures forall x :: x in r ==> x in rows || x == WhitelistedEmail(email, active)
    ensures WhitelistedEmail(email, active) in r
    ensures forall x :: x in rows && x.email != email ==> x in r
  {
    if rows == [] then [WhitelistedEmail(email, active)]
    else if rows[0].email == email then [rows[0].(active := active)] + rows[1..]
    else [rows[0]] + UpsertEmail(rows[1..], email, active)
  }

  lemma {:induction false} UpsertEmailAt(rows: seq<WhitelistedEmail>, i: nat, email: string, active: bool)
    requires i <= |rows|
    requires forall j :: 0 <= j < i ==> rows[j].email != email
    requires i < |rows| ==> rows[i].email == email
    ensures UpsertEmail(rows, email, active)
            == if i < |rows| then rows[i := rows[i].(active := active)]
               else rows + [WhitelistedEmail(email, active)]
  {
    if i > 0 {
      var tail := rows[1..];
      UpsertEmailAt(tail, i - 1, email, active);
      assert UpsertEmail(rows, email, active) == [rows[0]] + UpsertEmail(tail, email, active);
      if i < |rows| {
        ConsUpdate(rows, i, rows[i].(active := active));
      } else {
        ConsAppend(rows, WhitelistedEmail(email, active));
      }
    } else if rows != [] {
      HeadUpdate(rows, rows[0].(active := active));
    }
  }

  /** The position of the first row with the email, or |rows| without one. */
  function EmailIndex(rows: seq<WhitelistedEmail>, email: string): (i: nat)
    ensures i <= |rows|
    ensures forall j :: 0 <= j < i ==> rows[j].email != email
    ensures i < |rows| ==> rows[i].email == email
  {
    if rows == [] || rows[0].email == email then 0
    else
      var k := EmailIndex(rows[1..], email);
      assert forall j :: 1 <= j < k + 1 ==> rows[j] == rows[1..][j - 1];
      k + 1
  }

  /** One row per email survives the upsert, and it holds the last submitted flag. */
  lemma UpsertEmailUnique(rows: seq<WhitelistedEmail>, email: string, active: bool)
    requires UniqueEmails(rows)
    ensures UniqueEmails(UpsertEmail(rows, email, active))
    ensures forall x :: x in UpsertEmail(rows, email, active) && x.email == email ==> x.active == active
  {
    var i := EmailIndex(rows, email);
    UpsertEmailAt(rows, i, email, active);
    if i < |rows| {
      SetActiveUnique(rows, i, active);
    } else {
      AppendEmailUnique(rows, email, active);
    }
  }

  lemma SetActiveUnique(rows: seq<WhitelistedEmail>, i: nat, active: bool)
    requires UniqueEmails(rows) && i < |rows|
    ensures var r := rows[i := rows[i].(active := active)];
      UniqueEmails(r) && forall x :: x in r && x.email == rows[i].email ==> x.active == active
  {
    var r := rows[i := rows[i].(active := active)];
    assert forall k :: 0 <= k < |r| ==> r[k].email == rows[k].email;
    forall x | x in r && x.email == rows[i].email ensures x.active == active {
      var k :| 0 <= k < |r| && r[k] == x;
      assert k == i;
    }
  }

  lemma AppendEmailUnique(rows: seq<WhitelistedEmail>, email: string, active: bool)
    requires UniqueEmails(rows) && forall j :: 0 <= j < |rows| ==> rows[j].email != email
    ensures var r := rows + [WhitelistedEmail(email, active)];
      UniqueEmails(r) && forall x :: x in r && x.email == email ==> x.active == active
  {
    var r := rows + [WhitelistedEmail(email, active)];
    forall a, b | 0 <= a < b < |r| ensures r[a].email != r[b].email {
      if b == |rows| {
        assert rows[a].email != email;
      }
    }
    forall x | x in r && x.email == email ensures x.active == active {
      var k :| 0 <= k < |r| && r[k] == x;
      assert k == |rows|;
    }
  }

  // ---------------------------------------------------------------- editing a goal

  /** A goal after its edit form is saved: the form's name, description and weekday flags, its own id and owner. */
  function Edited(g: Goal, form: Goal): (e: Goal)
    ensures e.id == g.id && e.user == g.user
    ensures e.name == form.name && e.description == form.description
    ensures forall wd :: e.ScheduledOn(wd) == form.ScheduledOn(wd)
  {
    form.(id := g.id, user := g.user)
  }

  /** Saving the edit form of goal gid: the goal with that id takes the form's fields, every other goal stays. */
  function EditGoal(goals: seq<Goal>, gid: GoalId, form: Goal): (r: seq<Goal>)
    ensures |r| == |goals|
    ensures forall i :: 0 <= i < |r| ==> r[i].id == goals[i].id && r[i].user == goals[i].user
    ensures forall i :: 0 <= i < |r| && goals[i].id != gid ==> r[i] == goals[i]
    ensures forall i :: 0 <= i < |r| && goals[i].id == gid ==> r[i] == Edited(goals[i], form)
  {
    seq(|goals|, i requires 0 <= i < |goals| => if goals[i].id == gid then Edited(goals[i], form) else goals[i])
  }

  /** Two goal tables holding the same (id, owner) pairs row by row have the same ids and owners. */
  lemma SameKeys(goals: seq<Goal>, r: seq<Goal>)
    requires |r| == |goals|
    requires forall i :: 0 <= i < |r| ==> r[i].id == goals[i].id && r[i].user == goals[i].user
    ensures GoalIds(r) == GoalIds(goals)
    ensures forall u :: OwnedIds(r, u) == OwnedIds(goals, u)
    ensures DistinctGoalIds(goals) ==> DistinctGoalIds(r)
  {
    forall g | g in r ensures exists h :: h in goals && h.id == g.id && h.user == g.user {
      var i :| 0 <= i < |r| && r[i] == g;
      assert goals[i] in goals;
    }
    forall g | g in goals ensures exists h :: h in r && h.id == g.id && h.user == g.user {
      var i :| 0 <= i < |goals| && goals[i] == g;
      assert r[i] in r;
    }
  }

  /** Editing a goal changes no id and no owner, so every constraint of the schema still holds. */
  lemma EditGoalConsistent(users: seq<UserId>, goals: seq<Goal>, recs: seq<GoalCompletion>,
                           chs: seq<Challenge>, rows: seq<WhitelistedEmail>, gid: GoalId, form: Goal)
    requires Consistent(users, goals, recs, chs, rows)
    ensures GoalIds(EditGoal(goals, gid, form)) == GoalIds(goals)
    ensures forall u :: OwnedIds(EditGoal(goals, gid, form), u) == OwnedIds(goals, u)
    ensures Consistent(users, EditGoal(goals, gid, form), recs, chs, rows)
  {
    var r := EditGoal(goals, gid, form);
    SameKeys(goals, r);
    forall g | g in r ensures g.user in users {
      var i :| 0 <= i < |r| && r[i] == g;
      assert goals[i] in goals;
    }
  }

  /**
   * With distinct ids, the edit rewrites in place the one goal a search
   * finds at position i, and changes nothing when the search finds none.
   */
  lemma EditGoalAt(goals: seq<Goal>, i: int, gid: GoalId, form: Goal)
    requires DistinctGoalIds(goals) && 0 <= i <= |goals|
    requires forall j :: 0 <= j < i ==> goals[j].id != gid
    requires i < |goals| ==> goals[i].id == gid
    ensures i < |goals| ==> EditGoal(goals, gid, form) == goals[i := Edited(goals[i], form)]
    ensures i == |goals| ==> EditGoal(goals, gid, form) == goals
  {
    var r := EditGoal(goals, gid, form);
    if i < |goals| {
      forall j | 0 <= j < |goals| ensures r[j] == goals[i := Edited(goals[i], form)][j] {
        if j != i {
          assert goals[j].id != gid by {
            if j > i { assert goals[i].id != goals[j].id; }
          }
        }
      }
    } else {
      forall j | 0 <= j < |goals| ensures r[j] == goals[j] { }
    }
  }

  // ---------------------------------------------------------------- ON DELETE CASCADE

  /** Goals whose id is not in ids. */
  function DropGoals(goals: seq<Goal>, ids: set<GoalId>): (r: seq<Goal>)
    ensures forall g :: g in r <==> g in goals && g.id !in ids
    ensures DistinctGoalIds(goals) ==> DistinctGoalIds(r)
  {
    if goals == [] then []
    else
      var rest := DropGoals(goals[1..], ids);
      if goals[0].id in ids then rest
      else
        assert DistinctGoalIds(goals) ==> forall g :: g in rest ==> g.id != goals[0].id by {
          if DistinctGoalIds(goals) { DistinctHead(goals); }
        }
        [goals[0]] + rest
  }

  lemma DistinctHead(goals: seq<Goal>)
    requires goals != [] && DistinctGoalIds(goals)
    ensures forall g :: g in goals[1..] ==> g.id != goals[0].id
  {
    forall g | g in goals[1..] ensures g.id != goals[0].id {
      var j :| 0 <= j < |goals[1..]| && goals[1..][j] == g;
      assert goals[j + 1] == g;
    }
  }

  /** The ids of a user's goals. */
  function OwnedIds(goals: seq<Goal>, u: UserId): (ids: set<GoalId>)
    ensures forall g :: g in goals && g.user == u ==> g.id in ids
    ensures DistinctGoalIds(goals) ==> forall g :: g in goals && g.id in ids ==> g.user == u
  {
    set g | g in goals && g.user == u :: g.id
  }

  /** Completion records whose goal is not in ids. */
  function DropCompletions(recs: seq<GoalCompletion>, ids: set<GoalId>): (r: seq<GoalCompletion>)
    ensures forall x :: x in r <==> x in recs && x.goal !in ids
    ensures UniqueCompletions(recs) ==> UniqueCompletions(r)
  {
    if recs == [] then []
    else
      var rest := DropCompletions(recs[1..], ids);
      if recs[0].goal in ids then rest
      else
        assert UniqueCompletions(recs) ==> forall x :: x in rest ==> !SameKey(recs[0], x) by {
          if UniqueCompletions(recs) {
            forall x | x in rest ensures !SameKey(recs[0], x) {
              var j :| 0 <= j < |recs[1..]| && recs[1..][j] == x;
              assert recs[j + 1] == x;
            }
          }
        }
        [recs[0]] + rest
  }

  /** A challenge's goal set loses the deleted goals (the many-to-many rows go with them). */
  function StripGoals(chs: seq<Challenge>, ids: set<GoalId>): (r: seq<Challenge>)
    ensures |r| == |chs|
    ensures forall i :: 0 <= i < |r| ==> r[i] == chs[i].(goals := chs[i].goals - ids)
  {
    if chs == [] then [] else [chs[0].(goals := chs[0].goals - ids)] + StripGoals(chs[1..], ids)
  }

  /** Challenges kept by a filter on their id or on their owner. */
  function DropChallenges(chs: seq<Challenge>, cid: ChallengeId, owner: UserId, byOwner: bool)
    : (r: seq<Challenge>)
    ensures forall c :: c in r <==> c in chs && (if byOwner then c.user != owner else c.id != cid)
    ensures DistinctChallengeIds(chs) ==> DistinctChallengeIds(r)
  {
    if chs == [] then []
    else
      var rest := DropChallenges(chs[1..], cid, owner, byOwner);
      var keep := if byOwner then chs[0].user != owner else chs[0].id != cid;
      if !keep then rest
      else
        assert DistinctChallengeIds(chs) ==> forall c :: c in rest ==> c.id != chs[0].id by {
          if DistinctChallengeIds(chs) {
            forall c | c in rest ensures c.id != chs[0].id {
              var j :| 0 <= j < |chs[1..]| && chs[1..][j] == c;
              assert chs[j + 1] == c;
            }
          }
        }
        [chs[0]] + rest
  }

  function RemoveUser(users: seq<UserId>, u: UserId): (r: seq<UserId>)
    ensures forall v :: v in r <==> v in users && v != u
    ensures DistinctUsers(users) ==> DistinctUsers(r)
  {
    if users == [] then []
    else
      var rest := RemoveUser(users[1..], u);
      if users[0] == u then rest
      else
        assert DistinctUsers(users) ==> forall v :: v in rest ==> v != users[0] by {
          if DistinctUsers(users) {
            forall v | v in rest ensures v != users[0] {
              var j :| 0 <= j < |users[1..]| && users[1..][j] == v;
              assert users[j + 1] == v;
            }
          }
        }
        assert DistinctUsers(users) ==> DistinctUsers([users[0]] + rest) by {
          if DistinctUsers(users) {
            var r := [users[0]] + rest;
            forall i, j | 0 <= i < j < |r| ensures r[i] != r[j] {
              assert r[j] == rest[j - 1] && r[j] in rest;
              if i > 0 { assert r[i] == rest[i - 1]; }
            }
          }
        }
        [users[0]] + rest
  }

  lemma GoalIdsAfterDrop(goals: seq<Goal>, ids: set<GoalId>)
    requires DistinctGoalIds(goals)
    ensures GoalIds(DropGoals(goals, ids)) == GoalIds(goals) - ids
  {
    var r := DropGoals(goals, ids);
    forall x | x in GoalIds(goals) - ids ensures x in GoalIds(r) {
      var g :| g in goals && g.id == x;
      assert g in r;
    }
  }

  /** Dropping a set of goals together with their records and memberships keeps every constraint except the user table's. */
  lemma DropGoalsConsistent(users: seq<UserId>, goals: seq<Goal>, recs: seq<GoalCompletion>,
                            chs: seq<Challenge>, rows: seq<WhitelistedEmail>, ids: set<GoalId>)
    requires Consistent(users, goals, recs, chs, rows)
    ensures Consistent(users, DropGoals(goals, ids), DropCompletions(recs, ids), StripGoals(chs, ids), rows)
  {
    GoalIdsAfterDrop(goals, ids);
    var goals', recs' := DropGoals(goals, ids), DropCompletions(recs, ids);
    var chs' := StripGoals(chs, ids);
    forall r | r in recs' ensures r.goal in GoalIds(goals) - ids && IsValid(r.date) {
      assert r in recs;
    }
    forall c | c in chs'
      ensures c.user in users && c.goals <= GoalIds(goals) - ids
      ensures IsValid(c.startDate) && IsValid(c.endDate)
    {
      var i :| 0 <= i < |chs'| && chs'[i] == c;
      assert chs[i] in chs;
    }
    forall i, j | 0 <= i < j < |chs'| ensures chs'[i].id != chs'[j].id {
      assert chs'[i].id == chs[i].id && chs'[j].id == chs[j].id;
    }
  }

  /** Deleting a goal deletes its completion records and its challenge memberships, and keeps the schema consistent. */
  lemma DeleteGoalConsistent(users: seq<UserId>, goals: seq<Goal>, recs: seq<GoalCompletion>,
                             chs: seq<Challenge>, rows: seq<WhitelistedEmail>, gid: GoalId)
    requires Consistent(users, goals, recs, chs, rows)
    ensures Consistent(users, DropGoals(goals, {gid}), DropCompletions(recs, {gid}),
                       StripGoals(chs, {gid}), rows)
    ensures forall x :: x in DropCompletions(recs, {gid}) ==> x.goal != gid
  {
    DropGoalsConsistent(users, goals, recs, chs, rows, {gid});
  }

  /**
   * Deleting a user deletes the user's goals, their completions, the user's
   * challenges, and the deleted goals' memberships in other challenges.
   */
  lemma DeleteUserConsistent(users: seq<UserId>, goals: seq<Goal>, recs: seq<GoalCompletion>,
                             chs: seq<Challenge>, rows: seq<WhitelistedEmail>, u: UserId)
    requires Consistent(users, goals, recs, chs, rows)
    ensures var ids := OwnedIds(goals, u);
      && Consistent(RemoveUser(users, u), DropGoals(goals, ids), DropCompletions(recs, ids),
                    StripGoals(DropChallenges(chs, 0, u, true), ids), rows)
      && (forall g :: g in DropGoals(goals, ids) ==> g.user != u)
      && (forall c :: c in DropChallenges(chs, 0, u, true) ==> c.user != u)
  {
    var ids := OwnedIds(goals, u);
    GoalIdsAfterDrop(goals, ids);
    var kept := DropChallenges(chs, 0, u, true);
    var chs' := StripGoals(kept, ids);
    forall c | c in chs'
      ensures c.user in RemoveUser(users, u) && c.goals <= GoalIds(goals) - ids
      ensures IsValid(c.startDate) && IsValid(c.endDate)
    {
      var i :| 0 <= i < |chs'| && chs'[i] == c;
      assert kept[i] in kept;
    }
    forall i, j | 0 <= i < j < |chs'| ensures chs'[i].id != chs'[j].id {
      assert chs'[i].id == kept[i].id && chs'[j].id == kept[j].id;
    }
  }

  /** Deleting a challenge removes only the challenge: goals and completions stay. */
  lemma DeleteChallengeConsistent(users: seq<UserId>, goals: seq<Goal>, recs: seq<GoalCompletion>,
                                  chs: seq<Challenge>, rows: seq<WhitelistedEmail>, cid: ChallengeId)
    requires Consistent(users, goals, recs, chs, rows)
    ensures Consistent(users, goals, recs, DropChallenges(chs, cid, 0, false), rows)
    ensures forall c :: c in DropChallenges(chs, cid, 0, false) ==> c.id != cid
  {
  }
}
