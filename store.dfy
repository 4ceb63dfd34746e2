/**
 * The persistent store: one object holding the five tables, whose methods
 * are the writes the application performs. Valid() is the schema's set of
 * constraints; every method keeps it.
 */
module Store {
  import opened Dates
  import opened Models
  import opened Tables

  class Database {
    var users: seq<UserId>
    var goals: seq<Goal>
    var completions: seq<GoalCompletion>
    var challenges: seq<Challenge>
    var whitelist: seq<WhitelistedEmail>

    ghost predicate Valid()
      reads this
    {
      Consistent(users, goals, completions, challenges, whitelist)
    }

    constructor ()
      ensures Valid()
      ensures users == [] && goals == [] && completions == [] && challenges == [] && whitelist == []
    {
      users, goals, completions, challenges, whitelist := [], [], [], [], [];
    }

    /** A new account (created by the authentication layer). */
    method AddUser(u: UserId)
      requires Valid() && u !in users
      modifies this
      ensures Valid() && users == old(users) + [u]
      ensures goals == old(goals) && completions == old(completions)
      ensures challenges == old(challenges) && whitelist == old(whitelist)
    {
      users := users + [u];
    }

    /** Saving a new goal for an existing user under a fresh id. */
    method AddGoal(g: Goal)
      requires Valid() && g.user in users && g.id !in GoalIds(goals)
      modifies this
      ensures Valid() && goals == old(goals) + [g]
      ensures users == old(users) && completions == old(completions)
      ensures challenges == old(challenges) && whitelist == old(whitelist)
    {
      goals := goals + [g];
      assert g in goals;
    }

    /** Saving a goal's edit form; an unknown id is a not-found response that changes nothing. */
    method UpdateGoal(gid: GoalId, form: Goal) returns (found: bool)
      requires Valid()
      modifies this
      ensures Valid() && goals == EditGoal(old(goals), gid, form)
      ensures found <==> gid in GoalIds(old(goals))
      ensures users == old(users) && completions == old(completions)
      ensures challenges == old(challenges) && whitelist == old(whitelist)
    {
      var i := 0;
      while i < |goals| && goals[i].id != gid
        invariant 0 <= i <= |goals|
        invariant forall j :: 0 <= j < i ==> goals[j].id != gid
      {
        i := i + 1;
      }
      EditGoalAt(goals, i, gid, form);
      EditGoalConsistent(users, goals, completions, challenges, whitelist, gid, form);
      found := i < |goals|;
      if found {
        assert goals[i] in goals;
        goals := goals[i := Edited(goals[i], form)];
      } else {
        assert forall g :: g in goals ==> g.id != gid;
      }
    }

    /** Saving a new challenge; nothing orders its start and end dates. */
    method AddChallenge(c: Challenge)
      requires Valid() && c.user in users && c.goals <= GoalIds(goals)
      requires IsValid(c.startDate) && IsValid(c.endDate)
      requires forall d :: d in challenges ==> d.id != c.id
      modifies this
      ensures Valid() && challenges == old(challenges) + [c]
      ensures users == old(users) && goals == old(goals)
      ensures completions == old(completions) && whitelist == old(whitelist)
    {
      challenges := challenges + [c];
      forall i, j | 0 <= i < j < |challenges| ensures challenges[i].id != challenges[j].id {
        if j < |challenges| - 1 { assert challenges[i] == old(challenges)[i] && challenges[j] == old(challenges)[j]; }
        else { assert challenges[i] in old(challenges); }
      }
    }

    /** The update-or-create of the record keyed by (goal, date), setting its completed flag. */
    method UpsertCompletion(goal: GoalId, date: Date, completed: bool)
      requires Valid() && goal in GoalIds(goals) && IsValid(date)
      modifies this
      ensures Valid() && completions == Upsert(old(completions), goal, date, completed)
      ensures users == old(users) && goals == old(goals)
      ensures challenges == old(challenges) && whitelist == old(whitelist)
    {
      var recs := completions;
      var i := 0;
      while i < |recs| && !(recs[i].goal == goal && recs[i].date == date)
        invariant 0 <= i <= |recs|
        invariant forall j :: 0 <= j < i ==> !(recs[j].goal == goal && recs[j].date == date)
      {
        i := i + 1;
      }
      UpsertAt(recs, i, goal, date, completed);
      UpsertConsistent(users, goals, recs, challenges, whitelist, goal, date, completed);
      if i < |recs| {
        completions := recs[i := recs[i].(completed := completed)];
      } else {
        completions := recs + [GoalCompletion(goal, date, completed)];
      }
    }

    /** The update-or-create of the whitelist row keyed by email, setting its active flag. */
    method UpsertWhitelisted(email: string, active: bool)
      requires Valid()
      modifies this
      ensures Valid() && whitelist == UpsertEmail(old(whitelist), email, active)
      ensures users == old(users) && goals == old(goals)
      ensures completions == old(completions) && challenges == old(challenges)
    {
      var rows := whitelist;
      var i := 0;
      while i < |rows| && rows[i].email != email
        invariant 0 <= i <= |rows|
        invariant forall j :: 0 <= j < i ==> rows[j].email != email
      {
        i := i + 1;
      }
      UpsertEmailAt(rows, i, email, active);
      UpsertEmailUnique(rows, email, active);
      if i < |rows| {
        whitelist := rows[i := rows[i].(active := active)];
      } else {
        whitelist := rows + [WhitelistedEmail(email, active)];
      }
    }

    /** Deleting a goal; its completion records and challenge memberships go with it. */
    method DeleteGoal(gid: GoalId)
      requires Valid()
      modifies this
      ensures Valid()
      ensures goals == DropGoals(old(goals), {gid})
      ensures completions == DropCompletions(old(completions), {gid})
      ensures challenges == StripGoals(old(challenges), {gid})
      ensures users == old(users) && whitelist == old(whitelist)
    {
      DeleteGoalConsistent(users, goals, completions, challenges, whitelist, gid);
      goals, completions, challenges :=
        DropGoals(goals, {gid}), DropCompletions(completions, {gid}), StripGoals(challenges, {gid});
    }

    /**
     * The goal delete view: only the requesting user's own goals can be
     * found; any other id is a not-found response that changes nothing.
     */
    method DeleteOwnGoal(gid: GoalId, u: UserId) returns (found: bool)
      requires Valid()
      modifies this
      ensures Valid()
      ensures found <==> exists g :: g in old(goals) && g.id == gid && g.user == u
      ensures found ==>
        && goals == DropGoals(old(goals), {gid})
        && completions == DropCompletions(old(completions), {gid})
        && challenges == StripGoals(old(challenges), {gid})
      ensures !found ==>
        goals == old(goals) && completions == old(completions) && challenges == old(challenges)
      ensures users == old(users) && whitelist == old(whitelist)
    {
      var i := 0;
      while i < |goals| && !(goals[i].id == gid && goals[i].user == u)
        invariant 0 <= i <= |goals|
        invariant forall j :: 0 <= j < i ==> !(goals[j].id == gid && goals[j].user == u)
      {
        i := i + 1;
      }
      found := i < |goals|;
      if found {
        assert goals[i] in goals;
        DeleteGoal(gid);
      }
    }

    /** Deleting a user; the user's goals, their completions and the user's challenges go with it. */
    method DeleteUser(u: UserId)
      requires Valid()
      modifies this
      ensures Valid()
      ensures var ids := OwnedIds(old(goals), u);
        && users == RemoveUser(old(users), u)
        && goals == DropGoals(old(goals), ids)
        && completions == DropCompletions(old(completions), ids)
        && challenges == StripGoals(DropChallenges(old(challenges), 0, u, true), ids)
      ensures whitelist == old(whitelist)
    {
      DeleteUserConsistent(users, goals, completions, challenges, whitelist, u);
      var ids := OwnedIds(goals, u);
      users, goals, completions, challenges :=
        RemoveUser(users, u), DropGoals(goals, ids), DropCompletions(completions, ids),
        StripGoals(DropChallenges(challenges, 0, u, true), ids);
    }

    /** Deleting a challenge; the goals it references stay. */
    method DeleteChallenge(cid: ChallengeId)
      requires Valid()
      modifies this
      ensures Valid() && challenges == DropChallenges(old(challenges), cid, 0, false)
      ensures users == old(users) && goals == old(goals)
      ensures completions == old(completions) && whitelist == old(whitelist)
    {
      DeleteChallengeConsistent(users, goals, completions, challenges, whitelist, cid);
      challenges := DropChallenges(challenges, cid, 0, false);
    }
  }
}
