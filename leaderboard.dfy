/**
 * The month-to-date leaderboard: every user with at least one completion
 * record dated on or after the first of the month, their rounded completion
 * percentage, their record counts, sorted by percentage and then by the
 * number of completed records, both descending, and numbered from 1.
 */
module Leaderboard {
  import opened Dates
  import opened Models
  import opened Tables
  import opened Progress
  import opened Wrappers

  /** One leaderboard row; rank is 0 until the numbering loop sets it. */
  datatype Entry = Entry(user: UserId, tenths: int, totalSet: nat, totalCompleted: nat, rank: nat)

  /** The records of u's goals dated on or after som (no upper bound), optionally only completed ones. */
  function UserCount(goals: seq<Goal>, recs: seq<GoalCompletion>, som: Date, u: UserId,
                     onlyCompleted: bool): nat
  {
    Count(recs, OwnedIds(goals, u), som, None, onlyCompleted)
  }

  /** A user is on the board when at least one record of theirs falls in the window. */
  predicate Active(goals: seq<Goal>, recs: seq<GoalCompletion>, som: Date, u: UserId) {
    UserCount(goals, recs, som, u, false) > 0
  }

  /** The row appended for user u, before ranking. */
  function EntryOf(goals: seq<Goal>, recs: seq<GoalCompletion>, som: Date, u: UserId): (e: Entry)
    ensures e.user == u && e.rank == 0
    ensures e.totalSet == UserCount(goals, recs, som, u, false)
    ensures e.totalCompleted == UserCount(goals, recs, som, u, true)
    ensures e.totalCompleted <= e.totalSet
    ensures 0 <= e.tenths <= 1000
    ensures e.tenths == RoundTenths(e.totalCompleted, e.totalSet)
  {
    var total := UserCount(goals, recs, som, u, false);
    var done := UserCount(goals, recs, som, u, true);
    CompletedAtMostTracked(recs, OwnedIds(goals, u), som, None);
    RoundTenthsSpec(done, total);
    Entry(u, RoundTenths(done, total), total, done, 0)
  }

  /** leaderboard_data before sorting: one row per active user, in the user table's order. */
  function Standings(users: seq<UserId>, goals: seq<Goal>, recs: seq<GoalCompletion>, som: Date): seq<Entry> {
    if users == [] then []
    else
      var u := users[|users| - 1];
      Standings(users[..|users| - 1], goals, recs, som)
      + (if Active(goals, recs, som, u) then [EntryOf(goals, recs, som, u)] else [])
  }

  /** The rows before sorting are exactly the rows of the active users. */
  lemma {:induction false} StandingsMembers(users: seq<UserId>, goals: seq<Goal>,
                                            recs: seq<GoalCompletion>, som: Date)
    ensures forall e :: e in Standings(users, goals, recs, som) <==>
      e.user in users && Active(goals, recs, som, e.user) && e == EntryOf(goals, recs, som, e.user)
  {
    if users != [] {
      var init := users[..|users| - 1];
      StandingsMembers(init, goals, recs, som);
      assert users == init + [users[|users| - 1]];
    }
  }

  // ---------------------------------------------------------------- sorting

  /** a may precede b: a higher rounded percentage, or an equal one and at least as many completed records. */
  predicate Before(a: Entry, b: Entry) {
    a.tenths > b.tenths || (a.tenths == b.tenths && a.totalCompleted >= b.totalCompleted)
  }

  predicate SortedByKey(s: seq<Entry>) {
    forall i, j :: 0 <= i < j < |s| ==> Before(s[i], s[j])
  }

  /** Put e in front of the first row it may precede. */
  function Insert(e: Entry, t: seq<Entry>): (r: seq<Entry>)
    ensures multiset(r) == multiset(t) + multiset{e}
    ensures |r| == |t| + 1
  {
    if t == [] || Before(e, t[0]) then [e] + t
    else
      assert t == [t[0]] + t[1..];
      [t[0]] + Insert(e, t[1..])
  }

  lemma {:induction false} InsertSorted(e: Entry, t: seq<Entry>)
    requires SortedByKey(t)
    ensures SortedByKey(Insert(e, t))
  {
    if t == [] || Before(e, t[0]) {
    } else {
      var rest := Insert(e, t[1..]);
      InsertSorted(e, t[1..]);
      forall x | x in rest
        ensures Before(t[0], x)
      {
        assert x in multiset(rest);
        if x != e {
          assert x in multiset(t[1..]);
          var k :| 0 <= k < |t[1..]| && t[1..][k] == x;
          assert t[k + 1] == x;
        }
      }
      var r := [t[0]] + rest;
      forall i, j | 0 <= i < j < |r|
        ensures Before(r[i], r[j])
      {
        if i == 0 {
          assert r[j] == rest[j - 1];
          assert r[j] in rest;
        } else {
          assert r[i] == rest[i - 1] && r[j] == rest[j - 1];
        }
      }
    }
  }

  /** The sort of the rows into key order: insertion into the sorted rest. */
  function Sort(s: seq<Entry>): (r: seq<Entry>)
    ensures multiset(r) == multiset(s)
    ensures |r| == |s|
  {
    if s == [] then []
    else
      assert s == [s[0]] + s[1..];
      Insert(s[0], Sort(s[1..]))
  }

  /** The sorted rows are in key order. */
  lemma {:induction false} SortSorted(s: seq<Entry>)
    ensures SortedByKey(Sort(s))
  {
    if s != [] {
      SortSorted(s[1..]);
      InsertSorted(s[0], Sort(s[1..]));
    }
  }

  // ---------------------------------------------------------------- the view

  /**
   * LeaderboardView: rows for exactly the active users, each with its own
   * counts and rounded percentage, in key order, numbered 1, 2, ...
   */
  method LeaderboardPage(users: seq<UserId>, goals: seq<Goal>, recs: seq<GoalCompletion>, today: Date)
    returns (board: seq<Entry>)
    ensures var som := MonthStart(today);
      forall e :: e in board ==>
        e.user in users && Active(goals, recs, som, e.user)
        && e.(rank := 0) == EntryOf(goals, recs, som, e.user)
    ensures var som := MonthStart(today);
      forall u :: u in users && Active(goals, recs, som, u) ==> exists e :: e in board && e.user == u
    ensures multiset(Unranked(board)) == multiset(Standings(users, goals, recs, MonthStart(today)))
    ensures SortedByKey(board)
    ensures forall i :: 0 <= i < |board| ==> board[i].rank == i + 1
  {
    var som := MonthStart(today);
    var data := CollectStandings(users, goals, recs, som);
    StandingsMembers(users, goals, recs, som);
    var sorted := Sort(data);
    SortSorted(data);
    board := Rank(sorted);
    RankedMembers(data, sorted, board);
    forall u | u in users && Active(goals, recs, som, u)
      ensures exists e :: e in board && e.user == u
    {
      var x := EntryOf(goals, recs, som, u);
      assert x in data;
    }
  }

  /** The rows with their rank cleared: what was sorted. */
  function Unranked(board: seq<Entry>): (r: seq<Entry>)
    ensures |r| == |board|
  {
    seq(|board|, i requires 0 <= i < |board| => board[i].(rank := 0))
  }

  /** The loop that appends one row per user with at least one record this month. */
  method CollectStandings(users: seq<UserId>, goals: seq<Goal>, recs: seq<GoalCompletion>, som: Date)
    returns (data: seq<Entry>)
    ensures data == Standings(users, goals, recs, som)
  {
    data := [];
    for i := 0 to |users|
      invariant data == Standings(users[..i], goals, recs, som)
    {
      var u := users[i];
      var total := Count(recs, OwnedIds(goals, u), som, None, false);
      var done := Count(recs, OwnedIds(goals, u), som, None, true);
      assert users[..i + 1][..i] == users[..i];
      if total > 0 {
        data := data + [Entry(u, RoundTenths(done, total), total, done, 0)];
      }
    }
    assert users[..|users|] == users;
  }

  /** Sorting and numbering keep the rows: each numbered row is an unnumbered row, and back. */
  lemma RankedMembers(data: seq<Entry>, sorted: seq<Entry>, board: seq<Entry>)
    requires forall x :: x in data ==> x.rank == 0
    requires sorted == Sort(data)
    requires |board| == |sorted| && forall i :: 0 <= i < |board| ==> board[i] == sorted[i].(rank := i + 1)
    ensures Unranked(board) == sorted
    ensures forall e :: e in board ==> e.(rank := 0) in data
    ensures forall x :: x in data ==> exists e :: e in board && e.(rank := 0) == x
  {
    forall e | e in board
      ensures e.(rank := 0) in data
    {
      var i :| 0 <= i < |board| && board[i] == e;
      assert sorted[i] in multiset(data);
    }
    forall i | 0 <= i < |sorted| ensures sorted[i].rank == 0 {
      assert sorted[i] in multiset(data);
    }
    forall x | x in data
      ensures exists e :: e in board && e.(rank := 0) == x
    {
      assert x in multiset(sorted);
      var i :| 0 <= i < |sorted| && sorted[i] == x;
      assert board[i] in board;
    }
  }

  /** The numbering loop: each row's rank becomes its position counted from 1. */
  method Rank(sorted: seq<Entry>) returns (board: seq<Entry>)
    ensures |board| == |sorted|
    ensures forall i :: 0 <= i < |board| ==> board[i] == sorted[i].(rank := i + 1)
  {
    board := sorted;
    for i := 0 to |board|
      invariant |board| == |sorted|
      invariant forall k :: 0 <= k < i ==> board[k] == sorted[k].(rank := k + 1)
      invariant forall k :: i <= k < |board| ==> board[k] == sorted[k]
    {
      board := board[i := board[i].(rank := i + 1)];
    }
  }
}
