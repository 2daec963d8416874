/** The database-backed goal lifecycle: two tables, `goals` and
    `goals_completed`, a listing that derives each active goal's status,
    an insert of a new goal, and the all-or-nothing move of a goal from the
    first table to the second. */
module DatabaseGoals {
  import opened Common
  import opened Dates
  import opened GoalStatus

  /** A row of `goals`; the deadline is kept as `%Y-%m-%d` text. */
  datatype GoalRow = GoalRow(id: nat, description: string, deadline: string)

  /** A row of `goals_completed`. */
  datatype CompletedRow = CompletedRow(id: nat, description: string, deadline: string, completionDate: string)

  /** The contents of both tables, with the next id each one will assign. */
  datatype Tables = Tables(goals: seq<GoalRow>, completed: seq<CompletedRow>, nextGoalId: nat, nextCompletedId: nat)

  /** An entry of the active listing: the row with its deadline as a date and
      the text of its derived status. */
  datatype ActiveGoal = ActiveGoal(id: nat, description: string, deadline: Date, status: string)

  /** What the index page is rendered from. */
  datatype Page = Page(active: seq<ActiveGoal>, completed: seq<CompletedRow>)

  predicate UniqueGoalIds(goals: seq<GoalRow>) {
    forall i, j :: 0 <= i < j < |goals| ==> goals[i].id != goals[j].id
  }

  predicate UniqueCompletedIds(completed: seq<CompletedRow>) {
    forall i, j :: 0 <= i < j < |completed| ==> completed[i].id != completed[j].id
  }

  /** What the store keeps true: ids are unique within each table and below
      the next id to assign, and every stored deadline of an active goal
      parses back as a date. */
  predicate Consistent(t: Tables) {
    && UniqueGoalIds(t.goals)
    && UniqueCompletedIds(t.completed)
    && (forall g :: g in t.goals ==> g.id < t.nextGoalId && Parse(g.deadline).Some?)
    && (forall c :: c in t.completed ==> c.id < t.nextCompletedId)
  }

  // ---------------------------------------------------------------------------
  // The SQL statements, on values

  /** `SELECT ... FROM goals WHERE id = ?` followed by `fetchone()`. */
  function Find(goals: seq<GoalRow>, id: int): (r: Option<GoalRow>)
    ensures r.Some? ==> r.value in goals && r.value.id == id
    ensures r.None? <==> forall g :: g in goals ==> g.id != id
  {
    if goals == [] then None
    else if goals[0].id == id then Some(goals[0])
    else Find(goals[1..], id)
  }

  /** `DELETE FROM goals WHERE id = ?`: the other rows, in their order. */
  function DeleteId(goals: seq<GoalRow>, id: int): (r: seq<GoalRow>)
    ensures forall g :: g in r <==> g in goals && g.id != id
    ensures (forall g :: g in goals ==> g.id != id) ==> r == goals
    ensures r == goals || |r| < |goals|
  {
    if goals == [] then []
    else if goals[0].id == id then DeleteId(goals[1..], id)
    else [goals[0]] + DeleteId(goals[1..], id)
  }

  lemma UniqueTail(goals: seq<GoalRow>)
    requires UniqueGoalIds(goals) && goals != []
    ensures UniqueGoalIds(goals[1..])
    ensures forall g :: g in goals[1..] ==> g.id != goals[0].id
  {
    var rest := goals[1..];
    forall i, j | 0 <= i < j < |rest| ensures rest[i].id != rest[j].id {
      assert rest[i] == goals[i + 1] && rest[j] == goals[j + 1];
    }
    forall g | g in rest ensures g.id != goals[0].id {
      var m :| 0 <= m < |rest| && rest[m] == g;
      assert goals[m + 1] == g;
    }
  }

  /** With unique ids, deleting the id of the first row removes just that row. */
  lemma DeleteHeadUnique(goals: seq<GoalRow>)
    requires UniqueGoalIds(goals) && goals != []
    ensures DeleteId(goals, goals[0].id) == goals[1..]
  {
    UniqueTail(goals);
    assert DeleteId(goals, goals[0].id) == DeleteId(goals[1..], goals[0].id);
  }

  lemma SplitAround(goals: seq<GoalRow>, k: nat)
    requires 0 < k < |goals|
    ensures goals[..k] + goals[k + 1..] == [goals[0]] + (goals[1..][..k - 1] + goals[1..][k..])
  {
    assert goals[..k] == [goals[0]] + goals[1..][..k - 1];
    assert goals[k + 1..] == goals[1..][k..];
  }

  /** With unique ids, the delete removes exactly the one row with that id
      and keeps every other row, in order. */
  lemma {:induction false} DeleteUniqueAt(goals: seq<GoalRow>, k: nat)
    requires UniqueGoalIds(goals) && k < |goals|
    ensures DeleteId(goals, goals[k].id) == goals[..k] + goals[k + 1..]
  {
    if k == 0 {
      DeleteHeadUnique(goals);
    } else {
      var id := goals[k].id;
      var rest := goals[1..];
      assert UniqueGoalIds(rest) && rest[k - 1] == goals[k] by {
        UniqueTail(goals);
      }
      DeleteUniqueAt(rest, k - 1);
      SplitAround(goals, k);
      assert goals[0].id != id;
    }
  }

  lemma {:induction false} DeletePreservesUnique(goals: seq<GoalRow>, id: int)
    requires UniqueGoalIds(goals)
    ensures UniqueGoalIds(DeleteId(goals, id))
  {
    if goals != [] {
      var rest := goals[1..];
      UniqueTail(goals);
      DeletePreservesUnique(rest, id);
      if goals[0].id != id {
        var r := DeleteId(goals, id);
        assert r == [goals[0]] + DeleteId(rest, id);
        forall j | 0 < j < |r| ensures r[0].id != r[j].id {
          assert r[j] in rest;
        }
      }
    }
  }

  // ---------------------------------------------------------------------------
  // The lifecycle operations, on values

  /** `INSERT INTO goals (description, deadline)`: a row with a fresh id and
      the deadline written back as `%Y-%m-%d` text. */
  function Insert(t: Tables, description: string, deadline: Date): Tables
    requires ValidDate(deadline)
  {
    t.(goals := t.goals + [GoalRow(t.nextGoalId, description, Format(deadline))],
       nextGoalId := t.nextGoalId + 1)
  }

  /** The effect of `complete_goal(id)` on day `today`; `fail` says that a
      statement of the transaction raised a database error. */
  function Complete(t: Tables, id: int, today: Date, fail: bool): Tables
    requires ValidDate(today)
  {
    match Find(t.goals, id)
    case None => t
    case Some(g) =>
      if fail then t
      else t.(completed := t.completed + [CompletedRow(t.nextCompletedId, g.description, g.deadline, Format(today))],
              nextCompletedId := t.nextCompletedId + 1,
              goals := DeleteId(t.goals, id))
  }

  /** Adding a goal appends exactly one row with an id no earlier row has,
      the given description and the deadline, leaves the earlier rows and
      the completed table alone, and keeps the store consistent. */
  lemma InsertAppends(t: Tables, description: string, deadline: Date)
    requires Consistent(t) && ValidDate(deadline)
    ensures var r := Insert(t, description, deadline);
      && Consistent(r)
      && |r.goals| == |t.goals| + 1
      && r.goals[..|t.goals|] == t.goals
      && r.goals[|t.goals|].description == description
      && Parse(r.goals[|t.goals|].deadline) == Some(deadline)
      && (forall g :: g in t.goals ==> g.id != r.goals[|t.goals|].id)
      && r.completed == t.completed
  {
    ParseFormat(deadline);
    var r := Insert(t, description, deadline);
    assert r.goals[..|t.goals|] == t.goals;
  }

  /** Completing a goal that is present moves it: its row is gone and every
      other row stays, in order; the completed table gains exactly one row,
      with a fresh id, the goal's description and deadline, and today as
      completion date. */
  lemma CompleteMovesGoal(t: Tables, k: nat, today: Date)
    requires Consistent(t) && ValidDate(today) && k < |t.goals|
    ensures var r := Complete(t, t.goals[k].id, today, false);
      && r.goals == t.goals[..k] + t.goals[k + 1..]
      && (forall g :: g in r.goals ==> g.id != t.goals[k].id)
      && r.completed == t.completed + [CompletedRow(t.nextCompletedId, t.goals[k].description, t.goals[k].deadline, Format(today))]
      && (forall c :: c in t.completed ==> c.id != t.nextCompletedId)
      && Parse(r.completed[|t.completed|].completionDate) == Some(today)
  {
    var id := t.goals[k].id;
    var g := Find(t.goals, id).value;
    var j :| 0 <= j < |t.goals| && t.goals[j] == g;
    assert j == k;
    DeleteUniqueAt(t.goals, k);
    ParseFormat(today);
  }

  /** Completing is all or nothing: either both tables stay as they were, or
      one row leaves `goals` and one row enters `goals_completed`. Nothing
      changes exactly when the store failed or no goal has that id. */
  lemma CompleteAllOrNothing(t: Tables, id: int, today: Date, fail: bool)
    requires Consistent(t) && ValidDate(today)
    ensures var r := Complete(t, id, today, fail);
      || (r.goals == t.goals && r.completed == t.completed)
      || (|r.goals| + 1 == |t.goals| && |r.completed| == |t.completed| + 1)
    ensures Complete(t, id, today, fail) == t <==> fail || forall g :: g in t.goals ==> g.id != id
  {
    match Find(t.goals, id)
    case None =>
    case Some(g) =>
      var k :| 0 <= k < |t.goals| && t.goals[k] == g;
      DeleteUniqueAt(t.goals, k);
      assert |Complete(t, id, today, false).completed| == |t.completed| + 1;
  }

  /** Completing the same id a second time changes nothing. */
  lemma CompleteTwice(t: Tables, id: int, today: Date, later: Date, fail: bool)
    requires ValidDate(today) && ValidDate(later)
    ensures Complete(Complete(t, id, today, false), id, later, fail) == Complete(t, id, today, false)
  {
    var once := Complete(t, id, today, false);
    assert Find(once.goals, id).None?;
  }

  lemma CompleteKeepsConsistent(t: Tables, id: int, today: Date, fail: bool)
    requires Consistent(t) && ValidDate(today)
    ensures Consistent(Complete(t, id, today, fail))
  {
    DeletePreservesUnique(t.goals, id);
  }

  // ---------------------------------------------------------------------------
  // The store

  /** The two tables of the SQLite database; each method is one request. */
  class GoalStore {
    var goals: seq<GoalRow>
    var completed: seq<CompletedRow>
    var nextGoalId: nat
    var nextCompletedId: nat

    ghost function Snapshot(): Tables
      reads this
    {
      Tables(goals, completed, nextGoalId, nextCompletedId)
    }

    ghost predicate Valid()
      reads this
    {
      Consistent(Snapshot())
    }

    /** Freshly initialised, empty tables. */
    constructor ()
      ensures Valid()
      ensures goals == [] && completed == []
    {
      goals, completed := [], [];
      nextGoalId, nextCompletedId := 1, 1;
    }

    /** `index`: the active goals, in table order, each with the text of its
        derived status, and the completed rows copied unchanged. None when the
        request fails with an exception nothing catches: `fail` says that one
        of the two SELECTs raised a database error, and a stored deadline that
        does not parse raises `ValueError`, which a valid store rules out. */
    method Index(today: Date, fail: bool) returns (page: Option<Page>)
      ensures page.Some? <==> !fail && forall g :: g in goals ==> Parse(g.deadline).Some?
      ensures Valid() && !fail ==> page.Some?
      ensures page.Some? ==>
        && |page.value.active| == |goals|
        && (forall i :: 0 <= i < |goals| ==>
              page.value.active[i].id == goals[i].id
              && page.value.active[i].description == goals[i].description
              && Some(page.value.active[i].deadline) == Parse(goals[i].deadline)
              && page.value.active[i].status == Classify(page.value.active[i].deadline, today).Label())
        && page.value.completed == completed
    {
      if fail {
        return None;
      }
      var active: seq<ActiveGoal> := [];
      var i := 0;
      while i < |goals|
        invariant 0 <= i <= |goals|
        invariant |active| == i
        invariant forall k :: 0 <= k < i ==> Parse(goals[k].deadline).Some?
        invariant forall k :: 0 <= k < i ==>
          active[k] == ActiveGoal(goals[k].id, goals[k].description, Parse(goals[k].deadline).value,
                                  Classify(Parse(goals[k].deadline).value, today).Label())
      {
        var row := goals[i];
        var deadline := Parse(row.deadline);
        if deadline.None? {
          return None;
        }
        var status := Classify(deadline.value, today).Label();
        active := active + [ActiveGoal(row.id, row.description, deadline.value, status)];
        i := i + 1;
      }
      var done: seq<CompletedRow> := [];
      if completed != [] {
        for j := 0 to |completed|
          invariant done == completed[..j]
        {
          var row := completed[j];
          done := done + [CompletedRow(row.id, row.description, row.deadline, row.completionDate)];
        }
      }
      page := Some(Page(active, done));
    }

    /** `add_goal` (POST): the deadline is parsed first; if it parses one row
        is inserted and committed and the browser is redirected, otherwise
        nothing is written and the answer is "Invalid date format". `fail`
        says that the INSERT or the commit raised a database error: that is no
        `ValueError`, so nothing catches it, the uncommitted insert is dropped
        when the connection closes, and the request fails. */
    method AddGoal(description: string, deadlineText: string, fail: bool) returns (response: Response)
      requires Valid()
      modifies this
      ensures Valid()
      ensures match Parse(deadlineText)
        case Some(d) =>
          if fail then Snapshot() == old(Snapshot()) && response == ServerError
          else Snapshot() == Insert(old(Snapshot()), description, d) && response == RedirectToIndex
        case None => Snapshot() == old(Snapshot()) && response == PlainText(InvalidDateFormat)
    {
      match Parse(deadlineText)
      case None =>
        response := PlainText(InvalidDateFormat);
      case Some(deadline) =>
        InsertAppends(Snapshot(), description, deadline);
        var savedGoals, savedNext := goals, nextGoalId;
        goals := goals + [GoalRow(nextGoalId, description, Format(deadline))];
        nextGoalId := nextGoalId + 1;
        if fail {
          // never committed: closing the connection discards the insert
          goals, nextGoalId := savedGoals, savedNext;
          response := ServerError;
        } else {
          response := RedirectToIndex;
        }
    }

    /** `complete_goal(goal_id)`: copy the goal into the completed table with
        today's date and delete it, in one transaction that a database error
        (`fail`) rolls back; the browser is redirected in every case. */
    method CompleteGoal(goalId: int, today: Date, fail: bool) returns (response: Response)
      requires Valid() && ValidDate(today)
      modifies this
      ensures Valid()
      ensures Snapshot() == Complete(old(Snapshot()), goalId, today, fail)
      ensures response == RedirectToIndex
    {
      CompleteKeepsConsistent(Snapshot(), goalId, today, fail);
      var goal := Find(goals, goalId);
      if goal.Some? {
        var savedGoals, savedCompleted, savedNext := goals, completed, nextCompletedId;
        completed := completed + [CompletedRow(nextCompletedId, goal.value.description, goal.value.deadline, Format(today))];
        nextCompletedId := nextCompletedId + 1;
        goals := DeleteId(goals, goalId);
        if fail {
          // rollback
          goals, completed, nextCompletedId := savedGoals, savedCompleted, savedNext;
        }
      }
      response := RedirectToIndex;
    }
  }
}
