/** The first, in-memory version of the tracker: one process-wide list of
    goals that `add_goal` appends to and `index` re-stamps with a status. */
module MemoryGoals {
  import opened Common
  import opened Dates
  import opened GoalStatus

  /** A goal of the in-memory list. It has no id; its status text is absent
      until the index page has been shown once after it was added. */
  datatype Goal = Goal(description: string, deadline: Date, status: Option<string>)

  /** The goal with its status set for day `today`. */
  function Restamp(g: Goal, today: Date): Goal {
    g.(status := Some(Classify(g.deadline, today).Label()))
  }

  /** The list as `index` leaves it on day `today`. */
  function Refreshed(goals: seq<Goal>, today: Date): seq<Goal> {
    if goals == [] then [] else [Restamp(goals[0], today)] + Refreshed(goals[1..], today)
  }

  /** Refreshing keeps the length and order of the list and each goal's
      description and deadline, and gives every goal the status of the
      three-way rule. */
  lemma {:induction false} RefreshedAt(goals: seq<Goal>, today: Date, k: nat)
    requires k < |goals|
    ensures |Refreshed(goals, today)| == |goals|
    ensures Refreshed(goals, today)[k].description == goals[k].description
    ensures Refreshed(goals, today)[k].deadline == goals[k].deadline
    ensures Refreshed(goals, today)[k].status == Some(Classify(goals[k].deadline, today).Label())
  {
    if k > 0 {
      RefreshedAt(goals[1..], today, k - 1);
    } else if |goals| > 1 {
      RefreshedAt(goals[1..], today, 0);
    }
  }

  /** Every refresh overwrites the status it finds, so only the last date
      counts; in particular refreshing twice on the same day is the same as
      refreshing once. */
  lemma {:induction false} RefreshedLastWins(goals: seq<Goal>, earlier: Date, today: Date)
    ensures Refreshed(Refreshed(goals, earlier), today) == Refreshed(goals, today)
  {
    if goals != [] {
      RefreshedLastWins(goals[1..], earlier, today);
      assert Refreshed(goals, earlier)[1..] == Refreshed(goals[1..], earlier);
    }
  }

  /** A goal appended to the list is shown after the earlier goals, with the
      status of the three-way rule, and the earlier goals are shown as before. */
  lemma {:induction false} RefreshedAppend(goals: seq<Goal>, g: Goal, today: Date)
    ensures Refreshed(goals + [g], today) == Refreshed(goals, today) + [Restamp(g, today)]
  {
    if goals != [] {
      assert (goals + [g])[1..] == goals[1..] + [g];
      RefreshedAppend(goals[1..], g, today);
    }
  }

  /** The module-global `goals` list. */
  class GoalList {
    var goals: seq<Goal>

    constructor ()
      ensures goals == []
    {
      goals := [];
    }

    /** `index`: set the status of every goal in place, first to "Upcoming"
        and then, when the deadline has passed or is today, to "Past Due" or
        "Due Today". */
    method Index(today: Date)
      modifies this
      ensures goals == Refreshed(old(goals), today)
    {
      var i := 0;
      while i < |goals|
        invariant 0 <= i <= |goals| == |old(goals)|
        invariant forall k :: 0 <= k < i ==> goals[k] == Restamp(old(goals)[k], today)
        invariant forall k :: i <= k < |goals| ==> goals[k] == old(goals)[k]
      {
        goals := goals[i := goals[i].(status := Some(Upcoming.Label()))];
        if Before(goals[i].deadline, today) {
          goals := goals[i := goals[i].(status := Some(PastDue.Label()))];
        } else if goals[i].deadline == today {
          goals := goals[i := goals[i].(status := Some(DueToday.Label()))];
        }
        i := i + 1;
      }
      ghost var was := old(goals);
      if |goals| > 0 {
        RefreshedAt(was, today, 0);
      }
      forall k | 0 <= k < |goals| ensures goals[k] == Refreshed(was, today)[k] {
        RefreshedAt(was, today, k);
      }
    }

    /** `add_goal` (POST): with a deadline that parses, append one goal with
        that description and deadline and no status; otherwise leave the list
        alone and answer "Invalid date format". */
    method AddGoal(description: string, deadlineText: string) returns (response: Response)
      modifies this
      ensures match Parse(deadlineText)
        case Some(d) => goals == old(goals) + [Goal(description, d, None)] && response == RedirectToIndex
        case None => goals == old(goals) && response == PlainText(InvalidDateFormat)
    {
      match Parse(deadlineText)
      case None =>
        response := PlainText(InvalidDateFormat);
      case Some(deadline) =>
        goals := goals + [Goal(description, deadline, None)];
        response := RedirectToIndex;
    }
  }
}
