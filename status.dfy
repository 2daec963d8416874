/** The status an active goal is shown with, derived from its deadline and
    the current date; never stored. */
module GoalStatus {
  import opened Dates

  datatype Status = PastDue | DueToday | Upcoming {
    /** The text the page shows for this status. */
    function Label(): string {
      match this
      case PastDue => "Past Due"
      case DueToday => "Due Today"
      case Upcoming => "Upcoming"
    }
  }

  /** Status of a goal with deadline `deadline` on day `today`: exactly one
      of the three, chosen by how the deadline compares with today. */
  function Classify(deadline: Date, today: Date): (s: Status)
    ensures s == PastDue <==> Before(deadline, today)
    ensures s == DueToday <==> deadline == today
    ensures s == Upcoming <==> Before(today, deadline)
  {
    if Before(deadline, today) then PastDue
    else if deadline == today then DueToday
    else Upcoming
  }
}
