/**
 * The countdown page's search for the next meeting. Dates are day numbers
 * (already parsed from their `%Y-%m-%d` text) and `today` is a parameter.
 */
module Countdown {

  import opened Wrappers

  /** A row of the meetings table. */
  datatype Meeting = Meeting(id: int, location: string, start: int, end: int)

  /** The order `ORDER BY start_date ASC` delivers the rows in. */
  ghost predicate SortedByStart(meetings: seq<Meeting>) {
    forall i, j :: 0 <= i < j < |meetings| ==> meetings[i].start <= meetings[j].start
  }

  /** The index of the first meeting that starts on or after `today`, if any. */
  function FirstUpcoming(meetings: seq<Meeting>, today: int): (r: Option<nat>)
    ensures r.None? <==> forall j :: 0 <= j < |meetings| ==> meetings[j].start < today
    ensures r.Some? ==> r.value < |meetings| && meetings[r.value].start >= today
    ensures r.Some? ==> forall j :: 0 <= j < r.value ==> meetings[j].start < today
  {
    if meetings == [] then None
    else if meetings[0].start >= today then Some(0)
    else match FirstUpcoming(meetings[1..], today)
      case None => None
      case Some(k) => Some(k + 1)
  }

  /**
   * The scan of the countdown handler: walk the meetings in order and stop at
   * the first one starting on or after today; report it and the number of
   * days until it begins, or nothing for both.
   */
  method NextMeeting(meetings: seq<Meeting>, today: int) returns (next: Option<Meeting>, daysUntil: Option<int>)
    ensures FirstUpcoming(meetings, today).None? ==> next == None && daysUntil == None
    ensures FirstUpcoming(meetings, today).Some? ==>
      && next == Some(meetings[FirstUpcoming(meetings, today).value])
      && daysUntil == Some(next.value.start - today)
    ensures daysUntil.Some? ==> daysUntil.value >= 0
  {
    next, daysUntil := None, None;
    for i := 0 to |meetings|
      invariant forall j :: 0 <= j < i ==> meetings[j].start < today
      invariant next == None && daysUntil == None
    {
      var m := meetings[i];
      if m.start >= today {
        next := Some(m);
        daysUntil := Some(m.start - today);
        break;
      }
    }
  }

  /**
   * With the meetings in start-date order, the first upcoming meeting is the
   * nearest one: no upcoming meeting starts before it.
   */
  lemma FirstUpcomingIsNearest(meetings: seq<Meeting>, today: int)
    requires SortedByStart(meetings)
    requires FirstUpcoming(meetings, today).Some?
    ensures forall j :: 0 <= j < |meetings| && meetings[j].start >= today ==>
                          meetings[FirstUpcoming(meetings, today).value].start <= meetings[j].start
  {
  }
}
