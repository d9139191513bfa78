/** The older availability page: it measures the window in whole hours with
    no overnight rule, and appends the server's reply to its list. */
module LegacyEmpAvailability {
  import opened Intervals
  import opened Seqs
  import opened Schema

  const MIN_WHOLE_HOURS: int := 4

  /** The form: a date, two "HH:mm" inputs and a timezone. Both times are read
      on the same (current) day, so only their offsets matter. */
  datatype LegacyForm = LegacyForm(
    username: string,
    date: string,
    startTime: TimeOfDay,
    endTime: TimeOfDay,
    timezone: string)

  /** `end.diff(start, "hours")`: the elapsed time in hours, truncated toward
      zero. */
  function WholeHoursBetween(start: Instant, end: Instant): (h: int)
    ensures start <= end ==> 0 <= h && h * HOUR_MS <= end - start < (h + 1) * HOUR_MS
    ensures end < start ==> h <= 0 && (h - 1) * HOUR_MS < end - start <= h * HOUR_MS
  {
    var elapsed := end - start;
    if elapsed >= 0 then elapsed / HOUR_MS else -((-elapsed) / HOUR_MS)
  }

  /** The window passes exactly when it is at least 4 hours long: 3h59m fails
      and 4h passes. */
  lemma {:induction false} AcceptedIffFourHours(start: Instant, end: Instant)
    ensures WholeHoursBetween(start, end) >= MIN_WHOLE_HOURS <==> end - start >= 4 * HOUR_MS
  {
    var h := WholeHoursBetween(start, end);
    if start <= end {
      if h >= MIN_WHOLE_HOURS {
        assert h * HOUR_MS >= 4 * HOUR_MS;
      }
      if end - start >= 4 * HOUR_MS {
        assert (h + 1) * HOUR_MS > 4 * HOUR_MS;
      }
    }
  }

  /** An end time earlier than the start time is always refused: there is no
      overnight rule here. */
  lemma ReversedTimesRefused(form: LegacyForm)
    requires form.endTime < form.startTime
    ensures WholeHoursBetween(form.startTime, form.endTime) < MIN_WHOLE_HOURS
  {
  }

  /** The page's state. */
  class LegacyAvailabilityPage {
    var createdAvailability: seq<Availability>
    var error: string

    constructor ()
      ensures createdAvailability == [] && error == ""
    {
      createdAvailability := [];
      error := "";
    }

    /** `handleSubmit`. `reply` is the outcome of the POST, made only when the
        window is long enough: the server's record, or `None` on failure. */
    method HandleSubmit(form: LegacyForm, reply: Option<Availability>) returns (posted: bool)
      modifies this`createdAvailability, this`error
      ensures posted <==> form.endTime - form.startTime >= 4 * HOUR_MS
      ensures !posted ==>
                createdAvailability == old(createdAvailability)
                && error == "Availability must be for at least 4 hours."
      ensures posted && reply.Some? ==>
                createdAvailability == old(createdAvailability) + [reply.value] && error == ""
      ensures posted && reply.None? ==>
                createdAvailability == old(createdAvailability) && error == "Failed to create availability"
    {
      AcceptedIffFourHours(form.startTime, form.endTime);
      if WholeHoursBetween(form.startTime, form.endTime) < MIN_WHOLE_HOURS {
        error := "Availability must be for at least 4 hours.";
        return false;
      }
      posted := true;
      match reply
      case Some(response) =>
        createdAvailability := createdAvailability + [response];
        error := "";
      case None =>
        error := "Failed to create availability";
    }
  }
}
