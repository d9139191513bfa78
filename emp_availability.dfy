/** The employee's availability page: submitting a window (overnight rule,
    4-hour minimum, overlap with the windows already listed), marking the
    windows a shift falls into, and deleting unassigned windows. */
module EmpAvailability {
  import opened Intervals
  import opened Seqs
  import opened Schema

  const MIN_AVAILABILITY_MS: int := 4 * 60 * 60 * 1000

  /** The form: a date, two "HH:mm" inputs and a timezone. `dayStart` is the
      instant at which the date begins; the times are offsets from it. */
  datatype AvailabilityForm = AvailabilityForm(
    username: string,
    date: string,
    dayStart: Instant,
    startTime: TimeOfDay,
    endTime: TimeOfDay,
    timezone: string)

  /** What a submission leads to: a refusal shown to the user, or a POST. */
  datatype SubmitDecision = TooShort | Overlapping | Send(body: AvailabilityRequest)

  /** The instant the window starts. */
  function WindowStart(form: AvailabilityForm): Instant
  {
    form.dayStart + form.startTime
  }

  /** The instant the window ends: an end time not after the start time means
      the window runs into the next day. */
  function WindowEnd(form: AvailabilityForm): Instant
  {
    if form.endTime <= form.startTime then form.dayStart + form.endTime + DAY_MS
    else form.dayStart + form.endTime
  }

  /** The normalised window is non-empty and at most a day long; its end is
      the end time on the same day when that is after the start, and exactly
      one day later otherwise. */
  lemma WindowIsNormalised(form: AvailabilityForm)
    ensures WindowStart(form) < WindowEnd(form) <= WindowStart(form) + DAY_MS
    ensures form.startTime < form.endTime ==> WindowEnd(form) == form.dayStart + form.endTime
    ensures form.endTime <= form.startTime ==> WindowEnd(form) == form.dayStart + form.endTime + DAY_MS
  {
  }

  /** Equal start and end times give a 24-hour window, which is long enough. */
  lemma EqualTimesGiveFullDay(form: AvailabilityForm)
    requires form.startTime == form.endTime
    ensures WindowEnd(form) - WindowStart(form) == DAY_MS
    ensures WindowEnd(form) - WindowStart(form) >= MIN_AVAILABILITY_MS
  {
  }

  /** The window is shorter than the 4-hour minimum. */
  predicate TooShortWindow(form: AvailabilityForm)
  {
    WindowEnd(form) - WindowStart(form) < MIN_AVAILABILITY_MS
  }

  /** The page's overlap test of the new window [start, end] against an
      existing one [es, ee]. */
  predicate ThreeClauseOverlap(start: Instant, end: Instant, es: Instant, ee: Instant)
  {
    (start >= es && start < ee) || (end > es && end <= ee) || (start <= es && end >= ee)
  }

  /** For non-empty windows the three clauses say exactly that the half-open
      windows share an instant. */
  lemma ThreeClauseIsHalfOpen(start: Instant, end: Instant, es: Instant, ee: Instant)
    requires start < end && es < ee
    ensures ThreeClauseOverlap(start, end, es, ee) <==> HalfOpenOverlap(start, end, es, ee)
  {
  }

  /** Hence the test is symmetric on non-empty windows ... */
  lemma ThreeClauseSymmetric(start: Instant, end: Instant, es: Instant, ee: Instant)
    requires start < end && es < ee
    ensures ThreeClauseOverlap(start, end, es, ee) <==> ThreeClauseOverlap(es, ee, start, end)
  {
    ThreeClauseIsHalfOpen(start, end, es, ee);
    ThreeClauseIsHalfOpen(es, ee, start, end);
    OverlapSymmetric(start, end, es, ee);
  }

  /** ... and windows that only touch do not clash. */
  lemma ThreeClauseTouching(start: Instant, end: Instant, es: Instant, ee: Instant)
    requires start < end && es < ee
    requires end == es || ee == start
    ensures !ThreeClauseOverlap(start, end, es, ee)
  {
    ThreeClauseIsHalfOpen(start, end, es, ee);
    if end == es {
      TouchingDoNotOverlap(start, end, ee);
    } else {
      TouchingDoNotOverlap(es, start, end);
    }
  }

  /** An existing entry blocks the new window only on the same date string. */
  function ClashesWith(date: string, start: Instant, end: Instant): Availability -> bool
  {
    (a: Availability) => a.date == date && ThreeClauseOverlap(start, end, a.startTime, a.endTime)
  }

  /** Entries on other dates never block a submission, wherever they are listed. */
  lemma {:induction false} OtherDatesNeverBlock(existing: seq<Availability>, date: string, start: Instant, end: Instant)
    ensures Any(ClashesWith(date, start, end), existing)
         == Any(ClashesWith(date, start, end), Filter((a: Availability) => a.date == date, existing))
  {
    var sameDate := (a: Availability) => a.date == date;
    if Any(ClashesWith(date, start, end), existing) {
      var a :| a in existing && ClashesWith(date, start, end)(a);
      assert a in Filter(sameDate, existing);
    }
  }

  /** `handleSubmit` up to the POST: normalise the window, refuse it when
      shorter than 4 hours, then refuse it when it clashes with an entry
      already listed, and otherwise build the request body. */
  method CheckSubmission(existing: seq<Availability>, form: AvailabilityForm) returns (d: SubmitDecision)
    ensures d.TooShort? <==> TooShortWindow(form)
    ensures d.Overlapping? <==>
              && !TooShortWindow(form)
              && exists a :: a in existing && a.date == form.date
                             && ThreeClauseOverlap(WindowStart(form), WindowEnd(form), a.startTime, a.endTime)
    ensures d.Send? ==>
              && d.body == AvailabilityRequest(form.username, form.date, WindowStart(form), WindowEnd(form), form.timezone)
              && d.body.endTime - d.body.startTime >= MIN_AVAILABILITY_MS
  {
    var startDateTime := form.dayStart + form.startTime;
    var endDateTime := form.dayStart + form.endTime;

    if endDateTime <= startDateTime {
      endDateTime := endDateTime + DAY_MS;
    }

    if endDateTime - startDateTime < MIN_AVAILABILITY_MS {
      return TooShort;
    }

    var isOverlapping := Any(ClashesWith(form.date, startDateTime, endDateTime), existing);
    if isOverlapping {
      return Overlapping;
    }

    d := Send(AvailabilityRequest(form.username, form.date, startDateTime, endDateTime, form.timezone));
  }

  /** `isShiftAssigned`: some shift on the same date lies inside the window,
      bounds inclusive. */
  function ShiftAssigned(shifts: seq<Shift>, avail: Availability): (b: bool)
    ensures b <==> exists s :: s in shifts && s.date == avail.date
                              && Within(avail.startTime, avail.endTime, s.startTime, s.endTime)
  {
    Any((s: Shift) => s.date == avail.date && s.startTime >= avail.startTime && s.endTime <= avail.endTime, shifts)
  }

  /** A shift spanning exactly the window counts as assigned to it. */
  lemma ExactShiftIsAssigned(shifts: seq<Shift>, avail: Availability, s: Shift)
    requires s in shifts
    requires s.date == avail.date && s.startTime == avail.startTime && s.endTime == avail.endTime
    ensures ShiftAssigned(shifts, avail)
  {
    WithinReflexive(avail.startTime, avail.endTime);
  }

  /** The page's state. */
  class AvailabilityPage {
    var createdAvailability: seq<Availability>
    var assignedShifts: seq<Shift>
    var error: string

    constructor ()
      ensures createdAvailability == [] && assignedShifts == [] && error == ""
    {
      createdAvailability := [];
      assignedShifts := [];
      error := "";
    }

    /** `handleSubmit`. `postSucceeded` is the outcome of the POST, made only
        for a `Send` decision; success clears the error. */
    method HandleSubmit(form: AvailabilityForm, postSucceeded: bool) returns (d: SubmitDecision)
      modifies this`error
      ensures d.TooShort? <==> TooShortWindow(form)
      ensures d.Overlapping? <==>
                && !TooShortWindow(form)
                && exists a :: a in createdAvailability && a.date == form.date
                               && ThreeClauseOverlap(WindowStart(form), WindowEnd(form), a.startTime, a.endTime)
      ensures d.Send? ==>
                d.body == AvailabilityRequest(form.username, form.date, WindowStart(form), WindowEnd(form), form.timezone)
      ensures error == if d.Send? && postSucceeded then "" else old(error)
    {
      d := CheckSubmission(createdAvailability, form);
      if d.Send? && postSucceeded {
        error := "";
      }
    }

    function IsShiftAssigned(avail: Availability): bool
      reads this
    {
      ShiftAssigned(assignedShifts, avail)
    }

    /** `handleDeleteAvailability`: the list changes only after the server
        delete succeeds. */
    method HandleDeleteAvailability(availabilityId: Id, deleteSucceeded: bool)
      modifies this`createdAvailability, this`error
      ensures deleteSucceeded ==>
                createdAvailability == RemoveAvailabilityById(old(createdAvailability), availabilityId)
                && error == old(error)
      ensures !deleteSucceeded ==>
                createdAvailability == old(createdAvailability) && error == "Failed to delete availability"
    {
      if deleteSucceeded {
        createdAvailability := RemoveAvailabilityById(createdAvailability, availabilityId);
      } else {
        error := "Failed to delete availability";
      }
    }

    /** A click on the Delete button of row `k`: the button of a window with
        an assigned shift has no handler. */
    method ClickDelete(k: nat, deleteSucceeded: bool)
      requires k < |createdAvailability|
      modifies this`createdAvailability, this`error
      ensures old(IsShiftAssigned(createdAvailability[k])) ==>
                createdAvailability == old(createdAvailability) && error == old(error)
      ensures !old(IsShiftAssigned(createdAvailability[k])) && deleteSucceeded ==>
                createdAvailability == RemoveAvailabilityById(old(createdAvailability), old(createdAvailability[k].id))
                && error == old(error)
      ensures !old(IsShiftAssigned(createdAvailability[k])) && !deleteSucceeded ==>
                createdAvailability == old(createdAvailability) && error == "Failed to delete availability"
    {
      var avail := createdAvailability[k];
      if !IsShiftAssigned(avail) {
        HandleDeleteAvailability(avail.id, deleteSucceeded);
      }
    }
  }
}
