/** The administrator's shift routes: POST `/shifts` validates a requested
    shift against the employee's availability and existing shifts and then
    inserts it; DELETE `/shifts/:shiftId` removes one shift. */
module AdminRoutes {
  import opened Intervals
  import opened Seqs
  import opened Schema
  import opened SchedulingStore

  /** The body of POST `/shifts`. The timezone is received but never used. */
  datatype ShiftRequest = ShiftRequest(
    username: string,
    date: string,
    startTime: Instant,
    endTime: Instant,
    timezone: string)

  /** Why a shift is refused, each answered with status 400. */
  datatype Rejection = NoAvailability | OutsideAvailability | OverlapsExistingShift
  {
    function Message(): string
    {
      match this
      case NoAvailability => "No availability found for the user on the specified date"
      case OutsideAvailability => "Shift is outside of the employee's availability"
      case OverlapsExistingShift => "Shift overlaps with an existing shift"
    }
  }

  datatype CreateShiftResponse = Created(shift: Shift) | Rejected(reason: Rejection)
  {
    function Status(): int
    {
      if Created? then 201 else 400
    }
  }

  datatype DeleteShiftResponse = Deleted | ShiftNotFound
  {
    function Status(): int
    {
      if Deleted? then 200 else 404
    }
  }

  /** The `$or` of the overlap query, for an existing shift [es, ee] and the
      requested [start, end]: either they cross, or the existing one lies
      inside the request. */
  predicate OverlapQuery(es: Instant, ee: Instant, start: Instant, end: Instant)
  {
    (es < end && ee > start) || (es >= start && ee <= end)
  }

  /** The query `{ username, date }` on shifts. */
  function ShiftInSlot(username: string, date: string): Shift -> bool
  {
    (s: Shift) => s.username == username && s.date == date
  }

  /** The whole overlap query: same username, same date, and the `$or`. */
  function ConflictsWith(req: ShiftRequest): Shift -> bool
  {
    (s: Shift) => s.username == req.username && s.date == req.date
                  && OverlapQuery(s.startTime, s.endTime, req.startTime, req.endTime)
  }

  /** The checks of POST `/shifts` in their order; `None` means the shift is
      accepted. Only the first availability found for the username and date
      is consulted. */
  function ShiftRejection(avails: seq<Availability>, shifts: seq<Shift>, req: ShiftRequest): Option<Rejection>
  {
    match FindFirst(AvailabilityOf(req.username, req.date), avails)
    case None => Some(NoAvailability)
    case Some(i) =>
      if req.startTime < avails[i].startTime || req.endTime > avails[i].endTime then
        Some(OutsideAvailability)
      else if FindFirst(ConflictsWith(req), shifts).Some? then
        Some(OverlapsExistingShift)
      else
        None
  }

  /** The shift that an accepted request stores. */
  function NewShift(id: Id, req: ShiftRequest): Shift
  {
    Shift(id, req.username, req.date, req.startTime, req.endTime)
  }

  /** A request is refused for lack of availability exactly when the store
      has no availability for that username and date. */
  lemma NoAvailabilityIff(avails: seq<Availability>, shifts: seq<Shift>, req: ShiftRequest)
    ensures ShiftRejection(avails, shifts, req) == Some(NoAvailability)
        <==> forall a :: a in avails ==> !(a.username == req.username && a.date == req.date)
  {
  }

  /** An accepted shift lies inside an availability of the same employee and
      date, bounds inclusive. */
  lemma AcceptedShiftWithinAvailability(avails: seq<Availability>, shifts: seq<Shift>, req: ShiftRequest)
    requires ShiftRejection(avails, shifts, req) == None
    ensures exists a :: a in avails && a.username == req.username && a.date == req.date
                        && Within(a.startTime, a.endTime, req.startTime, req.endTime)
  {
    var i := FindFirst(AvailabilityOf(req.username, req.date), avails).value;
    assert avails[i] in avails;
  }

  /** A shift may start and end exactly on the bounds of the availability:
      with no shift yet for the employee and date, such a request is accepted. */
  lemma ShiftOnAvailabilityBoundsAccepted(avails: seq<Availability>, shifts: seq<Shift>, req: ShiftRequest, i: nat)
    requires FindFirst(AvailabilityOf(req.username, req.date), avails) == Some(i)
    requires req.startTime == avails[i].startTime && req.endTime == avails[i].endTime
    requires forall s :: s in shifts ==> s.username != req.username || s.date != req.date
    ensures ShiftRejection(avails, shifts, req) == None
  {
  }

  /** The containment test rejects exactly the requests not within the first
      matching availability. */
  lemma OutsideAvailabilityIff(avails: seq<Availability>, shifts: seq<Shift>, req: ShiftRequest)
    ensures ShiftRejection(avails, shifts, req) == Some(OutsideAvailability)
        <==> exists i :: FindFirst(AvailabilityOf(req.username, req.date), avails) == Some(i)
                         && !Within(avails[i].startTime, avails[i].endTime, req.startTime, req.endTime)
  {
  }

  /** The first `$or` clause is the half-open overlap of the two windows. */
  lemma FirstClauseIsHalfOpenOverlap(es: Instant, ee: Instant, start: Instant, end: Instant)
    ensures (es < end && ee > start) <==> HalfOpenOverlap(es, ee, start, end)
  {
  }

  /** For an existing shift with start < end, the second `$or` clause adds
      nothing: it implies the first. */
  lemma SecondClauseImplied(es: Instant, ee: Instant, start: Instant, end: Instant)
    requires es < ee
    requires es >= start && ee <= end
    ensures es < end && ee > start
  {
  }

  /** So against a non-empty existing shift the query is the half-open overlap. */
  lemma OverlapQueryIsHalfOpen(es: Instant, ee: Instant, start: Instant, end: Instant)
    requires es < ee
    ensures OverlapQuery(es, ee, start, end) <==> HalfOpenOverlap(es, ee, start, end)
  {
  }

  /** A non-empty existing shift that ends exactly at the requested start, or
      starts exactly at the requested end, is no conflict. */
  lemma TouchingShiftsDoNotConflict(es: Instant, ee: Instant, start: Instant, end: Instant)
    requires es < ee
    requires ee == start || es == end
    ensures !OverlapQuery(es, ee, start, end)
  {
    OverlapQueryIsHalfOpen(es, ee, start, end);
    if ee == start {
      TouchingDoNotOverlap(es, ee, end);
    } else {
      TouchingDoNotOverlap(start, es, ee);
    }
  }

  /** When the request passes the availability checks and every stored shift
      is non-empty, it is refused as overlapping exactly when some shift of
      the same employee and date overlaps it (half-open). */
  lemma OverlapRejectionIff(avails: seq<Availability>, shifts: seq<Shift>, req: ShiftRequest)
    requires forall s :: s in shifts ==> s.startTime < s.endTime
    requires ShiftRejection(avails, [], req) == None
    ensures ShiftRejection(avails, shifts, req) == Some(OverlapsExistingShift)
        <==> exists s :: s in shifts && s.username == req.username && s.date == req.date
                         && HalfOpenOverlap(s.startTime, s.endTime, req.startTime, req.endTime)
  {
    if ShiftRejection(avails, shifts, req) == Some(OverlapsExistingShift) {
      var j := FindFirst(ConflictsWith(req), shifts).value;
      assert shifts[j] in shifts;
      OverlapQueryIsHalfOpen(shifts[j].startTime, shifts[j].endTime, req.startTime, req.endTime);
    }
  }

  /** Checks run in order: a missing or non-containing availability decides
      the answer whatever shifts exist. */
  lemma AvailabilityChecksComeFirst(avails: seq<Availability>, shifts: seq<Shift>, others: seq<Shift>, req: ShiftRequest)
    requires ShiftRejection(avails, shifts, req) in {Some(NoAvailability), Some(OutsideAvailability)}
    ensures ShiftRejection(avails, others, req) == ShiftRejection(avails, shifts, req)
  {
  }

  /** Shifts of other employees or other dates never change the answer,
      wherever they stand in the collection: only the requester's shifts on
      the requested date are consulted. */
  lemma {:induction false} OtherSlotsNeverBlock(avails: seq<Availability>, shifts: seq<Shift>, req: ShiftRequest)
    ensures ShiftRejection(avails, shifts, req)
         == ShiftRejection(avails, Filter(ShiftInSlot(req.username, req.date), shifts), req)
  {
    var conflicts := ConflictsWith(req);
    var mine := Filter(ShiftInSlot(req.username, req.date), shifts);
    if FindFirst(conflicts, shifts).Some? {
      var s := shifts[FindFirst(conflicts, shifts).value];
      assert s in shifts && conflicts(s);
      assert s in mine;
    }
  }

  /** The store's shifts stay pairwise non-overlapping when an accepted
      request is inserted under a fresh id. */
  lemma AcceptKeepsNoOverlap(avails: seq<Availability>, shifts: seq<Shift>, req: ShiftRequest, id: Id)
    requires NoOverlappingShifts(shifts)
    requires ShiftRejection(avails, shifts, req) == None
    requires forall s :: s in shifts ==> s.id != id
    ensures NoOverlappingShifts(shifts + [NewShift(id, req)])
  {
    var n := NewShift(id, req);
    forall s | s in shifts && SameSlot(s, n)
      ensures !HalfOpenOverlap(s.startTime, s.endTime, n.startTime, n.endTime)
    {
      assert !ConflictsWith(req)(s);
    }
  }

  /** A shift whose start is after its end passes as long as both endpoints
      lie inside the availability: no check compares the two. */
  lemma ReversedShiftAccepted()
    ensures ShiftRejection(
              [Availability(0, "ann", "2024-03-04", 0, 10 * HOUR_MS, "UTC")],
              [],
              ShiftRequest("ann", "2024-03-04", 8 * HOUR_MS, 2 * HOUR_MS, "UTC")) == None
  {
  }

  /** POST `/shifts`. */
  method CreateShift(store: Store, req: ShiftRequest) returns (res: CreateShiftResponse)
    requires store.Valid()
    modifies store
    ensures store.Valid()
    ensures store.availabilities == old(store.availabilities)
    ensures res.Rejected? <==> ShiftRejection(old(store.availabilities), old(store.shifts), req).Some?
    ensures res.Rejected? ==>
              && Some(res.reason) == ShiftRejection(old(store.availabilities), old(store.shifts), req)
              && store.shifts == old(store.shifts)
              && store.nextId == old(store.nextId)
    ensures res.Created? ==>
              && res.shift == NewShift(old(store.nextId), req)
              && store.shifts == old(store.shifts) + [res.shift]
  {
    var shiftStart := req.startTime;
    var shiftEnd := req.endTime;

    var found := FindFirst(AvailabilityOf(req.username, req.date), store.availabilities);
    if found.None? {
      return Rejected(NoAvailability);
    }
    var availability := store.availabilities[found.value];

    if shiftStart < availability.startTime || shiftEnd > availability.endTime {
      return Rejected(OutsideAvailability);
    }

    var overlapping := FindFirst(ConflictsWith(req), store.shifts);
    if overlapping.Some? {
      return Rejected(OverlapsExistingShift);
    }

    var newShift := NewShift(store.nextId, req);
    AcceptKeepsNoOverlap(store.availabilities, store.shifts, req, store.nextId);
    store.shifts := store.shifts + [newShift];
    store.nextId := store.nextId + 1;
    res := Created(newShift);
  }

  /** DELETE `/shifts/:shiftId`. */
  method DeleteShift(store: Store, shiftId: Id) returns (res: DeleteShiftResponse)
    requires store.Valid()
    modifies store
    ensures store.Valid()
    ensures store.availabilities == old(store.availabilities)
    ensures res.Deleted? <==> exists s :: s in old(store.shifts) && s.id == shiftId
    ensures store.shifts == RemoveShiftById(old(store.shifts), shiftId)
    ensures res.ShiftNotFound? ==> store.shifts == old(store.shifts)
  {
    RemoveShiftByIdSpec(store.shifts, shiftId);
    var found := FindFirst((s: Shift) => s.id == shiftId, store.shifts);
    if found.None? {
      return ShiftNotFound;
    }
    var i := found.value;
    RemoveShiftAt(store.shifts, i);
    RemoveAtKeepsDistinctIds(store.shifts, i);
    RemoveShiftKeepsNoOverlap(store.shifts, shiftId);
    store.shifts := store.shifts[..i] + store.shifts[i + 1..];
    res := Deleted;
  }
}
