/** The employee routes: POST `/availability` upserts the window for a
    username and date; GET `/myavailability` and GET `/shifts` return the
    requester's records; POST `/selectavailability` returns the windows that
    contain a requested range. */
module EmployeeRoutes {
  import opened Intervals
  import opened Seqs
  import opened Schema
  import opened SchedulingStore

  datatype SaveResponse = Saved | ServerError
  {
    function Status(): int
    {
      if Saved? then 201 else 500
    }
  }

  datatype ShiftsResponse = ShiftList(shifts: seq<Shift>) | UsernameRequired
  {
    function Status(): int
    {
      if ShiftList? then 200 else 400
    }
  }

  /** The stored record for a request that found no existing one. */
  function NewAvailability(id: Id, req: AvailabilityRequest): Availability
  {
    Availability(id, req.username, req.date, req.startTime, req.endTime, req.timezone)
  }

  /** The schema marks `username`, `date` and `timezone` as required, and
      the required check refuses an empty string. */
  predicate HasRequiredFields(a: Availability)
  {
    a.username != "" && a.date != "" && a.timezone != ""
  }

  /** The effect of POST `/availability` on the collection; `None` is the
      failed save (status 500). A record found for the username and date has
      its fields overwritten; otherwise a new record is saved, which the
      unique index on `username` refuses when the username already has a
      record (for another date). Either save is refused when a required
      field is empty. No duration or overlap is checked. */
  function Upsert(avails: seq<Availability>, req: AvailabilityRequest, freshId: Id): Option<seq<Availability>>
  {
    if !HasRequiredFields(NewAvailability(freshId, req)) then None
    else
    match FindFirst(AvailabilityOf(req.username, req.date), avails)
    case Some(i) =>
      Some(avails[i := avails[i].(username := req.username, date := req.date,
                                  startTime := req.startTime, endTime := req.endTime,
                                  timezone := req.timezone)])
    case None =>
      if Any(AvailabilityOwnedBy(req.username), avails) then None
      else Some(avails + [NewAvailability(freshId, req)])
  }

  /** The save fails exactly when a required field is empty, or when there
      is no record for the username and date but the username already has a
      record. */
  lemma UpsertFailsIff(avails: seq<Availability>, req: AvailabilityRequest, freshId: Id)
    ensures Upsert(avails, req, freshId).None?
        <==> || req.username == "" || req.date == "" || req.timezone == ""
             || ((forall a :: a in avails ==> !(a.username == req.username && a.date == req.date))
                 && exists a :: a in avails && a.username == req.username)
  {
  }

  /** After a successful save the record for the username and date holds the
      submitted window and timezone, and every record under another key is
      left where it was, unchanged. An existing record is overwritten in
      place: nothing is added and every position keeps its id. Otherwise the
      new record is appended under the fresh id. */
  lemma UpsertStoresRequest(avails: seq<Availability>, req: AvailabilityRequest, freshId: Id)
    requires Upsert(avails, req, freshId).Some?
    ensures var r := Upsert(avails, req, freshId).value;
      && (exists k :: 0 <= k < |r| && r[k].username == req.username && r[k].date == req.date
                      && r[k].startTime == req.startTime && r[k].endTime == req.endTime
                      && r[k].timezone == req.timezone)
      && (forall i :: 0 <= i < |avails| && !(avails[i].username == req.username && avails[i].date == req.date)
                      ==> r[i] == avails[i])
    ensures var r := Upsert(avails, req, freshId).value;
      (exists a :: a in avails && a.username == req.username && a.date == req.date) ==>
        && |r| == |avails|
        && (forall i :: 0 <= i < |avails| ==> r[i].id == avails[i].id)
        && exists k :: 0 <= k < |avails| && avails[k].username == req.username && avails[k].date == req.date
                       && r == avails[k := avails[k].(startTime := req.startTime, endTime := req.endTime,
                                                      timezone := req.timezone)]
    ensures (forall a :: a in avails ==> !(a.username == req.username && a.date == req.date)) ==>
              Upsert(avails, req, freshId).value == avails + [NewAvailability(freshId, req)]
  {
    var r := Upsert(avails, req, freshId).value;
    match FindFirst(AvailabilityOf(req.username, req.date), avails)
    case Some(i) =>
      assert r[i].username == req.username && r[i].date == req.date;
      assert r == avails[i := avails[i].(startTime := req.startTime, endTime := req.endTime,
                                         timezone := req.timezone)];
    case None =>
      assert r[|avails|] == NewAvailability(freshId, req);
  }

  /** The unique index is kept, so after a save there is exactly one record
      for the username and date. */
  lemma UpsertKeepsOnePerUser(avails: seq<Availability>, req: AvailabilityRequest, freshId: Id)
    requires OneAvailabilityPerUser(avails)
    requires Upsert(avails, req, freshId).Some?
    ensures OneAvailabilityPerUser(Upsert(avails, req, freshId).value)
    ensures var r := Upsert(avails, req, freshId).value;
      forall i, j ::
        (0 <= i < |r| && 0 <= j < |r|
         && r[i].username == req.username && r[i].date == req.date
         && r[j].username == req.username && r[j].date == req.date) ==> i == j
  {
    var r := Upsert(avails, req, freshId).value;
    match FindFirst(AvailabilityOf(req.username, req.date), avails)
    case Some(k) =>
      assert forall i :: 0 <= i < |r| ==> r[i].username == avails[i].username;
    case None =>
      assert forall a :: a in avails ==> a.username != req.username;
      forall i, j | 0 <= i < j < |r| ensures r[i].username != r[j].username {
        if j == |avails| {
          assert avails[i] in avails;
        }
      }
  }

  /** Posting the same body twice leaves the collection as one post does. */
  lemma UpsertIdempotent(avails: seq<Availability>, req: AvailabilityRequest, freshId: Id, laterId: Id)
    requires Upsert(avails, req, freshId).Some?
    ensures Upsert(Upsert(avails, req, freshId).value, req, laterId) == Upsert(avails, req, freshId)
  {
    var r := Upsert(avails, req, freshId).value;
    var key := AvailabilityOf(req.username, req.date);
    match FindFirst(key, avails)
    case Some(i) =>
      assert forall j :: 0 <= j < i ==> r[j] == avails[j];
      FindFirstIsFirst(key, r, i);
      assert r[i := r[i].(username := req.username, date := req.date,
                          startTime := req.startTime, endTime := req.endTime,
                          timezone := req.timezone)] == r;
    case None =>
      assert r[|avails|] == NewAvailability(freshId, req);
      forall j | 0 <= j < |avails| ensures !key(r[j]) {
        assert avails[j] in avails;
      }
      FindFirstIsFirst(key, r, |avails|);
      assert r[|avails| := r[|avails|].(username := req.username, date := req.date,
                          startTime := req.startTime, endTime := req.endTime,
                          timezone := req.timezone)] == r;
  }

  /** Any window is saved, even one that ends before it starts. */
  lemma SavesAnyWindow()
    ensures Upsert([], AvailabilityRequest("ann", "2024-03-04", 9 * HOUR_MS, 8 * HOUR_MS, "UTC"), 0)
         == Some([Availability(0, "ann", "2024-03-04", 9 * HOUR_MS, 8 * HOUR_MS, "UTC")])
  {
    var req := AvailabilityRequest("ann", "2024-03-04", 9 * HOUR_MS, 8 * HOUR_MS, "UTC");
    assert FindFirst(AvailabilityOf(req.username, req.date), []) == None;
    assert !Any(AvailabilityOwnedBy(req.username), []);
    assert [] + [NewAvailability(0, req)] == [NewAvailability(0, req)];
  }

  /** POST `/availability`. */
  method PostAvailability(store: Store, req: AvailabilityRequest) returns (res: SaveResponse)
    requires store.Valid()
    modifies store
    ensures store.Valid()
    ensures store.shifts == old(store.shifts)
    ensures res.Saved? <==> Upsert(old(store.availabilities), req, old(store.nextId)).Some?
    ensures res.Saved? ==> store.availabilities == Upsert(old(store.availabilities), req, old(store.nextId)).value
    ensures res.ServerError? ==> store.availabilities == old(store.availabilities)
  {
    var found := FindFirst(AvailabilityOf(req.username, req.date), store.availabilities);
    if found.Some? {
      var availability := store.availabilities[found.value];
      availability := availability.(username := req.username);
      availability := availability.(date := req.date);
      availability := availability.(startTime := req.startTime);
      availability := availability.(endTime := req.endTime);
      availability := availability.(timezone := req.timezone);
      if !HasRequiredFields(availability) {
        return ServerError;
      }
      UpsertKeepsOnePerUser(store.availabilities, req, store.nextId);
      store.availabilities := store.availabilities[found.value := availability];
      return Saved;
    }
    var availability := NewAvailability(store.nextId, req);
    if !HasRequiredFields(availability) {
      return ServerError;
    }
    if Any(AvailabilityOwnedBy(req.username), store.availabilities) {
      return ServerError;
    }
    UpsertKeepsOnePerUser(store.availabilities, req, store.nextId);
    store.availabilities := store.availabilities + [availability];
    store.nextId := store.nextId + 1;
    res := Saved;
  }

  /** GET `/myavailability`: the requester's records, in collection order. */
  function MyAvailability(avails: seq<Availability>, requester: string): (r: seq<Availability>)
    ensures forall a :: a in r <==> a in avails && a.username == requester
    ensures forall a :: a in avails && a.username == requester ==> multiset(r)[a] == multiset(avails)[a]
    ensures IsSubsequence(r, avails)
  {
    FilterIsSubsequence(AvailabilityOwnedBy(requester), avails);
    Filter(AvailabilityOwnedBy(requester), avails)
  }

  /** GET `/shifts` for an employee: the requester's shifts, or status 400
      when the requester is the empty username. */
  function EmployeeShifts(shifts: seq<Shift>, requester: string): (r: ShiftsResponse)
    ensures r.UsernameRequired? <==> requester == ""
    ensures r.ShiftList? ==> forall s :: s in r.shifts <==> s in shifts && s.username == requester
    ensures r.ShiftList? ==> forall s :: s in shifts && s.username == requester ==> multiset(r.shifts)[s] == multiset(shifts)[s]
    ensures r.ShiftList? ==> IsSubsequence(r.shifts, shifts)
  {
    var p := (s: Shift) => s.username == requester;
    FilterIsSubsequence(p, shifts);
    var found := Filter(p, shifts);
    if requester == "" then UsernameRequired else ShiftList(found)
  }

  /** POST `/selectavailability`: the records on `date` whose window contains
      [start, end], bounds inclusive. */
  function SelectAvailability(avails: seq<Availability>, date: string, start: Instant, end: Instant): (r: seq<Availability>)
    ensures forall a :: a in r <==> a in avails && a.date == date && Within(a.startTime, a.endTime, start, end)
    ensures forall a :: (a in avails && a.date == date && Within(a.startTime, a.endTime, start, end))
                          ==> multiset(r)[a] == multiset(avails)[a]
    ensures IsSubsequence(r, avails)
  {
    var p := (a: Availability) => a.date == date && a.startTime <= start && a.endTime >= end;
    FilterIsSubsequence(p, avails);
    Filter(p, avails)
  }

  /** A record is always selected by a query for its own date and window. */
  lemma SelectFindsExactWindow(avails: seq<Availability>, a: Availability)
    requires a in avails
    ensures a in SelectAvailability(avails, a.date, a.startTime, a.endTime)
  {
  }
}
