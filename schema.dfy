/** The two stored record kinds, Availability and Shift, and the facts about a
    whole collection of them that the rest of the model keeps: distinct ids,
    at most one availability per username (the schema's unique index), and no
    two overlapping shifts for one employee on one date. */
module Schema {
  import opened Intervals
  import opened Seqs

  /** A document id (`_id`). */
  type Id = nat

  /** An employee's declared window on one date. */
  datatype Availability = Availability(
    id: Id,
    username: string,
    date: string,
    startTime: Instant,
    endTime: Instant,
    timezone: string)

  /** A shift assigned by an administrator. */
  datatype Shift = Shift(
    id: Id,
    username: string,
    date: string,
    startTime: Instant,
    endTime: Instant)

  /** The body of an availability POST. */
  datatype AvailabilityRequest = AvailabilityRequest(
    username: string,
    date: string,
    startTime: Instant,
    endTime: Instant,
    timezone: string)

  /** Two shifts belong to the same employee and the same date string. */
  predicate SameSlot(a: Shift, b: Shift)
  {
    a.username == b.username && a.date == b.date
  }

  /** The query `{ username, date }`: the availability key. */
  function AvailabilityOf(username: string, date: string): Availability -> bool
  {
    (a: Availability) => a.username == username && a.date == date
  }

  /** The query `{ username }`. */
  function AvailabilityOwnedBy(username: string): Availability -> bool
  {
    (a: Availability) => a.username == username
  }

  /** The unique index on `username`: no two records share a username. */
  ghost predicate OneAvailabilityPerUser(avails: seq<Availability>)
  {
    forall i, j :: 0 <= i < j < |avails| ==> avails[i].username != avails[j].username
  }

  ghost predicate DistinctShiftIds(shifts: seq<Shift>)
  {
    forall i, j :: 0 <= i < j < |shifts| ==> shifts[i].id != shifts[j].id
  }

  /** No two different shifts of one employee on one date overlap. */
  ghost predicate NoOverlappingShifts(shifts: seq<Shift>)
  {
    forall a, b :: a in shifts && b in shifts && a.id != b.id && SameSlot(a, b) ==>
      !HalfOpenOverlap(a.startTime, a.endTime, b.startTime, b.endTime)
  }

  function ShiftIdIsNot(id: Id): Shift -> bool
  {
    (s: Shift) => s.id != id
  }

  function AvailabilityIdIsNot(id: Id): Availability -> bool
  {
    (a: Availability) => a.id != id
  }

  /** `shifts.filter(shift => shift._id !== id)`. */
  function RemoveShiftById(shifts: seq<Shift>, id: Id): seq<Shift>
  {
    Filter(ShiftIdIsNot(id), shifts)
  }

  /** `list.filter(availability => availability._id !== id)`. */
  function RemoveAvailabilityById(avails: seq<Availability>, id: Id): seq<Availability>
  {
    Filter(AvailabilityIdIsNot(id), avails)
  }

  /** Removing by id drops exactly the shifts with that id, keeps the others
      in their order and number, and changes nothing when the id is absent. */
  lemma RemoveShiftByIdSpec(shifts: seq<Shift>, id: Id)
    ensures forall s :: s in RemoveShiftById(shifts, id) <==> s in shifts && s.id != id
    ensures forall s :: s in shifts && s.id != id ==> multiset(RemoveShiftById(shifts, id))[s] == multiset(shifts)[s]
    ensures IsSubsequence(RemoveShiftById(shifts, id), shifts)
    ensures (forall s :: s in shifts ==> s.id != id) ==> RemoveShiftById(shifts, id) == shifts
  {
    FilterIsSubsequence(ShiftIdIsNot(id), shifts);
    if forall s :: s in shifts ==> s.id != id {
      FilterKeepsAll(ShiftIdIsNot(id), shifts);
    }
  }

  /** The same for availability entries. */
  lemma RemoveAvailabilityByIdSpec(avails: seq<Availability>, id: Id)
    ensures forall a :: a in RemoveAvailabilityById(avails, id) <==> a in avails && a.id != id
    ensures forall a :: a in avails && a.id != id ==> multiset(RemoveAvailabilityById(avails, id))[a] == multiset(avails)[a]
    ensures IsSubsequence(RemoveAvailabilityById(avails, id), avails)
    ensures (forall a :: a in avails ==> a.id != id) ==> RemoveAvailabilityById(avails, id) == avails
  {
    FilterIsSubsequence(AvailabilityIdIsNot(id), avails);
    if forall a :: a in avails ==> a.id != id {
      FilterKeepsAll(AvailabilityIdIsNot(id), avails);
    }
  }

  /** Removing shifts never creates an overlap. */
  lemma RemoveShiftKeepsNoOverlap(shifts: seq<Shift>, id: Id)
    requires NoOverlappingShifts(shifts)
    ensures NoOverlappingShifts(RemoveShiftById(shifts, id))
  {
  }

  /** With distinct ids, deleting the one document with a given id (what
      `findByIdAndDelete` does) is the same as filtering that id out. */
  lemma {:induction false} RemoveShiftAt(shifts: seq<Shift>, i: nat)
    requires DistinctShiftIds(shifts)
    requires i < |shifts|
    ensures RemoveShiftById(shifts, shifts[i].id) == shifts[..i] + shifts[i + 1..]
  {
    var id := shifts[i].id;
    var rest := shifts[1..];
    assert DistinctShiftIds(rest) by {
      forall a, b | 0 <= a < b < |rest| ensures rest[a].id != rest[b].id {
        assert rest[a] == shifts[a + 1] && rest[b] == shifts[b + 1];
      }
    }
    if i == 0 {
      forall x | x in rest ensures ShiftIdIsNot(id)(x) {
        var k :| 0 <= k < |rest| && rest[k] == x;
        assert shifts[k + 1] == x;
      }
      RemoveDroppedHead(shifts, id);
      assert shifts[..0] + rest == rest;
    } else {
      assert shifts[0].id != id;
      assert rest[i - 1] == shifts[i];
      RemoveShiftAt(rest, i - 1);
      assert RemoveShiftById(shifts, id) == [shifts[0]] + RemoveShiftById(rest, id);
      HeadBeforeGap(shifts, i);
    }
  }

  /** The base case of `RemoveShiftAt`: a head with the id is dropped and
      nothing after it is. */
  lemma RemoveDroppedHead(shifts: seq<Shift>, id: Id)
    requires 0 < |shifts| && shifts[0].id == id
    requires forall x :: x in shifts[1..] ==> ShiftIdIsNot(id)(x)
    ensures RemoveShiftById(shifts, id) == shifts[1..]
  {
    assert RemoveShiftById(shifts, id) == RemoveShiftById(shifts[1..], id);
    FilterKeepsAll(ShiftIdIsNot(id), shifts[1..]);
  }

  /** Putting the head back in front of the tail with a gap at `i - 1` gives
      the whole sequence with a gap at `i`. */
  lemma HeadBeforeGap<T>(s: seq<T>, i: nat)
    requires 0 < i < |s|
    ensures [s[0]] + (s[1..][..i - 1] + s[1..][i..]) == s[..i] + s[i + 1..]
  {
    assert s[1..][..i - 1] + s[1..][i..] == s[1..i] + s[i + 1..];
    assert [s[0]] + s[1..i] == s[..i];
  }

  /** Deleting one position keeps the remaining ids distinct. */
  lemma RemoveAtKeepsDistinctIds(shifts: seq<Shift>, i: nat)
    requires DistinctShiftIds(shifts)
    requires i < |shifts|
    ensures DistinctShiftIds(shifts[..i] + shifts[i + 1..])
  {
    var rest := shifts[..i] + shifts[i + 1..];
    forall a, b | 0 <= a < b < |rest| ensures rest[a].id != rest[b].id {
      var a', b' := if a < i then a else a + 1, if b < i then b else b + 1;
      assert rest[a] == shifts[a'] && rest[b] == shifts[b'];
    }
  }
}
