/** The database behind the routes: the Availability and Shift collections,
    held in memory. Each request is handled atomically, one after another. */
module SchedulingStore {
  import opened Intervals
  import opened Schema

  class Store {
    var availabilities: seq<Availability>
    var shifts: seq<Shift>
    /** The id the next inserted document receives. */
    var nextId: nat

    ghost predicate Valid()
      reads this
    {
      && (forall a :: a in availabilities ==> a.id < nextId)
      && (forall s :: s in shifts ==> s.id < nextId)
      && DistinctShiftIds(shifts)
      && OneAvailabilityPerUser(availabilities)
      && NoOverlappingShifts(shifts)
    }

    constructor ()
      ensures Valid()
      ensures availabilities == [] && shifts == []
    {
      availabilities := [];
      shifts := [];
      nextId := 0;
    }
  }
}
