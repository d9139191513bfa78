/** The administrator's dashboard: the availability and shift lists it shows,
    narrowed by the selected employee and date, and the shift list update
    after a delete. An empty selection means "no filter". */
module AdminDashboard {
  import opened Seqs
  import opened Schema

  /** `(!selectedEmployee || username === selectedEmployee) &&
      (!selectedDate || date === selectedDate)`. */
  predicate MatchesSelection(username: string, date: string, selectedEmployee: string, selectedDate: string)
  {
    (selectedEmployee == "" || username == selectedEmployee)
    && (selectedDate == "" || date == selectedDate)
  }

  /** Some shift is already assigned to the availability's employee on its date. */
  predicate HasShift(shifts: seq<Shift>, a: Availability)
  {
    Any((s: Shift) => s.username == a.username && s.date == a.date, shifts)
  }

  function ShiftSelected(selectedEmployee: string, selectedDate: string): Shift -> bool
  {
    (s: Shift) => MatchesSelection(s.username, s.date, selectedEmployee, selectedDate)
  }

  function AvailabilityListed(shifts: seq<Shift>, selectedEmployee: string, selectedDate: string): Availability -> bool
  {
    (a: Availability) => !HasShift(shifts, a) && MatchesSelection(a.username, a.date, selectedEmployee, selectedDate)
  }

  /** `filteredShifts`. */
  function FilteredShifts(shifts: seq<Shift>, selectedEmployee: string, selectedDate: string): seq<Shift>
  {
    Filter(ShiftSelected(selectedEmployee, selectedDate), shifts)
  }

  /** `filteredAvailabilities`: windows of employees not yet scheduled that day. */
  function FilteredAvailabilities(avails: seq<Availability>, shifts: seq<Shift>,
                                  selectedEmployee: string, selectedDate: string): seq<Availability>
  {
    Filter(AvailabilityListed(shifts, selectedEmployee, selectedDate), avails)
  }

  /** A shift is shown exactly when it matches both selections; the shown
      shifts keep their order and their number of copies. */
  lemma FilteredShiftsSpec(shifts: seq<Shift>, selectedEmployee: string, selectedDate: string)
    ensures forall s :: s in FilteredShifts(shifts, selectedEmployee, selectedDate)
              <==> s in shifts
                   && (selectedEmployee == "" || s.username == selectedEmployee)
                   && (selectedDate == "" || s.date == selectedDate)
    ensures forall s :: s in shifts && MatchesSelection(s.username, s.date, selectedEmployee, selectedDate)
              ==> multiset(FilteredShifts(shifts, selectedEmployee, selectedDate))[s] == multiset(shifts)[s]
    ensures IsSubsequence(FilteredShifts(shifts, selectedEmployee, selectedDate), shifts)
  {
    FilterIsSubsequence(ShiftSelected(selectedEmployee, selectedDate), shifts);
  }

  /** With nothing selected every shift is shown. */
  lemma NoSelectionShowsAllShifts(shifts: seq<Shift>)
    ensures FilteredShifts(shifts, "", "") == shifts
  {
    FilterKeepsAll(ShiftSelected("", ""), shifts);
  }

  /** An availability is shown exactly when no shift of its employee falls on
      its date and it matches both selections; the shown ones keep their
      order and their number of copies. */
  lemma FilteredAvailabilitiesSpec(avails: seq<Availability>, shifts: seq<Shift>,
                                   selectedEmployee: string, selectedDate: string)
    ensures forall a :: a in FilteredAvailabilities(avails, shifts, selectedEmployee, selectedDate)
              <==> a in avails
                   && (forall s :: s in shifts ==> !(s.username == a.username && s.date == a.date))
                   && (selectedEmployee == "" || a.username == selectedEmployee)
                   && (selectedDate == "" || a.date == selectedDate)
    ensures forall a :: a in avails && AvailabilityListed(shifts, selectedEmployee, selectedDate)(a)
              ==> multiset(FilteredAvailabilities(avails, shifts, selectedEmployee, selectedDate))[a] == multiset(avails)[a]
    ensures IsSubsequence(FilteredAvailabilities(avails, shifts, selectedEmployee, selectedDate), avails)
  {
    FilterIsSubsequence(AvailabilityListed(shifts, selectedEmployee, selectedDate), avails);
  }

  /** The dashboard's state. */
  class DashboardState {
    var availabilities: seq<Availability>
    var shifts: seq<Shift>
    var selectedEmployee: string
    var selectedDate: string
    var error: string

    constructor ()
      ensures availabilities == [] && shifts == []
      ensures selectedEmployee == "" && selectedDate == "" && error == ""
    {
      availabilities := [];
      shifts := [];
      selectedEmployee := "";
      selectedDate := "";
      error := "";
    }

    /** `handleDeleteShift`: `deleteSucceeded` is the outcome of the server
        call; only a successful delete changes the list. */
    method HandleDeleteShift(shiftId: Id, deleteSucceeded: bool)
      modifies this`shifts, this`error
      ensures deleteSucceeded ==> shifts == RemoveShiftById(old(shifts), shiftId) && error == old(error)
      ensures !deleteSucceeded ==> shifts == old(shifts) && error == "Failed to delete shift"
    {
      if deleteSucceeded {
        shifts := RemoveShiftById(shifts, shiftId);
      } else {
        error := "Failed to delete shift";
      }
    }
  }
}
