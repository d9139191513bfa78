# Shift planning: interval validation, modelled in Dafny

This project models the scheduling rules of a shift planning system in which
employees declare availability windows and administrators assign shifts:

- the employee availability page (`frontend/src/components/utility/empAvailability.jsx`):
  turning a date and two "HH:mm" times into a window (an end time not after the
  start time runs into the next day), the 4-hour minimum, the overlap test
  against the windows already listed, the "shift assigned" marker, and deleting
  unassigned windows;
- the older availability page (`frontend/src/components/utility/empAvailability.js`):
  a whole-hour duration check with no overnight rule, appending the reply;
- the admin shift routes (`backend/routes/adminRoutes.js`): POST `/shifts`
  (availability lookup, inclusive containment, overlap query, insert) and
  DELETE `/shifts/:shiftId`;
- the employee routes (`backend/routes/employeeRoutes.js`): the availability
  upsert keyed by username and date under the unique index on `username`, the
  owner filters and the containment query `/selectavailability`;
- the admin dashboard (`frontend/src/components/AdminDashboard.jsx`): the
  employee/date filters of both lists and the list update after deleting a shift.

Instants are integers (milliseconds on one timeline), dates are opaque strings,
and an "HH:mm" input is an offset from the start of its date (`TimeOfDay`). The
two Mongo collections are `seq` fields of one `Store` class; `findOne` is the
first match in insertion order. Every request is handled atomically, one after
another. The React components are classes over their state; the outcome of
each HTTP call they make is a parameter.

Modules, one per file: `Seqs` (filter, some, first match, subsequence),
`Intervals` (instants, half-open overlap, inclusive containment), `Schema`
(records and collection invariants), `SchedulingStore`, `AdminRoutes`,
`EmployeeRoutes`, `AdminDashboard`, `EmpAvailability`, `LegacyEmpAvailability`.

The store invariant `Store.Valid` holds after every route: ids are below the
next id and shift ids are distinct; at most one availability per username;
and no two shifts of one employee on one date overlap (half-open). The last
holds because the first clause of the overlap query is exactly the half-open
overlap (`AdminRoutes.AcceptKeepsNoOverlap`).

## Model

| member | source | states |
|---|---|---|
| `AdminRoutes.CreateShift` | backend/routes/adminRoutes.js:79-153 | The checks run in order (availability, containment, overlap) and the first failure is the answer. A rejection leaves the store unchanged. An acceptance appends exactly one shift with the requested username, date, start and end under a fresh id. Availabilities never change, and the store invariant is kept. |
| `AdminRoutes.NoAvailabilityIff` | backend/routes/adminRoutes.js:87-93 | "No availability found" is returned exactly when no availability exists for that username and date. |
| `AdminRoutes.OutsideAvailabilityIff` | backend/routes/adminRoutes.js:95-117 | "Outside of availability" is returned exactly when the first availability found does not contain the shift (inclusive bounds). |
| `AdminRoutes.AcceptedShiftWithinAvailability` | backend/routes/adminRoutes.js:112-117 | An accepted shift lies inside an availability of the same employee and date: availStart ≤ shiftStart and shiftEnd ≤ availEnd. |
| `AdminRoutes.ShiftOnAvailabilityBoundsAccepted` | backend/routes/adminRoutes.js:113-117 | A shift spanning exactly the availability's bounds is accepted when the employee has no shift that day. |
| `AdminRoutes.ReversedShiftAccepted` | backend/routes/adminRoutes.js:84-117 | Nothing checks that the shift starts before it ends: a reversed shift whose endpoints lie inside the window is accepted. |
| `AdminRoutes.FirstClauseIsHalfOpenOverlap` | backend/routes/adminRoutes.js:124 | The first `$or` clause is the half-open overlap of the two windows. |
| `AdminRoutes.SecondClauseImplied` | backend/routes/adminRoutes.js:124-128 | For an existing shift with start < end, the second `$or` clause (existing inside the request) implies the first. |
| `AdminRoutes.OverlapQueryIsHalfOpen` | backend/routes/adminRoutes.js:123-129 | Against a non-empty existing shift, the whole `$or` is the half-open overlap. |
| `AdminRoutes.TouchingShiftsDoNotConflict` | backend/routes/adminRoutes.js:120-130 | A non-empty shift ending exactly at the requested start, or starting exactly at the requested end, is no conflict. |
| `AdminRoutes.OverlapRejectionIff` | backend/routes/adminRoutes.js:119-136 | Once the availability checks pass and stored shifts are non-empty, the overlap rejection happens exactly when some shift of the same employee and date overlaps (half-open). |
| `AdminRoutes.AvailabilityChecksComeFirst` | backend/routes/adminRoutes.js:87-136 | A missing or non-containing availability decides the answer whatever shifts exist. |
| `AdminRoutes.OtherSlotsNeverBlock` | backend/routes/adminRoutes.js:119-129 | Shifts of other employees or other dates never change the answer, wherever they stand in the collection. The answer on the whole collection equals the answer on its shifts with the requested username and date. |
| `AdminRoutes.AcceptKeepsNoOverlap` | backend/routes/adminRoutes.js:119-144 | Inserting an accepted shift under a fresh id keeps the store free of overlapping shifts for any employee and date. |
| `AdminRoutes.DeleteShift` | backend/routes/adminRoutes.js:166-182 | Deleting by id removes exactly the shift with that id and keeps the others in order (200). An unknown id answers 404 and leaves the store unchanged. The store invariant is kept. |
| `Schema.RemoveShiftAt` | backend/routes/adminRoutes.js:171 | With distinct ids, deleting the one document with an id equals filtering that id out. |
| `Schema.RemoveAtKeepsDistinctIds` | backend/routes/adminRoutes.js:171 | Deleting one shift keeps the remaining ids distinct. |
| `Schema.RemoveShiftKeepsNoOverlap` | backend/routes/adminRoutes.js:171 | Deleting shifts never creates an overlap. |
| `SchedulingStore.Store.constructor` | backend/models/Availability.js:3-26 | An empty store satisfies the invariant, including the unique index on `username`. |
| `EmployeeRoutes.PostAvailability` | backend/routes/employeeRoutes.js:7-37 | The save succeeds (201) exactly when the upsert is possible, and then the collection is the upserted one. Otherwise (an empty required field, or the unique index) the answer is 500 and nothing changes. Shifts never change, and the store invariant is kept. |
| `EmployeeRoutes.UpsertFailsIff` | backend/routes/employeeRoutes.js:11-36 | The save fails exactly when username, date or timezone is empty (the schema's required fields), or when there is no record for the username and date but the username has one for another date (unique index). |
| `EmployeeRoutes.UpsertStoresRequest` | backend/routes/employeeRoutes.js:11-32 | After a save, a record for the username and date holds the submitted start, end and timezone. Every record under another key keeps its place and value. When a record for the username and date existed, it is overwritten in place: the length and every position's id are unchanged. Otherwise the new record is appended under the fresh id. |
| `EmployeeRoutes.UpsertKeepsOnePerUser` | backend/routes/employeeRoutes.js:20-31 | The unique-username invariant is kept, so exactly one record exists for the username and date after a save. |
| `EmployeeRoutes.UpsertIdempotent` | backend/routes/employeeRoutes.js:11-31 | Posting the same body twice leaves the collection as one post does. |
| `EmployeeRoutes.SavesAnyWindow` | backend/routes/employeeRoutes.js:7-32 | No duration or order check: a window ending before it starts is saved as given. |
| `EmployeeRoutes.MyAvailability` | backend/routes/employeeRoutes.js:50-59 | Returns exactly the records whose username equals the requester string, each with all its copies, in collection order. |
| `EmployeeRoutes.EmployeeShifts` | backend/routes/employeeRoutes.js:61-80 | Returns exactly the shifts whose username equals the requester string, each with all its copies, in order, or 400 when the requester is empty. |
| `EmployeeRoutes.SelectAvailability` | backend/routes/employeeRoutes.js:83-96 | Returns exactly the records with an equal date whose window contains [start, end], bounds inclusive, each with all its copies, in order. |
| `EmployeeRoutes.SelectFindsExactWindow` | backend/routes/employeeRoutes.js:86-90 | Containment is inclusive, so a record is found by a query for its own date and window. |
| `AdminDashboard.FilteredShiftsSpec` | frontend/src/components/AdminDashboard.jsx:150-154 | A shift is kept iff (no employee selected or its username matches) and (no date selected or its date matches); each kept shift keeps all its copies, and the result is a subsequence of the list. |
| `AdminDashboard.NoSelectionShowsAllShifts` | frontend/src/components/AdminDashboard.jsx:151-153 | With both selections empty the filtered list is the whole list. |
| `AdminDashboard.FilteredAvailabilitiesSpec` | frontend/src/components/AdminDashboard.jsx:140-147 | An availability is kept iff no shift has its username and date and it matches both selections; each kept entry keeps all its copies, and the result is a subsequence of the list. |
| `AdminDashboard.DashboardState.HandleDeleteShift` | frontend/src/components/AdminDashboard.jsx:123-137 | After a successful server delete the list loses exactly the shifts with that id. After a failure the list is unchanged and the error is set. |
| `AdminDashboard.DashboardState.constructor` | frontend/src/components/AdminDashboard.jsx:50-56 | All lists empty, no selection, no error. |
| `Schema.RemoveShiftByIdSpec` | frontend/src/components/AdminDashboard.jsx:132 | Filtering by id drops exactly the shifts with that id, keeps the rest in order and with all their copies, and changes nothing for an absent id. |
| `EmpAvailability.CheckSubmission` | frontend/src/components/utility/empAvailability.jsx:83-120 | A window shorter than 4 hours is refused before any overlap test. A window is refused as overlapping iff some listed entry with the same date clashes under the three-clause test. Otherwise the POST body carries the normalised window, which is at least 4 hours long. |
| `EmpAvailability.WindowIsNormalised` | frontend/src/components/utility/empAvailability.jsx:87-94 | The normalised end is strictly after the start and at most a day later. It is the same-day end when that is after the start, and exactly one day later otherwise. |
| `EmpAvailability.EqualTimesGiveFullDay` | frontend/src/components/utility/empAvailability.jsx:91-97 | Equal start and end times give a 24-hour window, which passes the minimum. |
| `EmpAvailability.ThreeClauseIsHalfOpen` | frontend/src/components/utility/empAvailability.jsx:108-112 | For non-empty windows the three-clause test equals start < existingEnd and existingStart < end. |
| `EmpAvailability.ThreeClauseSymmetric` | frontend/src/components/utility/empAvailability.jsx:108-112 | On non-empty windows the test is symmetric. |
| `EmpAvailability.ThreeClauseTouching` | frontend/src/components/utility/empAvailability.jsx:108-112 | Non-empty windows that only touch do not clash. |
| `EmpAvailability.OtherDatesNeverBlock` | frontend/src/components/utility/empAvailability.jsx:103-115 | Only entries with the same date string matter: the test over the whole list equals the test over the same-date entries. |
| `EmpAvailability.ShiftAssigned` | frontend/src/components/utility/empAvailability.jsx:221-229 | True iff some shift has the same date, start ≥ window start and end ≤ window end. |
| `EmpAvailability.ExactShiftIsAssigned` | frontend/src/components/utility/empAvailability.jsx:221-229 | Bounds are inclusive: a shift spanning exactly the window marks it assigned. |
| `EmpAvailability.AvailabilityPage.HandleSubmit` | frontend/src/components/utility/empAvailability.jsx:83-150 | The decision on the listed entries is as above. The error is cleared only after a POST that succeeded. The list itself is not touched. |
| `EmpAvailability.AvailabilityPage.HandleDeleteAvailability` | frontend/src/components/utility/empAvailability.jsx:193-213 | After a successful server delete the list loses exactly the entries with that id. After a failure the list is unchanged and the error is set. |
| `EmpAvailability.AvailabilityPage.ClickDelete` | frontend/src/components/utility/empAvailability.jsx:356-369 | The Delete button of a window with an assigned shift does nothing. The button of any other window deletes it and keeps the error when the server delete succeeds. When the delete fails, the list is unchanged and the error is set. |
| `EmpAvailability.AvailabilityPage.constructor` | frontend/src/components/utility/empAvailability.jsx:63-65 | Empty lists, no error. |
| `Schema.RemoveAvailabilityByIdSpec` | frontend/src/components/utility/empAvailability.jsx:204-208 | Filtering by id drops exactly the entries with that id, keeps the rest in order and with all their copies, and changes nothing for an absent id. |
| `LegacyEmpAvailability.WholeHoursBetween` | frontend/src/components/utility/empAvailability.js:40-43 | The elapsed time in whole hours, truncated toward zero, for both signs. |
| `LegacyEmpAvailability.AcceptedIffFourHours` | frontend/src/components/utility/empAvailability.js:40-46 | The window passes iff it is at least 4 hours long: 3h59m fails and 4h passes. |
| `LegacyEmpAvailability.ReversedTimesRefused` | frontend/src/components/utility/empAvailability.js:40-46 | With no overnight rule, an end time before the start time is always refused. |
| `LegacyEmpAvailability.LegacyAvailabilityPage.HandleSubmit` | frontend/src/components/utility/empAvailability.js:37-65 | A short window makes no POST, keeps the list and sets the error. A successful POST appends the reply at the end, keeps earlier entries and clears the error. A failed POST keeps the list and sets the error. |
| `LegacyEmpAvailability.LegacyAvailabilityPage.constructor` | frontend/src/components/utility/empAvailability.js:20-21 | Empty list, no error. |

## Left out

- Parsing: `new Date(...)` and `moment(...)` on date and time strings are not modelled. Invalid input becomes NaN, which makes every comparison false; in the routes a failed cast to a date ends in the generic 500. The model takes instants as integers.
- Timezones and daylight saving: timezone strings are carried but never compared. The overnight rule adds a fixed 24 hours, whereas `setDate(+1)` moves by one calendar day. Timezone display conversion is not modelled.
- EmpAvailability.CheckSubmission: each listed entry is compared through its stored start and end instants. The page instead rebuilds them from the entry's date joined to its stored `startTime` and `endTime`. Those fields come back from the server as full timestamps, so the rebuilt string is likely not a valid date. The rebuilt value, and so whether the test ever fires on fetched entries, is not modelled.
- Refreshing lists from the server is not modelled: the fetch after a successful availability POST and the fetches on mount. The lists are the component state as given.
- The backend has no DELETE `/availability/:id` route for the page's delete call to reach. The model takes that call's outcome as a parameter, as for every HTTP call.
- LegacyEmpAvailability.LegacyAvailabilityPage.HandleSubmit: the reply appended is modelled as an availability record. The backend actually replies with a message object.
- Authentication (JWT check, admin role), login, registration and session storage are not modelled. The requester's username is a string parameter.
- GET `/allemployees`, GET `/availability` and the admin GET `/shifts` are not modelled: they return whole collections with no logic. The dashboard's fetch and setter handlers are left out for the same reason.
- EmployeeRoutes.MyAvailability: models the filter the route evidently intends, by a username string. As written, `backend/routes/employeeRoutes.js:52` passes `req.user` itself as the filter value. That is the decoded token payload set at `backend/middleware/autheticate.js:18`, an object with a `role` field. Casting an object to the String path `username` fails, so the route as written would answer 500. That outcome is not modelled.
- EmployeeRoutes.EmployeeShifts: models the same intended filter by a username string. As written, `backend/routes/employeeRoutes.js:63` also uses the token payload object, so the query at line 65 would fail with 500. Since the payload is always set, the 400 at line 66 would never be reached. The model keeps that 400 for the empty username and does not model the 500.
- `EmployeeRoutes.EmployeeShifts` has no 404 case: the source's `!shifts` test is never true for the array a query returns.
- Concurrency: the check-then-insert race in POST `/shifts` and in the upsert is not modelled. Each request is atomic.
- Store failures other than the unique-index violation and the required-field check are not modelled. These are network or database errors, answered with 500. The unique index is assumed to exist. The required check on `startTime` and `endTime` is not modelled, because instants are always present in the model.
