# Lecturer room tracker: a Dafny model of the App handlers

The application tracks which lecturers occupy which rooms. It holds three
pieces of state: a list of rooms (`number`, `isOccupied`), a list of
checked-in lecturers (`id`, `name`, `roomNumber`, `checkInDate`, profile
fields), and a one-slot notice (the "toast") that reports how the last
event went. Seven event handlers change this state. Each one validates the
event against the current lists. It then either reports an error and leaves
both lists as they were, or replaces the lists wholesale and reports
success. There is one exception: `handleCheckOutById` and
`handleEditLecturer` given an unknown id do nothing at all. They change
neither list and set no notice, so the previous notice stays.

The model has these layers:

- `Types` is the data model, with the four starter rooms as the initial state.
- `Text` does the case-insensitive name comparison.
- `Lists` holds the list computations the handlers are built from: the
  `some`/`find` lookups, the `map` rewrites and the `filter` removals.
- `Handlers` gives each handler as a function from the old state to the new
  state. The notice is part of the state.
- `Occupancy` defines the occupancy invariant and the lemmas for the list
  rewrites.
- `Preservation` proves, handler by handler, that the invariant is kept. It
  also shows exactly how the lecturer-edit handler can break it.
- `RoundTrip` holds properties that span several events.
- `AppComponent.App` is the component as an object. Its fields `rooms`,
  `lecturers` and `toast` are reassigned by one method per handler, with an
  early return on each failed check. Every method is proved to reach exactly
  the state of its handler function.

The occupancy invariant (`Occupancy.Valid`) has six parts:

- room numbers are unique;
- lecturer ids are unique;
- lecturer names are unique, ignoring ASCII case;
- no two lecturers sit in the same room;
- every room a lecturer sits in exists;
- a room is flagged occupied exactly when a lecturer sits in it.

`ExactlyOneOccupant` turns the fourth and sixth parts into the counting form:
"occupied iff exactly one lecturer references the room". Every handler
except `handleEditLecturer` keeps the invariant. `handleEditLecturer` marks
the target room occupied without checking whether it exists or is free.
`EditLecturerDoublesUp` and `EditLecturerToMissingRoom` prove that this
edit is accepted and leaves an inconsistent state. `EditLecturerKeepsValid`
gives conditions under which an edit is safe.

Some behaviour of the code is easy to misread; the model follows the code as written:

- `handleCheckOutById` with an unknown id does not report "not found". It
  changes nothing and leaves the previous notice in place.
- `handleEditLecturer` with an unknown id behaves the same way.
- `handleCheckOut` removes every record that has the found lecturer's id,
  because it filters by id. It does not remove just the one record found.
  Under the invariant the two are the same (`CheckOutRemovesOne`).
- `handleEditRoom` renames lecturers who reference `oldNumber` even when no
  room has that number.

The lecturer id and the check-in time come from `crypto.randomUUID()` and
`new Date().toISOString()`. In the model they are parameters of `CheckIn`.
`HandleCheckIn` requires the id to be fresh.

## Model

| member | source | states |
|---|---|---|
| `Text.Lower` | src/App.tsx:103 | lower-casing keeps the length, maps each character through ASCII lowering and leaves no upper-case ASCII letter |
| `Lists.Map` | src/App.tsx:62-68 | `xs.map(f)`: same length, and each element is `f` of the element at the same position |
| `Lists.Filter` | src/App.tsx:94 | `xs.filter(p)`: no longer than the input, and an element is kept exactly when it is in the input and passes `p`; order and multiplicity are fixed by `FilterSingleton` and `FilterAppend` |
| `Lists.FilterSingleton` | src/App.tsx:94 | a one-element list is kept exactly when its element passes |
| `Lists.FilterAppend` | src/App.tsx:94 | filtering a concatenation is the concatenation of the filtered parts, so kept elements stay in their order with their copies |
| `Lists.HasRoom` | src/App.tsx:38 | `rooms.some(...)`, scanning left to right, holds exactly when some position has the number |
| `Lists.FindRoom` | src/App.tsx:114 | `None` exactly when no room has the number; otherwise the first room with that number |
| `Lists.FirstNameMatch` | src/App.tsx:148-150 | the position of the first lecturer whose name matches ignoring case; no earlier lecturer matches; the length of the list when none matches |
| `Lists.FindByName` | src/App.tsx:148-150 | `None` exactly when no lecturer's name matches ignoring case; otherwise the first lecturer whose name matches |
| `Lists.FindById` | src/App.tsx:171 | `None` exactly when no lecturer has the id; otherwise the first lecturer with that id |
| `Lists.RenameRooms` | src/App.tsx:62-64 | same length; each room numbered `from` gets number `to` with its flag kept, and every other room is unchanged |
| `Lists.SetOccupancy` | src/App.tsx:138-140 | same length; only rooms with the given number get the new flag, and every other room is unchanged |
| `Lists.MoveOccupancy` | src/App.tsx:190-194 | same length; rooms numbered `from` are freed, otherwise rooms numbered `to` are occupied, and the rest are unchanged |
| `Lists.RemoveRoom` | src/App.tsx:94 | no longer than before; exactly the rooms with another number remain; none with the deleted number is left; order is kept by `RemoveRoomAppend` |
| `Lists.RemoveRoomAppend` | src/App.tsx:94 | deleting a number from a concatenation deletes it from each part and keeps the parts in order, whether or not numbers repeat |
| `Lists.RemoveRoomAt` | src/App.tsx:94 | when only the room at k has the number, deleting it removes exactly that room and keeps the others in order |
| `Lists.RenameLecturers` | src/App.tsx:66-68 | same length; each lecturer in room `from` moves to `to`, and everyone else is unchanged |
| `Lists.ReplaceLecturer` | src/App.tsx:197-199 | same length; each record with the id becomes `data`, and the others are unchanged |
| `Lists.ReplaceLecturerOnly` | src/App.tsx:197-199 | with a unique id, the edit overwrites exactly the one record at that position |
| `Lists.RemoveLecturer` | src/App.tsx:173 | exactly the lecturers with another id remain, and the result is no longer than before; order is kept by `RemoveLecturerAppend` |
| `Lists.RemoveLecturerAppend` | src/App.tsx:173 | removing an id from a concatenation removes it from each part and keeps the parts in order, whether or not ids repeat |
| `Lists.RemoveLecturerAt` | src/App.tsx:160 | when only the lecturer at k has the id, filtering by it removes exactly that lecturer and keeps the others in order |
| `Lists.MoveIsFreeThenOccupy` | src/App.tsx:190-194 | for two different numbers, the two-way rewrite equals freeing the old room and then occupying the new one |
| `Types.Initial` | src/App.tsx:12-24 | the starter state (the unsaved branches, with the constant `DefaultRooms`) has no lecturers and no notice; every starter room is free and no two share a number |
| `Handlers.NameTaken` | src/App.tsx:102-106 | the duplicate-name test holds exactly when the case-insensitive `find` returns a lecturer |
| `Handlers.NewLecturer` | src/App.tsx:131-135 | the new record keeps the form's name, room and profile, and takes the generated id and check-in time |
| `Handlers.AddRoom` | src/App.tsx:37-50 | a duplicate number is refused with "Room already exists" and both lists unchanged; otherwise exactly one free room is appended; the number is present afterwards either way |
| `Handlers.EditRoom` | src/App.tsx:53-73 | a taken target number is refused with both lists unchanged (including renaming a present room to itself); otherwise rooms and lecturers are relabelled and success is reported |
| `Handlers.DeleteRoom` | src/App.tsx:76-99 | an absent room is refused, then an occupied one, each with its own message and the lists unchanged; otherwise only rooms with another number remain; lecturers are never touched |
| `Handlers.CheckIn` | src/App.tsx:101-145 | name clash (ignoring case), unknown room and occupied room are refused in that order, each with its own message and both lists unchanged; success appends the form data with the given id and time and occupies only rooms with that number |
| `Handlers.CheckOut` | src/App.tsx:147-168 | a name nobody matches is refused with "Lecturer not found" and no change; otherwise the first matching lecturer's id is filtered out and only that lecturer's room is freed |
| `Handlers.CheckOutById` | src/App.tsx:170-182 | an unknown id changes nothing, including the notice; otherwise the id is filtered out and that lecturer's room is freed |
| `Handlers.EditLecturer` | src/App.tsx:184-205 | an unknown id changes nothing, including the notice; otherwise the record is overwritten and, when the room changes, the old room is freed and the new one occupied unconditionally |
| `Occupancy.OccupantsReferenced` | src/App.tsx:123-129 | the count of lecturers in a room is positive exactly when some lecturer sits in it |
| `Occupancy.OccupantsAtMostOne` | src/App.tsx:123-129 | when no two lecturers share a room, every room has at most one occupant |
| `Occupancy.OccupantsOfTwo` | src/App.tsx:189-194 | two different lecturers in one room make its count at least two; `EditLecturerDoublesUp` uses it to show the edit breaks the invariant |
| `Occupancy.ExactlyOneOccupant` | src/App.tsx:123-140 | under the invariant a room is flagged occupied exactly when exactly one lecturer references it |
| `Occupancy.SameNumbersKeep` | src/App.tsx:138-140 | a flag-only rewrite of the room list keeps uniqueness of numbers and the set of numbers present |
| `Occupancy.AppendRoom` | src/App.tsx:46 | appending a room with a new number keeps numbers unique and adds exactly that number |
| `Occupancy.DropRoom` | src/App.tsx:94 | removing one room keeps numbers unique and drops exactly its number |
| `Occupancy.RenameRoom` | src/App.tsx:62-64 | renaming to an unused number keeps numbers unique; afterwards the new number is present exactly when the old one was, and the old one is gone |
| `Occupancy.AppendLecturer` | src/App.tsx:137 | appending a lecturer with a fresh id, a new name and a free room keeps the lecturers distinct and adds exactly that room to the occupied ones |
| `Occupancy.DropLecturer` | src/App.tsx:160 | removing one lecturer keeps the lecturers distinct and frees exactly that lecturer's room |
| `Occupancy.ReplaceLecturerAt` | src/App.tsx:197-199 | overwriting one record with data that clashes with no other lecturer keeps them distinct, and moves exactly that lecturer's room reference |
| `Occupancy.RenameLecturerRooms` | src/App.tsx:66-68 | relabelling to an unreferenced number keeps the lecturers distinct and moves the old number's references to the new one |
| `Occupancy.FlagFollowsOccupant` | src/App.tsx:161-163 | setting one room's flag to whether someone sits in it keeps flags and occupants in agreement |
| `Preservation.InitialValid` | src/App.tsx:19-24 | the four starter rooms with no lecturers satisfy the invariant |
| `Preservation.AddRoomKeepsValid` | src/App.tsx:37-50 | adding a room keeps the invariant |
| `Preservation.EditRoomKeepsValid` | src/App.tsx:53-73 | renaming a room keeps the invariant |
| `Preservation.DeleteRoomRemovesOne` | src/App.tsx:76-99 | deleting a free, present room removes exactly that room, keeps the others in order and reports success |
| `Preservation.DropFreeRoomKeepsValid` | src/App.tsx:94 | removing a free room from the list keeps the invariant |
| `Preservation.DeleteRoomKeepsValid` | src/App.tsx:76-99 | deleting a room keeps the invariant |
| `Preservation.CheckInKeepsValid` | src/App.tsx:101-145 | a check-in with a fresh id keeps the invariant |
| `Preservation.CheckOutAtKeepsValid` | src/App.tsx:160-163 | removing one lecturer and freeing that lecturer's room keeps the invariant |
| `Preservation.CheckOutRemovesOne` | src/App.tsx:147-168 | under unique ids, check-out by name removes exactly the first lecturer with a matching name and frees that lecturer's room |
| `Preservation.CheckOutByIdRemovesOne` | src/App.tsx:170-182 | under unique ids, check-out by id removes exactly that lecturer and frees that lecturer's room |
| `Preservation.CheckOutKeepsValid` | src/App.tsx:147-168 | check-out by name keeps the invariant |
| `Preservation.CheckOutByIdKeepsValid` | src/App.tsx:170-182 | check-out by id keeps the invariant |
| `Preservation.EditLecturerReplacesOne` | src/App.tsx:184-205 | under unique ids, the edit overwrites exactly the one record and moves occupancy only when the room changes |
| `Preservation.StayKeepsValid` | src/App.tsx:197-199 | overwriting a lecturer with a record for the same room that clashes with no other lecturer keeps the invariant |
| `Preservation.MoveKeepsValid` | src/App.tsx:189-199 | moving a lecturer into a free, present room, with a record that clashes with no other lecturer, keeps the invariant |
| `Preservation.EditLecturerKeepsValid` | src/App.tsx:184-205 | an edit keeps the invariant when no other lecturer has the new id or name and the lecturer stays put or moves into a free, present room |
| `Preservation.EditLecturerDoublesUp` | src/App.tsx:189-194 | moving a lecturer into another lecturer's room is accepted; that room stays flagged occupied with two occupants, so the invariant breaks |
| `Preservation.EditLecturerToMissingRoom` | src/App.tsx:189-194 | moving a lecturer to a room that does not exist is accepted and frees the old room, so the invariant breaks |
| `RoundTrip.CheckInSucceeds` | src/App.tsx:131-140 | into a free, present room and with no name clash, check-in appends the lecturer, and freeing the room gives back the old room list |
| `RoundTrip.CheckInThenCheckOut` | src/App.tsx:131-163 | check-in followed by check-out by the same name restores both lists exactly |
| `RoundTrip.CheckInThenCheckOutById` | src/App.tsx:131-176 | check-in followed by check-out by the new id restores both lists exactly |
| `RoundTrip.CaseVariantRejected` | src/App.tsx:101-112 | after a successful check-in, a name differing only in case is refused and nothing changes |
| `RoundTrip.AddRoomTwice` | src/App.tsx:37-50 | adding the same number twice fails the second time with both lists unchanged |
| `RoundTrip.EditRoomRelabels` | src/App.tsx:53-73 | after a rename, every lecturer of the old room has the new number and nothing else about any lecturer changed; no room keeps the old number; the new number is present exactly when the old one was |
| `AppComponent.App.constructor` | src/App.tsx:12-30 | starts with the starter rooms, no lecturers and no notice, which satisfies the invariant |
| `AppComponent.App.HandleAddRoom` | src/App.tsx:37-51 | reassigns the fields to exactly `AddRoom` of the old state and keeps the invariant |
| `AppComponent.App.HandleEditRoom` | src/App.tsx:53-74 | reassigns the fields to exactly `EditRoom` of the old state and keeps the invariant |
| `AppComponent.App.HandleDeleteRoom` | src/App.tsx:76-99 | reassigns the fields to exactly `DeleteRoom` of the old state and keeps the invariant |
| `AppComponent.App.HandleCheckIn` | src/App.tsx:101-145 | with a fresh id, reassigns the fields to exactly `CheckIn` of the old state and keeps the invariant |
| `AppComponent.App.HandleCheckOut` | src/App.tsx:147-168 | reassigns the fields to exactly `CheckOut` of the old state and keeps the invariant |
| `AppComponent.App.HandleCheckOutById` | src/App.tsx:170-182 | reassigns the fields to exactly `CheckOutById` of the old state and keeps the invariant |
| `AppComponent.App.HandleEditLecturer` | src/App.tsx:184-205 | reassigns the fields to exactly `EditLecturer` of the old state; it promises no invariant |

## Left out

- Rendering is not modelled: the JSX tree, the tab buttons and the `activeTab` state (src/App.tsx:11, 207-281) are presentation only.
- Loading from and saving to `localStorage`, including JSON encoding (src/App.tsx:12-25, 32-35), is browser I/O. Only the starter rooms are kept, as the initial state.
- Dismissing the notice (src/App.tsx:277) is a UI event. The notice is modelled only as the outcome of the last handler.
- `crypto.randomUUID()` and `new Date().toISOString()` (src/App.tsx:133-134) are foreign calls. They become the `id` and `now` parameters, and the id is assumed fresh.
- `toLowerCase` is modelled for ASCII letters only. Full Unicode case mapping is out of scope.
- The child components and the `./types` module are not part of this model. Profile fields beyond id, name, room and check-in time are an abstract `Profile`.
- `Lists.ReplaceLecturer`: `{ ...l, ...data }` is modelled as replacing the record with `data`. That is exact when `data` carries every `Lecturer` field. Optional fields missing from `data`, which would keep their old values, are not modelled, because the `Lecturer` type is not available.
- React state batching is not modelled. Each handler reads the state it was rendered with, so two handlers fired before a re-render would both see the same old lists. The model runs one handler per state.
