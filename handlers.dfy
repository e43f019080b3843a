/**
 * The seven event handlers of the App component as functions from the state
 * before the event to the state after it.  Every handler validates first and
 * either reports an error with both lists untouched or replaces the lists
 * wholesale and reports success; two handlers instead do nothing at all when
 * the lecturer is unknown, leaving even the previous notice in place.
 */
module Handlers {
  import opened Wrappers
  import opened Types
  import opened Text
  import opened Lists

  const MsgRoomExists := "Room already exists"
  const MsgRoomAdded := "Room added successfully"
  const MsgRoomNumberExists := "Room number already exists"
  const MsgRoomUpdated := "Room updated successfully"
  const MsgRoomNotFound := "Room not found"
  const MsgRoomInUse := "Cannot delete occupied room"
  const MsgRoomDeleted := "Room deleted successfully"
  const MsgAlreadyCheckedIn := "Lecturer is already checked in"
  const MsgInvalidRoom := "Invalid room number"
  const MsgRoomOccupied := "Room is already occupied"
  const MsgCheckedIn := "Lecturer successfully checked in"
  const MsgLecturerNotFound := "Lecturer not found"
  const MsgCheckedOut := "Lecturer successfully checked out"
  const MsgLecturerUpdated := "Lecturer details updated successfully"

  function Failure(msg: string): Option<Toast> { Some(Toast(msg, Error)) }
  function Done(msg: string): Option<Toast> { Some(Toast(msg, Success)) }

  /** The event was refused: both lists are as before and the notice is `msg`. */
  ghost predicate Rejected(s: State, r: State, msg: string) {
    r.rooms == s.rooms && r.lecturers == s.lecturers && r.toast == Failure(msg)
  }

  /** Some checked-in lecturer has `name`, ignoring ASCII case. */
  predicate NameTaken(ls: seq<Lecturer>, name: string): (b: bool)
    ensures b <==> FindByName(ls, name).Some?
  {
    exists i :: 0 <= i < |ls| && SameName(ls[i].name, name)
  }

  /** The record appended by a check-in: the form data plus the generated id
      and the check-in time. */
  function NewLecturer(data: LecturerFormData, id: string, now: string): (l: Lecturer)
    ensures l.name == data.name && l.roomNumber == data.roomNumber && l.profile == data.profile
    ensures l.id == id && l.checkInDate == now
  {
    Lecturer(id, data.name, data.roomNumber, now, data.profile)
  }

  /** handleAddRoom. */
  function AddRoom(s: State, number: string): (r: State)
    ensures r.lecturers == s.lecturers
    ensures HasRoom(s.rooms, number) ==> Rejected(s, r, MsgRoomExists)
    ensures !HasRoom(s.rooms, number) ==>
              r.rooms == s.rooms + [Room(number, false)] && r.toast == Done(MsgRoomAdded)
    ensures HasRoom(r.rooms, number)
  {
    if HasRoom(s.rooms, number) then
      s.(toast := Failure(MsgRoomExists))
    else
      var rooms := s.rooms + [Room(number, false)];
      assert rooms[|s.rooms|].number == number;
      s.(rooms := rooms, toast := Done(MsgRoomAdded))
  }

  /** handleEditRoom: the only check is that `newNumber` is not taken. */
  function EditRoom(s: State, oldNumber: string, newNumber: string): (r: State)
    ensures HasRoom(s.rooms, newNumber) ==> Rejected(s, r, MsgRoomNumberExists)
    ensures !HasRoom(s.rooms, newNumber) ==>
              r.toast == Done(MsgRoomUpdated) &&
              r.rooms == RenameRooms(s.rooms, oldNumber, newNumber) &&
              r.lecturers == RenameLecturers(s.lecturers, oldNumber, newNumber)
  {
    if HasRoom(s.rooms, newNumber) then
      s.(toast := Failure(MsgRoomNumberExists))
    else
      State(RenameRooms(s.rooms, oldNumber, newNumber),
            RenameLecturers(s.lecturers, oldNumber, newNumber),
            Done(MsgRoomUpdated))
  }

  /** handleDeleteRoom: refuses an unknown room, then an occupied one. */
  function DeleteRoom(s: State, number: string): (r: State)
    ensures r.lecturers == s.lecturers
    ensures !HasRoom(s.rooms, number) ==> Rejected(s, r, MsgRoomNotFound)
    ensures HasRoom(s.rooms, number) && FindRoom(s.rooms, number).value.isOccupied ==>
              Rejected(s, r, MsgRoomInUse)
    ensures HasRoom(s.rooms, number) && !FindRoom(s.rooms, number).value.isOccupied ==>
              r.rooms == RemoveRoom(s.rooms, number) && r.toast == Done(MsgRoomDeleted)
  {
    match FindRoom(s.rooms, number)
    case None => s.(toast := Failure(MsgRoomNotFound))
    case Some(room) =>
      if room.isOccupied then s.(toast := Failure(MsgRoomInUse))
      else s.(rooms := RemoveRoom(s.rooms, number), toast := Done(MsgRoomDeleted))
  }

  /** handleCheckIn: refuses a taken name, then an unknown room, then an
      occupied room; otherwise appends the new lecturer and occupies the room.
      `id` and `now` stand for the generated identifier and timestamp. */
  function CheckIn(s: State, data: LecturerFormData, id: string, now: string): (r: State)
    ensures NameTaken(s.lecturers, data.name) ==> Rejected(s, r, MsgAlreadyCheckedIn)
    ensures !NameTaken(s.lecturers, data.name) && !HasRoom(s.rooms, data.roomNumber) ==>
              Rejected(s, r, MsgInvalidRoom)
    ensures !NameTaken(s.lecturers, data.name) && HasRoom(s.rooms, data.roomNumber) &&
            FindRoom(s.rooms, data.roomNumber).value.isOccupied ==>
              Rejected(s, r, MsgRoomOccupied)
    ensures !NameTaken(s.lecturers, data.name) && HasRoom(s.rooms, data.roomNumber) &&
            !FindRoom(s.rooms, data.roomNumber).value.isOccupied ==>
              r.lecturers == s.lecturers + [NewLecturer(data, id, now)] &&
              r.rooms == SetOccupancy(s.rooms, data.roomNumber, true) &&
              r.toast == Done(MsgCheckedIn)
  {
    if FindByName(s.lecturers, data.name).Some? then
      s.(toast := Failure(MsgAlreadyCheckedIn))
    else
      match FindRoom(s.rooms, data.roomNumber)
      case None => s.(toast := Failure(MsgInvalidRoom))
      case Some(room) =>
        if room.isOccupied then s.(toast := Failure(MsgRoomOccupied))
        else State(SetOccupancy(s.rooms, data.roomNumber, true),
                   s.lecturers + [NewLecturer(data, id, now)],
                   Done(MsgCheckedIn))
  }

  /** handleCheckOut: finds the first lecturer with the name (ignoring case),
      removes every record with that lecturer's id and frees that room. */
  function CheckOut(s: State, name: string): (r: State)
    ensures !NameTaken(s.lecturers, name) ==> Rejected(s, r, MsgLecturerNotFound)
    ensures NameTaken(s.lecturers, name) ==>
              var l := FindByName(s.lecturers, name).value;
              r.lecturers == RemoveLecturer(s.lecturers, l.id) &&
              r.rooms == SetOccupancy(s.rooms, l.roomNumber, false) &&
              r.toast == Done(MsgCheckedOut)
  {
    match FindByName(s.lecturers, name)
    case None => s.(toast := Failure(MsgLecturerNotFound))
    case Some(l) =>
      State(SetOccupancy(s.rooms, l.roomNumber, false),
            RemoveLecturer(s.lecturers, l.id),
            Done(MsgCheckedOut))
  }

  /** handleCheckOutById: an unknown id changes nothing, not even the notice. */
  function CheckOutById(s: State, id: string): (r: State)
    ensures FindById(s.lecturers, id).None? ==> r == s
    ensures FindById(s.lecturers, id).Some? ==>
              var l := FindById(s.lecturers, id).value;
              r.lecturers == RemoveLecturer(s.lecturers, id) &&
              r.rooms == SetOccupancy(s.rooms, l.roomNumber, false) &&
              r.toast == Done(MsgCheckedOut)
  {
    match FindById(s.lecturers, id)
    case None => s
    case Some(l) =>
      State(SetOccupancy(s.rooms, l.roomNumber, false),
            RemoveLecturer(s.lecturers, id),
            Done(MsgCheckedOut))
  }

  /** handleEditLecturer: an unknown id changes nothing, not even the notice.
      Otherwise the record is overwritten by `data` and, when the room
      changes, the old room is freed and the new one occupied without any
      check that it exists or is free. */
  function EditLecturer(s: State, id: string, data: Lecturer): (r: State)
    ensures FindById(s.lecturers, id).None? ==> r == s
    ensures FindById(s.lecturers, id).Some? ==>
              var l := FindById(s.lecturers, id).value;
              r.lecturers == ReplaceLecturer(s.lecturers, id, data) &&
              r.rooms == (if l.roomNumber != data.roomNumber
                          then MoveOccupancy(s.rooms, l.roomNumber, data.roomNumber)
                          else s.rooms) &&
              r.toast == Done(MsgLecturerUpdated)
  {
    match FindById(s.lecturers, id)
    case None => s
    case Some(l) =>
      var rooms := if l.roomNumber != data.roomNumber
                   then MoveOccupancy(s.rooms, l.roomNumber, data.roomNumber)
                   else s.rooms;
      State(rooms, ReplaceLecturer(s.lecturers, id, data), Done(MsgLecturerUpdated))
  }
}
