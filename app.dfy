/**
 * The App component as an object: the room list, the lecturer list and the
 * notice are fields that each handler reassigns (the `setRooms`,
 * `setLecturers` and `setToast` calls), returning early on a failed check.
 * Each method is proved to produce exactly the state its handler function
 * describes, and to keep the occupancy invariant where the handler does.
 */
module AppComponent {
  import opened Wrappers
  import opened Types
  import opened Lists
  import opened Handlers
  import Occupancy
  import Preservation

  class App {
    var rooms: seq<Room>
    var lecturers: seq<Lecturer>
    var toast: Option<Toast>

    /** The held state as a value. */
    function Model(): State
      reads this
    {
      State(rooms, lecturers, toast)
    }

    ghost predicate Valid()
      reads this
    {
      Occupancy.Valid(Model())
    }

    /** Nothing saved yet: the starter rooms, no lecturers, no notice. */
    constructor ()
      ensures Model() == Initial() && Valid()
    {
      rooms := DefaultRooms;
      lecturers := [];
      toast := None;
      Preservation.InitialValid();
    }

    method HandleAddRoom(roomNumber: string)
      modifies this
      ensures Model() == AddRoom(old(Model()), roomNumber)
      ensures old(Valid()) ==> Valid()
    {
      if Valid() { Preservation.AddRoomKeepsValid(Model(), roomNumber); }
      if HasRoom(rooms, roomNumber) {
        toast := Failure(MsgRoomExists);
        return;
      }
      rooms := rooms + [Room(roomNumber, false)];
      toast := Done(MsgRoomAdded);
    }

    method HandleEditRoom(oldNumber: string, newNumber: string)
      modifies this
      ensures Model() == EditRoom(old(Model()), oldNumber, newNumber)
      ensures old(Valid()) ==> Valid()
    {
      if Valid() { Preservation.EditRoomKeepsValid(Model(), oldNumber, newNumber); }
      if HasRoom(rooms, newNumber) {
        toast := Failure(MsgRoomNumberExists);
        return;
      }
      rooms := RenameRooms(rooms, oldNumber, newNumber);
      lecturers := RenameLecturers(lecturers, oldNumber, newNumber);
      toast := Done(MsgRoomUpdated);
    }

    method HandleDeleteRoom(roomNumber: string)
      modifies this
      ensures Model() == DeleteRoom(old(Model()), roomNumber)
      ensures old(Valid()) ==> Valid()
    {
      if Valid() { Preservation.DeleteRoomKeepsValid(Model(), roomNumber); }
      var room := FindRoom(rooms, roomNumber);
      if room.None? {
        toast := Failure(MsgRoomNotFound);
        return;
      }
      if room.value.isOccupied {
        toast := Failure(MsgRoomInUse);
        return;
      }
      rooms := RemoveRoom(rooms, roomNumber);
      toast := Done(MsgRoomDeleted);
    }

    /** `id` and `now` are the generated identifier and the current time;
        the generator is trusted to give an id no lecturer has. */
    method HandleCheckIn(data: LecturerFormData, id: string, now: string)
      requires Occupancy.FreshId(lecturers, id)
      modifies this
      ensures Model() == CheckIn(old(Model()), data, id, now)
      ensures old(Valid()) ==> Valid()
    {
      if Valid() { Preservation.CheckInKeepsValid(Model(), data, id, now); }
      var existing := FindByName(lecturers, data.name);
      if existing.Some? {
        toast := Failure(MsgAlreadyCheckedIn);
        return;
      }
      var room := FindRoom(rooms, data.roomNumber);
      if room.None? {
        toast := Failure(MsgInvalidRoom);
        return;
      }
      if room.value.isOccupied {
        toast := Failure(MsgRoomOccupied);
        return;
      }
      var newLecturer := NewLecturer(data, id, now);
      lecturers := lecturers + [newLecturer];
      rooms := SetOccupancy(rooms, data.roomNumber, true);
      toast := Done(MsgCheckedIn);
    }

    method HandleCheckOut(name: string)
      modifies this
      ensures Model() == CheckOut(old(Model()), name)
      ensures old(Valid()) ==> Valid()
    {
      if Valid() { Preservation.CheckOutKeepsValid(Model(), name); }
      var lecturer := FindByName(lecturers, name);
      if lecturer.None? {
        toast := Failure(MsgLecturerNotFound);
        return;
      }
      lecturers := RemoveLecturer(lecturers, lecturer.value.id);
      rooms := SetOccupancy(rooms, lecturer.value.roomNumber, false);
      toast := Done(MsgCheckedOut);
    }

    method HandleCheckOutById(id: string)
      modifies this
      ensures Model() == CheckOutById(old(Model()), id)
      ensures old(Valid()) ==> Valid()
    {
      if Valid() { Preservation.CheckOutByIdKeepsValid(Model(), id); }
      var lecturer := FindById(lecturers, id);
      if lecturer.Some? {
        lecturers := RemoveLecturer(lecturers, id);
        rooms := SetOccupancy(rooms, lecturer.value.roomNumber, false);
        toast := Done(MsgCheckedOut);
      }
    }

    /** Promises no invariant: see Preservation.EditLecturerDoublesUp. */
    method HandleEditLecturer(id: string, data: Lecturer)
      modifies this
      ensures Model() == EditLecturer(old(Model()), id, data)
    {
      var lecturer := FindById(lecturers, id);
      if lecturer.None? {
        return;
      }
      if lecturer.value.roomNumber != data.roomNumber {
        rooms := MoveOccupancy(rooms, lecturer.value.roomNumber, data.roomNumber);
      }
      lecturers := ReplaceLecturer(lecturers, id, data);
      toast := Done(MsgLecturerUpdated);
    }
  }
}
