/**
 * The data model of the room tracker: rooms, lecturers, the one-slot
 * outcome notice ("toast") and the application state that holds them.
 */
module Types {
  import opened Wrappers

  /** The lecturer's profile fields other than id, name, room and check-in
      time; their shape belongs to the form components and is left abstract. */
  type Profile(!new)

  /** A room record; `number` is its key. */
  datatype Room = Room(number: string, isOccupied: bool)

  /** A checked-in lecturer. */
  datatype Lecturer = Lecturer(
    id: string,
    name: string,
    roomNumber: string,
    checkInDate: string,
    profile: Profile)

  /** What the check-in form submits: a lecturer without id and check-in time. */
  datatype LecturerFormData = LecturerFormData(name: string, roomNumber: string, profile: Profile)

  datatype ToastKind = Success | Error

  /** The notice describing the outcome of the last handler. */
  datatype Toast = Toast(message: string, kind: ToastKind)

  /** Everything the handlers read and replace. */
  datatype State = State(rooms: seq<Room>, lecturers: seq<Lecturer>, toast: Option<Toast>)

  /** The starter rooms used when nothing has been saved yet. */
  const DefaultRooms: seq<Room> := [
    Room("A101", false),
    Room("A102", false),
    Room("B201", false),
    Room("B202", false)
  ]

  /** The state on first start: starter rooms, nobody checked in, no notice.
      Every starter room is free and no two share a number. */
  function Initial(): (s: State)
    ensures s.lecturers == [] && s.toast == None
    ensures forall i :: 0 <= i < |s.rooms| ==> !s.rooms[i].isOccupied
    ensures forall i, j :: 0 <= i < j < |s.rooms| ==> s.rooms[i].number != s.rooms[j].number
  {
    var rooms := DefaultRooms;
    assert rooms[0].number[3] == '1' && rooms[1].number[3] == '2';
    assert rooms[2].number[3] == '1' && rooms[3].number[3] == '2';
    assert rooms[0].number[0] == 'A' && rooms[1].number[0] == 'A';
    assert rooms[2].number[0] == 'B' && rooms[3].number[0] == 'B';
    State(rooms, [], None)
  }
}
