/**
 * Which handlers keep the occupancy invariant: the room registry handlers,
 * check-in (with a fresh id) and both check-outs do; editing a lecturer
 * keeps it only when the target room is free or unchanged, and otherwise
 * can put two lecturers in one room or a lecturer in a missing room.
 */
module Preservation {
  import opened Wrappers
  import opened Types
  import opened Text
  import opened Lists
  import opened Handlers
  import opened Occupancy

  lemma InitialValid()
    ensures Valid(Initial())
  {
  }

  /** Under unique numbers, the room found for `rooms[k].number` is `rooms[k]`. */
  lemma FindRoomAt(rooms: seq<Room>, k: nat)
    requires UniqueRoomNumbers(rooms) && k < |rooms|
    ensures FindRoom(rooms, rooms[k].number) == Some(rooms[k])
    ensures forall i :: 0 <= i < |rooms| && i != k ==> rooms[i].number != rooms[k].number
  {
    forall i | 0 <= i < |rooms| && i != k ensures rooms[i].number != rooms[k].number {
      if i < k { assert rooms[i].number != rooms[k].number; }
      else { assert rooms[k].number != rooms[i].number; }
    }
  }

  /** The index of the room `FindRoom` returns. */
  lemma FoundRoomIndex(rooms: seq<Room>, n: string) returns (k: nat)
    requires HasRoom(rooms, n)
    ensures k < |rooms| && rooms[k] == FindRoom(rooms, n).value && rooms[k].number == n
  {
    k :| 0 <= k < |rooms| && rooms[k] == FindRoom(rooms, n).value && rooms[k].number == n &&
         forall j :: 0 <= j < k ==> rooms[j].number != n;
  }

  lemma UniqueIdsAt(ls: seq<Lecturer>, k: nat)
    requires UniqueIds(ls) && k < |ls|
    ensures forall i :: 0 <= i < |ls| && i != k ==> ls[i].id != ls[k].id
  {
    forall i | 0 <= i < |ls| && i != k ensures ls[i].id != ls[k].id {
      if i < k { assert ls[i].id != ls[k].id; } else { assert ls[k].id != ls[i].id; }
    }
  }

  lemma OneLecturerPerRoomAt(ls: seq<Lecturer>, k: nat)
    requires OneLecturerPerRoom(ls) && k < |ls|
    ensures forall i :: 0 <= i < |ls| && i != k ==> ls[i].roomNumber != ls[k].roomNumber
  {
    forall i | 0 <= i < |ls| && i != k ensures ls[i].roomNumber != ls[k].roomNumber {
      if i < k { assert ls[i].roomNumber != ls[k].roomNumber; }
      else { assert ls[k].roomNumber != ls[i].roomNumber; }
    }
  }

  // ------------------------------------------------- room registry

  lemma AddRoomKeepsValid(s: State, number: string)
    requires Valid(s)
    ensures Valid(AddRoom(s, number))
  {
    if !HasRoom(s.rooms, number) {
      var r := AddRoom(s, number);
      AppendRoom(s.rooms, Room(number, false));
      assert r.rooms[|s.rooms|] == Room(number, false);
      assert forall q :: 0 <= q < |s.rooms| ==> r.rooms[q] == s.rooms[q];
    }
  }

  lemma EditRoomKeepsValid(s: State, oldNumber: string, newNumber: string)
    requires Valid(s)
    ensures Valid(EditRoom(s, oldNumber, newNumber))
  {
    if !HasRoom(s.rooms, newNumber) {
      var r := EditRoom(s, oldNumber, newNumber);
      assert !Referenced(s.lecturers, newNumber);
      RenameRoom(s.rooms, oldNumber, newNumber);
      RenameLecturerRooms(s.lecturers, oldNumber, newNumber);
      forall q | 0 <= q < |r.rooms|
        ensures r.rooms[q].isOccupied <==> Referenced(r.lecturers, r.rooms[q].number)
      {
        assert s.rooms[q].number != newNumber;
      }
    }
  }

  /** Deleting a free room that is present removes exactly that room. */
  lemma DeleteRoomRemovesOne(s: State, k: nat)
    requires UniqueRoomNumbers(s.rooms)
    requires k < |s.rooms| && !s.rooms[k].isOccupied
    ensures DeleteRoom(s, s.rooms[k].number).rooms == s.rooms[..k] + s.rooms[k + 1..]
    ensures DeleteRoom(s, s.rooms[k].number).toast == Done(MsgRoomDeleted)
  {
    FindRoomAt(s.rooms, k);
    RemoveRoomAt(s.rooms, k);
  }

  /** Removing a free room from the list keeps the invariant. */
  lemma DropFreeRoomKeepsValid(s: State, k: nat, toast: Option<Toast>)
    requires Valid(s) && k < |s.rooms| && !s.rooms[k].isOccupied
    ensures Valid(State(s.rooms[..k] + s.rooms[k + 1..], s.lecturers, toast))
  {
    var t := s.rooms[..k] + s.rooms[k + 1..];
    DropRoom(s.rooms, k);
    assert !Referenced(s.lecturers, s.rooms[k].number);
    forall q | 0 <= q < |t| ensures t[q].isOccupied <==> Referenced(s.lecturers, t[q].number) {
      assert t[q] == s.rooms[if q < k then q else q + 1];
    }
  }

  lemma DeleteRoomKeepsValid(s: State, number: string)
    requires Valid(s)
    ensures Valid(DeleteRoom(s, number))
  {
    if HasRoom(s.rooms, number) && !FindRoom(s.rooms, number).value.isOccupied {
      var k := FoundRoomIndex(s.rooms, number);
      DeleteRoomRemovesOne(s, k);
      DropFreeRoomKeepsValid(s, k, DeleteRoom(s, number).toast);
    }
  }

  // ------------------------------------------------- occupancy

  lemma CheckInKeepsValid(s: State, data: LecturerFormData, id: string, now: string)
    requires Valid(s) && FreshId(s.lecturers, id)
    ensures Valid(CheckIn(s, data, id, now))
  {
    var n := data.roomNumber;
    if !NameTaken(s.lecturers, data.name) && HasRoom(s.rooms, n) &&
       !FindRoom(s.rooms, n).value.isOccupied {
      var r := CheckIn(s, data, id, now);
      var k := FoundRoomIndex(s.rooms, n);
      assert !Referenced(s.lecturers, n);
      AppendLecturer(s.lecturers, NewLecturer(data, id, now));
      SetOccupancyNumbers(s.rooms, n, true);
      SameNumbersKeep(s.rooms, r.rooms);
      FlagFollowsOccupant(s, r.rooms, r.lecturers, n, true);
    }
  }

  /** Removing the lecturer at `k` and freeing that lecturer's room keeps
      the invariant; both check-out handlers end in this state. */
  lemma CheckOutAtKeepsValid(s: State, k: nat, toast: Option<Toast>)
    requires Valid(s) && k < |s.lecturers|
    ensures Valid(State(SetOccupancy(s.rooms, s.lecturers[k].roomNumber, false),
                        s.lecturers[..k] + s.lecturers[k + 1..], toast))
  {
    var n := s.lecturers[k].roomNumber;
    var r := State(SetOccupancy(s.rooms, n, false), s.lecturers[..k] + s.lecturers[k + 1..], toast);
    DropLecturer(s.lecturers, k);
    SetOccupancyNumbers(s.rooms, n, false);
    SameNumbersKeep(s.rooms, r.rooms);
    FlagFollowsOccupant(s, r.rooms, r.lecturers, n, false);
  }

  /** Check-out by name removes exactly the first lecturer of that name. */
  lemma CheckOutRemovesOne(s: State, name: string)
    requires UniqueIds(s.lecturers) && NameTaken(s.lecturers, name)
    ensures exists k :: 0 <= k < |s.lecturers| && SameName(s.lecturers[k].name, name) &&
                        (forall j :: 0 <= j < k ==> !SameName(s.lecturers[j].name, name)) &&
                        CheckOut(s, name).lecturers == s.lecturers[..k] + s.lecturers[k + 1..] &&
                        CheckOut(s, name).rooms == SetOccupancy(s.rooms, s.lecturers[k].roomNumber, false)
  {
    var ls := s.lecturers;
    var k :| 0 <= k < |ls| && ls[k] == FindByName(ls, name).value && SameName(ls[k].name, name) &&
             forall j :: 0 <= j < k ==> !SameName(ls[j].name, name);
    UniqueIdsAt(ls, k);
    RemoveLecturerAt(ls, k);
  }

  /** Check-out by id removes exactly the lecturer with that id. */
  lemma CheckOutByIdRemovesOne(s: State, k: nat)
    requires UniqueIds(s.lecturers) && k < |s.lecturers|
    ensures CheckOutById(s, s.lecturers[k].id).lecturers == s.lecturers[..k] + s.lecturers[k + 1..]
    ensures CheckOutById(s, s.lecturers[k].id).rooms ==
              SetOccupancy(s.rooms, s.lecturers[k].roomNumber, false)
  {
    UniqueIdsAt(s.lecturers, k);
    RemoveLecturerAt(s.lecturers, k);
    assert FindById(s.lecturers, s.lecturers[k].id) == Some(s.lecturers[k]);
  }

  lemma CheckOutKeepsValid(s: State, name: string)
    requires Valid(s)
    ensures Valid(CheckOut(s, name))
  {
    if NameTaken(s.lecturers, name) {
      var ls := s.lecturers;
      var k :| 0 <= k < |ls| && ls[k] == FindByName(ls, name).value;
      UniqueIdsAt(ls, k);
      RemoveLecturerAt(ls, k);
      CheckOutAtKeepsValid(s, k, CheckOut(s, name).toast);
    }
  }

  lemma CheckOutByIdKeepsValid(s: State, id: string)
    requires Valid(s)
    ensures Valid(CheckOutById(s, id))
  {
    var found := FindById(s.lecturers, id);
    if found.Some? {
      var k :| 0 <= k < |s.lecturers| && s.lecturers[k] == found.value && s.lecturers[k].id == id;
      CheckOutByIdRemovesOne(s, k);
      CheckOutAtKeepsValid(s, k, CheckOutById(s, id).toast);
    }
  }

  // ------------------------------------------------- editing a lecturer

  /** Under unique ids, editing the lecturer at `k` overwrites exactly that
      record and, when the room changes, moves occupancy between the rooms. */
  lemma EditLecturerReplacesOne(s: State, k: nat, data: Lecturer)
    requires UniqueIds(s.lecturers) && k < |s.lecturers|
    ensures EditLecturer(s, s.lecturers[k].id, data).lecturers == s.lecturers[k := data]
    ensures EditLecturer(s, s.lecturers[k].id, data).rooms ==
              if s.lecturers[k].roomNumber == data.roomNumber then s.rooms
              else MoveOccupancy(s.rooms, s.lecturers[k].roomNumber, data.roomNumber)
  {
    UniqueIdsAt(s.lecturers, k);
    ReplaceLecturerOnly(s.lecturers, k, data);
    assert FindById(s.lecturers, s.lecturers[k].id) == Some(s.lecturers[k]);
  }

  /** Overwriting the lecturer at `k` by a record for the same room that
      clashes with no other lecturer keeps the invariant. */
  lemma StayKeepsValid(s: State, k: nat, data: Lecturer, toast: Option<Toast>)
    requires Valid(s) && k < |s.lecturers| && data.roomNumber == s.lecturers[k].roomNumber
    requires forall i :: 0 <= i < |s.lecturers| && i != k ==>
               s.lecturers[i].id != data.id && !SameName(s.lecturers[i].name, data.name)
    ensures Valid(State(s.rooms, s.lecturers[k := data], toast))
  {
    OneLecturerPerRoomAt(s.lecturers, k);
    ReplaceLecturerAt(s.lecturers, k, data);
  }

  /** Moving the lecturer at `k` into the free room at `q`, with a record
      that clashes with no other lecturer, keeps the invariant. */
  lemma MoveKeepsValid(s: State, k: nat, data: Lecturer, q: nat, toast: Option<Toast>)
    requires Valid(s) && k < |s.lecturers| && q < |s.rooms|
    requires s.rooms[q].number == data.roomNumber && !s.rooms[q].isOccupied
    requires data.roomNumber != s.lecturers[k].roomNumber
    requires forall i :: 0 <= i < |s.lecturers| && i != k ==>
               s.lecturers[i].id != data.id && !SameName(s.lecturers[i].name, data.name)
    ensures Valid(State(MoveOccupancy(s.rooms, s.lecturers[k].roomNumber, data.roomNumber),
                        s.lecturers[k := data], toast))
  {
    var ls := s.lecturers;
    var from, to := ls[k].roomNumber, data.roomNumber;
    assert !Referenced(ls, to);
    ReplaceLecturerAt(ls, k, data);
    MoveIsFreeThenOccupy(s.rooms, from, to);
    var rooms1 := SetOccupancy(s.rooms, from, false);
    var ls1 := ls[..k] + ls[k + 1..];
    DropLecturer(ls, k);
    SetOccupancyNumbers(s.rooms, from, false);
    SameNumbersKeep(s.rooms, rooms1);
    FlagFollowsOccupant(s, rooms1, ls1, from, false);
    var rooms2 := SetOccupancy(rooms1, to, true);
    SetOccupancyNumbers(rooms1, to, true);
    SameNumbersKeep(rooms1, rooms2);
    FlagFollowsOccupant(State(rooms1, ls1, s.toast), rooms2, ls[k := data], to, true);
  }

  /** Editing keeps the invariant when no other lecturer has the new id or
      name and the lecturer either stays put or moves into a free room. */
  lemma EditLecturerKeepsValid(s: State, k: nat, data: Lecturer)
    requires Valid(s) && k < |s.lecturers|
    requires forall i :: 0 <= i < |s.lecturers| && i != k ==>
               s.lecturers[i].id != data.id && !SameName(s.lecturers[i].name, data.name)
    requires data.roomNumber != s.lecturers[k].roomNumber ==>
               HasRoom(s.rooms, data.roomNumber) && !FindRoom(s.rooms, data.roomNumber).value.isOccupied
    ensures Valid(EditLecturer(s, s.lecturers[k].id, data))
  {
    var r := EditLecturer(s, s.lecturers[k].id, data);
    EditLecturerReplacesOne(s, k, data);
    if data.roomNumber == s.lecturers[k].roomNumber {
      StayKeepsValid(s, k, data, r.toast);
    } else {
      var q := FoundRoomIndex(s.rooms, data.roomNumber);
      MoveKeepsValid(s, k, data, q, r.toast);
    }
  }

  /** Moving a lecturer into the room of another lecturer is accepted: the
      room stays flagged occupied while two lecturers now sit in it, so the
      invariant no longer holds. */
  lemma EditLecturerDoublesUp(s: State, i: nat, j: nat, data: Lecturer)
    requires Valid(s) && i < |s.lecturers| && j < |s.lecturers| && i != j
    requires data.roomNumber == s.lecturers[j].roomNumber
    ensures var r := EditLecturer(s, s.lecturers[i].id, data);
            r.toast == Done(MsgLecturerUpdated) &&
            Occupants(r.lecturers, data.roomNumber) >= 2 &&
            (exists q :: 0 <= q < |r.rooms| && r.rooms[q].number == data.roomNumber && r.rooms[q].isOccupied) &&
            !Valid(r)
  {
    var ls := s.lecturers;
    var r := EditLecturer(s, ls[i].id, data);
    EditLecturerReplacesOne(s, i, data);
    OneLecturerPerRoomAt(ls, i);
    var t := r.lecturers;
    assert t[i].roomNumber == data.roomNumber && t[j].roomNumber == data.roomNumber;
    if i < j { OccupantsOfTwo(t, data.roomNumber, i, j); }
    else { OccupantsOfTwo(t, data.roomNumber, j, i); }
    assert Referenced(ls, data.roomNumber);
    var q := FoundRoomIndex(s.rooms, data.roomNumber);
    assert r.rooms[q].number == data.roomNumber && r.rooms[q].isOccupied;
    if Valid(r) {
      OccupantsAtMostOne(t, data.roomNumber);
    }
  }

  /** Moving a lecturer to a room that does not exist is accepted and frees
      the lecturer's old room, so the lecturer sits in no listed room. */
  lemma EditLecturerToMissingRoom(s: State, i: nat, data: Lecturer)
    requires Valid(s) && i < |s.lecturers|
    requires !HasRoom(s.rooms, data.roomNumber)
    ensures var r := EditLecturer(s, s.lecturers[i].id, data);
            r.toast == Done(MsgLecturerUpdated) &&
            (forall q :: 0 <= q < |r.rooms| && r.rooms[q].number == s.lecturers[i].roomNumber ==>
                         !r.rooms[q].isOccupied) &&
            !Valid(r)
  {
    var ls := s.lecturers;
    var r := EditLecturer(s, ls[i].id, data);
    EditLecturerReplacesOne(s, i, data);
    assert Referenced(ls, ls[i].roomNumber);
    assert r.lecturers[i].roomNumber == data.roomNumber;
    MoveOccupancyNumbers(s.rooms, ls[i].roomNumber, data.roomNumber);
    SameNumbersKeep(s.rooms, r.rooms);
  }

  lemma MoveOccupancyNumbers(rooms: seq<Room>, from: string, to: string)
    ensures SameNumbers(rooms, MoveOccupancy(rooms, from, to))
  {
  }
}
