/**
 * Properties relating several handler calls: check-in undone by either
 * check-out, a repeated room add, and what a room rename does to the people
 * in that room.
 */
module RoundTrip {
  import opened Types
  import opened Text
  import opened Lists
  import opened Handlers
  import opened Occupancy
  import opened Preservation

  /** The facts both round trips share: the check-in succeeds, and freeing
      the room it occupied gives back the original room list. */
  lemma CheckInSucceeds(s: State, data: LecturerFormData, id: string, now: string, k: nat)
    requires UniqueRoomNumbers(s.rooms)
    requires !NameTaken(s.lecturers, data.name)
    requires k < |s.rooms| && s.rooms[k].number == data.roomNumber && !s.rooms[k].isOccupied
    ensures CheckIn(s, data, id, now).lecturers == s.lecturers + [NewLecturer(data, id, now)]
    ensures SetOccupancy(CheckIn(s, data, id, now).rooms, data.roomNumber, false) == s.rooms
  {
    FindRoomAt(s.rooms, k);
    var once := SetOccupancy(s.rooms, data.roomNumber, true);
    var twice := SetOccupancy(once, data.roomNumber, false);
    forall q | 0 <= q < |s.rooms| ensures twice[q] == s.rooms[q] {
      if s.rooms[q].number == data.roomNumber {
        assert q == k;
      }
    }
  }

  /** Checking a lecturer in and then out by the same name restores both
      lists exactly. */
  lemma CheckInThenCheckOut(s: State, data: LecturerFormData, id: string, now: string, k: nat)
    requires UniqueRoomNumbers(s.rooms) && FreshId(s.lecturers, id)
    requires !NameTaken(s.lecturers, data.name)
    requires k < |s.rooms| && s.rooms[k].number == data.roomNumber && !s.rooms[k].isOccupied
    ensures var r := CheckOut(CheckIn(s, data, id, now), data.name);
            r.rooms == s.rooms && r.lecturers == s.lecturers && r.toast == Done(MsgCheckedOut)
  {
    CheckInSucceeds(s, data, id, now, k);
    var ls := s.lecturers;
    var l := NewLecturer(data, id, now);
    var t := ls + [l];
    assert forall j :: 0 <= j < |ls| ==> t[j] == ls[j];
    assert t[|ls|] == l && SameName(l.name, data.name);
    assert FirstNameMatch(t, data.name) == |ls|;
    RemoveLecturerAt(t, |ls|);
    assert t[..|ls|] == ls;
  }

  /** Checking a lecturer in and then out by the id the check-in assigned
      restores both lists exactly. */
  lemma CheckInThenCheckOutById(s: State, data: LecturerFormData, id: string, now: string, k: nat)
    requires UniqueRoomNumbers(s.rooms) && FreshId(s.lecturers, id)
    requires !NameTaken(s.lecturers, data.name)
    requires k < |s.rooms| && s.rooms[k].number == data.roomNumber && !s.rooms[k].isOccupied
    ensures var r := CheckOutById(CheckIn(s, data, id, now), id);
            r.rooms == s.rooms && r.lecturers == s.lecturers && r.toast == Done(MsgCheckedOut)
  {
    CheckInSucceeds(s, data, id, now, k);
    var ls := s.lecturers;
    var l := NewLecturer(data, id, now);
    var t := ls + [l];
    assert forall j :: 0 <= j < |ls| ==> t[j] == ls[j];
    assert t[|ls|] == l;
    var j :| 0 <= j < |t| && t[j] == FindById(t, id).value && t[j].id == id;
    assert j == |ls|;
    RemoveLecturerAt(t, |ls|);
    assert t[..|ls|] == ls;
  }

  /** Once a lecturer is checked in, a second check-in under a name that
      differs only in letter case is refused and changes nothing. */
  lemma CaseVariantRejected(s: State, data: LecturerFormData, id: string, now: string,
                            again: LecturerFormData, id2: string, now2: string)
    requires CheckIn(s, data, id, now).toast == Done(MsgCheckedIn)
    requires Lower(again.name) == Lower(data.name)
    ensures var once := CheckIn(s, data, id, now);
            Rejected(once, CheckIn(once, again, id2, now2), MsgAlreadyCheckedIn)
  {
    var once := CheckIn(s, data, id, now);
    assert once.lecturers[|s.lecturers|].name == data.name;
  }

  /** Adding the same room number twice fails the second time without
      touching the lists. */
  lemma AddRoomTwice(s: State, number: string)
    ensures var once := AddRoom(s, number);
            Rejected(once, AddRoom(once, number), MsgRoomExists)
  {
  }

  /** A successful rename moves every lecturer of the old room to the new
      number, leaves everyone else where they were, and leaves no room with
      the old number. */
  lemma EditRoomRelabels(s: State, oldNumber: string, newNumber: string)
    requires !HasRoom(s.rooms, newNumber)
    ensures var r := EditRoom(s, oldNumber, newNumber);
            |r.lecturers| == |s.lecturers| &&
            (forall i :: 0 <= i < |s.lecturers| ==>
               r.lecturers[i].roomNumber ==
                 (if s.lecturers[i].roomNumber == oldNumber then newNumber else s.lecturers[i].roomNumber) &&
               r.lecturers[i].(roomNumber := s.lecturers[i].roomNumber) == s.lecturers[i]) &&
            !HasRoom(r.rooms, oldNumber) &&
            (HasRoom(r.rooms, newNumber) <==> HasRoom(s.rooms, oldNumber))
  {
    var r := EditRoom(s, oldNumber, newNumber);
    if HasRoom(s.rooms, oldNumber) {
      var q :| 0 <= q < |s.rooms| && s.rooms[q].number == oldNumber;
      assert r.rooms[q].number == newNumber;
    }
    if HasRoom(r.rooms, newNumber) {
      var q :| 0 <= q < |r.rooms| && r.rooms[q].number == newNumber;
      assert s.rooms[q].number == oldNumber;
    }
  }
}
