/**
 * The occupancy invariant: room numbers are unique, every lecturer has a
 * unique id and a unique name (ignoring case) and sits in an existing room,
 * no two lecturers share a room, and a room is flagged occupied exactly when
 * a lecturer sits in it.  The lemmas here say how each list rewrite the
 * handlers use affects the parts of the invariant.
 */
module Occupancy {
  import opened Types
  import opened Text
  import opened Lists

  ghost predicate UniqueRoomNumbers(rooms: seq<Room>) {
    forall i, j :: 0 <= i < j < |rooms| ==> rooms[i].number != rooms[j].number
  }

  ghost predicate UniqueIds(ls: seq<Lecturer>) {
    forall i, j :: 0 <= i < j < |ls| ==> ls[i].id != ls[j].id
  }

  ghost predicate UniqueNames(ls: seq<Lecturer>) {
    forall i, j :: 0 <= i < j < |ls| ==> !SameName(ls[i].name, ls[j].name)
  }

  ghost predicate OneLecturerPerRoom(ls: seq<Lecturer>) {
    forall i, j :: 0 <= i < j < |ls| ==> ls[i].roomNumber != ls[j].roomNumber
  }

  /** The three pairwise conditions on the lecturer list. */
  ghost predicate LecturersDistinct(ls: seq<Lecturer>) {
    UniqueIds(ls) && UniqueNames(ls) && OneLecturerPerRoom(ls)
  }

  /** Some lecturer sits in room `n`. */
  predicate Referenced(ls: seq<Lecturer>, n: string) {
    exists i :: 0 <= i < |ls| && ls[i].roomNumber == n
  }

  /** Every room a lecturer sits in is in the room list. */
  ghost predicate RoomsResolve(s: State) {
    forall x :: Referenced(s.lecturers, x) ==> HasRoom(s.rooms, x)
  }

  /** A room is flagged occupied exactly when some lecturer sits in it. */
  ghost predicate OccupancyAgrees(s: State) {
    forall k :: 0 <= k < |s.rooms| ==>
      (s.rooms[k].isOccupied <==> Referenced(s.lecturers, s.rooms[k].number))
  }

  ghost predicate Valid(s: State) {
    UniqueRoomNumbers(s.rooms) && LecturersDistinct(s.lecturers) &&
    RoomsResolve(s) && OccupancyAgrees(s)
  }

  /** The generated identifier is new. */
  predicate FreshId(ls: seq<Lecturer>, id: string) {
    forall i :: 0 <= i < |ls| ==> ls[i].id != id
  }

  /** The number of lecturers sitting in room `n`. */
  function Occupants(ls: seq<Lecturer>, n: string): nat {
    if ls == [] then 0 else (if ls[0].roomNumber == n then 1 else 0) + Occupants(ls[1..], n)
  }

  // ------------------------------------------------- counting occupants

  lemma {:induction false} OccupantsReferenced(ls: seq<Lecturer>, n: string)
    ensures Occupants(ls, n) > 0 <==> Referenced(ls, n)
  {
    if ls != [] {
      OccupantsReferenced(ls[1..], n);
      if Referenced(ls, n) && ls[0].roomNumber != n {
        var i :| 0 <= i < |ls| && ls[i].roomNumber == n;
        assert ls[1..][i - 1].roomNumber == n;
      }
    }
  }

  lemma {:induction false} OccupantsAtMostOne(ls: seq<Lecturer>, n: string)
    requires OneLecturerPerRoom(ls)
    ensures Occupants(ls, n) <= 1
  {
    if ls != [] {
      var t := ls[1..];
      assert forall i :: 0 <= i < |t| ==> t[i] == ls[i + 1];
      assert OneLecturerPerRoom(t);
      OccupantsAtMostOne(t, n);
      if ls[0].roomNumber == n {
        OccupantsReferenced(t, n);
      }
    }
  }

  lemma {:induction false} OccupantsOfTwo(ls: seq<Lecturer>, n: string, i: nat, j: nat)
    requires i < j < |ls| && ls[i].roomNumber == n && ls[j].roomNumber == n
    ensures Occupants(ls, n) >= 2
  {
    if i == 0 {
      assert ls[1..][j - 1].roomNumber == n;
      OccupantsReferenced(ls[1..], n);
    } else {
      OccupantsOfTwo(ls[1..], n, i - 1, j - 1);
    }
  }

  /** Under the invariant a room is occupied exactly when one lecturer, and
      not two or more, sits in it. */
  lemma ExactlyOneOccupant(s: State, k: nat)
    requires Valid(s) && k < |s.rooms|
    ensures s.rooms[k].isOccupied <==> Occupants(s.lecturers, s.rooms[k].number) == 1
  {
    OccupantsReferenced(s.lecturers, s.rooms[k].number);
    OccupantsAtMostOne(s.lecturers, s.rooms[k].number);
  }

  // ------------------------------------------------- room list rewrites

  /** Two room lists with the same numbers position by position. */
  ghost predicate SameNumbers(a: seq<Room>, b: seq<Room>) {
    |a| == |b| && forall i :: 0 <= i < |a| ==> a[i].number == b[i].number
  }

  lemma SameNumbersKeep(a: seq<Room>, b: seq<Room>)
    requires SameNumbers(a, b)
    ensures UniqueRoomNumbers(a) ==> UniqueRoomNumbers(b)
    ensures forall x :: HasRoom(a, x) <==> HasRoom(b, x)
  {
    forall x ensures HasRoom(a, x) <==> HasRoom(b, x) {
      if HasRoom(a, x) {
        var i :| 0 <= i < |a| && a[i].number == x;
        assert b[i].number == x;
      }
      if HasRoom(b, x) {
        var i :| 0 <= i < |b| && b[i].number == x;
        assert a[i].number == x;
      }
    }
  }

  lemma SetOccupancyNumbers(rooms: seq<Room>, n: string, b: bool)
    ensures SameNumbers(rooms, SetOccupancy(rooms, n, b))
  {
  }

  lemma AppendRoom(rooms: seq<Room>, room: Room)
    requires UniqueRoomNumbers(rooms) && !HasRoom(rooms, room.number)
    ensures UniqueRoomNumbers(rooms + [room])
    ensures forall x :: HasRoom(rooms + [room], x) <==> HasRoom(rooms, x) || x == room.number
  {
    var t := rooms + [room];
    assert forall i :: 0 <= i < |rooms| ==> t[i] == rooms[i];
    assert t[|rooms|] == room;
    forall x ensures HasRoom(t, x) <==> HasRoom(rooms, x) || x == room.number {
      if HasRoom(rooms, x) {
        var i :| 0 <= i < |rooms| && rooms[i].number == x;
        assert t[i].number == x;
      }
    }
  }

  lemma DropRoom(rooms: seq<Room>, k: nat)
    requires UniqueRoomNumbers(rooms) && k < |rooms|
    ensures UniqueRoomNumbers(rooms[..k] + rooms[k + 1..])
    ensures forall x :: HasRoom(rooms[..k] + rooms[k + 1..], x) <==>
                        HasRoom(rooms, x) && x != rooms[k].number
  {
    DropKeepsUnique(rooms, k);
    forall x ensures HasRoom(rooms[..k] + rooms[k + 1..], x) <==> HasRoom(rooms, x) && x != rooms[k].number {
      DropHasRoom(rooms, k, x);
    }
  }

  lemma DropKeepsUnique(rooms: seq<Room>, k: nat)
    requires UniqueRoomNumbers(rooms) && k < |rooms|
    ensures UniqueRoomNumbers(rooms[..k] + rooms[k + 1..])
  {
    var t := rooms[..k] + rooms[k + 1..];
    forall i, j | 0 <= i < j < |t| ensures t[i].number != t[j].number {
      assert t[i] == rooms[if i < k then i else i + 1];
      assert t[j] == rooms[if j < k then j else j + 1];
    }
  }

  lemma DropHasRoom(rooms: seq<Room>, k: nat, x: string)
    requires UniqueRoomNumbers(rooms) && k < |rooms|
    ensures HasRoom(rooms[..k] + rooms[k + 1..], x) <==> HasRoom(rooms, x) && x != rooms[k].number
  {
    var t := rooms[..k] + rooms[k + 1..];
    if HasRoom(t, x) {
      var q :| 0 <= q < |t| && t[q].number == x;
      var q' := if q < k then q else q + 1;
      assert t[q] == rooms[q'];
      if q' < k {
        assert rooms[q'].number != rooms[k].number;
      } else {
        assert rooms[k].number != rooms[q'].number;
      }
    }
    if HasRoom(rooms, x) && x != rooms[k].number {
      var q :| 0 <= q < |rooms| && rooms[q].number == x;
      assert t[if q < k then q else q - 1] == rooms[q];
    }
  }

  lemma RenameRoom(rooms: seq<Room>, from: string, to: string)
    requires UniqueRoomNumbers(rooms) && !HasRoom(rooms, to)
    ensures UniqueRoomNumbers(RenameRooms(rooms, from, to))
    ensures forall x :: HasRoom(RenameRooms(rooms, from, to), x) <==>
                        (x == to && HasRoom(rooms, from)) || (x != from && x != to && HasRoom(rooms, x))
  {
    var t := RenameRooms(rooms, from, to);
    forall x ensures HasRoom(t, x) <==>
                     (x == to && HasRoom(rooms, from)) || (x != from && x != to && HasRoom(rooms, x))
    {
      if HasRoom(t, x) {
        var q :| 0 <= q < |t| && t[q].number == x;
        assert rooms[q].number == from || rooms[q].number == x;
      }
      if x == to && HasRoom(rooms, from) {
        var q :| 0 <= q < |rooms| && rooms[q].number == from;
        assert t[q].number == x;
      }
      if x != from && x != to && HasRoom(rooms, x) {
        var q :| 0 <= q < |rooms| && rooms[q].number == x;
        assert t[q].number == x;
      }
    }
  }

  // --------------------------------------------- lecturer list rewrites

  lemma AppendLecturer(ls: seq<Lecturer>, l: Lecturer)
    requires LecturersDistinct(ls)
    requires FreshId(ls, l.id) && !Referenced(ls, l.roomNumber)
    requires forall i :: 0 <= i < |ls| ==> !SameName(ls[i].name, l.name)
    ensures LecturersDistinct(ls + [l])
    ensures forall x :: Referenced(ls + [l], x) <==> Referenced(ls, x) || x == l.roomNumber
  {
    var t := ls + [l];
    assert forall i :: 0 <= i < |ls| ==> t[i] == ls[i];
    assert t[|ls|] == l;
    forall x ensures Referenced(t, x) <==> Referenced(ls, x) || x == l.roomNumber {
      if Referenced(ls, x) {
        var i :| 0 <= i < |ls| && ls[i].roomNumber == x;
        assert t[i].roomNumber == x;
      }
    }
  }

  lemma DropLecturer(ls: seq<Lecturer>, k: nat)
    requires LecturersDistinct(ls) && k < |ls|
    ensures LecturersDistinct(ls[..k] + ls[k + 1..])
    ensures forall x :: Referenced(ls[..k] + ls[k + 1..], x) <==>
                        Referenced(ls, x) && x != ls[k].roomNumber
  {
    var t := ls[..k] + ls[k + 1..];
    DropKeepsDistinct(ls, k);
    forall x ensures Referenced(t, x) <==> Referenced(ls, x) && x != ls[k].roomNumber {
      DropReferenced(ls, k, x);
    }
  }

  lemma DropKeepsDistinct(ls: seq<Lecturer>, k: nat)
    requires LecturersDistinct(ls) && k < |ls|
    ensures LecturersDistinct(ls[..k] + ls[k + 1..])
  {
    var t := ls[..k] + ls[k + 1..];
    forall i, j | 0 <= i < j < |t|
      ensures t[i].id != t[j].id && !SameName(t[i].name, t[j].name) &&
              t[i].roomNumber != t[j].roomNumber
    {
      assert t[i] == ls[if i < k then i else i + 1];
      assert t[j] == ls[if j < k then j else j + 1];
    }
  }

  lemma DropReferenced(ls: seq<Lecturer>, k: nat, x: string)
    requires OneLecturerPerRoom(ls) && k < |ls|
    ensures Referenced(ls[..k] + ls[k + 1..], x) <==> Referenced(ls, x) && x != ls[k].roomNumber
  {
    var t := ls[..k] + ls[k + 1..];
    if Referenced(t, x) {
      var i :| 0 <= i < |t| && t[i].roomNumber == x;
      var i' := if i < k then i else i + 1;
      assert t[i] == ls[i'];
      if i' < k {
        assert ls[i'].roomNumber != ls[k].roomNumber;
      } else {
        assert ls[k].roomNumber != ls[i'].roomNumber;
      }
    }
    if Referenced(ls, x) && x != ls[k].roomNumber {
      var i :| 0 <= i < |ls| && ls[i].roomNumber == x;
      assert t[if i < k then i else i - 1] == ls[i];
    }
  }

  lemma ReplaceLecturerAt(ls: seq<Lecturer>, k: nat, d: Lecturer)
    requires LecturersDistinct(ls) && k < |ls|
    requires forall i :: 0 <= i < |ls| && i != k ==>
               ls[i].id != d.id && !SameName(ls[i].name, d.name) && ls[i].roomNumber != d.roomNumber
    ensures LecturersDistinct(ls[k := d])
    ensures forall x :: Referenced(ls[k := d], x) <==>
                        (Referenced(ls, x) && x != ls[k].roomNumber) || x == d.roomNumber
  {
    var t := ls[k := d];
    forall i, j | 0 <= i < j < |t|
      ensures t[i].id != t[j].id && !SameName(t[i].name, t[j].name) &&
              t[i].roomNumber != t[j].roomNumber
    {
      if i != k && j != k {
        assert t[i] == ls[i] && t[j] == ls[j];
      } else if i == k {
        assert t[j] == ls[j];
        assert !SameName(ls[j].name, d.name);
      } else {
        assert t[i] == ls[i];
      }
    }
    forall x ensures Referenced(t, x) <==> (Referenced(ls, x) && x != ls[k].roomNumber) || x == d.roomNumber {
      if Referenced(t, x) && x != d.roomNumber {
        var i :| 0 <= i < |t| && t[i].roomNumber == x;
        assert i != k && ls[i].roomNumber == x;
        if i < k {
          assert ls[i].roomNumber != ls[k].roomNumber;
        } else {
          assert ls[k].roomNumber != ls[i].roomNumber;
        }
      }
      if Referenced(ls, x) && x != ls[k].roomNumber {
        var i :| 0 <= i < |ls| && ls[i].roomNumber == x;
        assert t[i].roomNumber == x;
      }
      assert t[k].roomNumber == d.roomNumber;
    }
  }

  lemma RenameLecturerRooms(ls: seq<Lecturer>, from: string, to: string)
    requires LecturersDistinct(ls) && !Referenced(ls, to)
    ensures LecturersDistinct(RenameLecturers(ls, from, to))
    ensures forall x :: Referenced(RenameLecturers(ls, from, to), x) <==>
                        (x == to && Referenced(ls, from)) || (x != from && x != to && Referenced(ls, x))
  {
    var t := RenameLecturers(ls, from, to);
    forall i, j | 0 <= i < j < |t|
      ensures t[i].id != t[j].id && !SameName(t[i].name, t[j].name) &&
              t[i].roomNumber != t[j].roomNumber
    {
      assert ls[i].roomNumber != to && ls[j].roomNumber != to;
    }
    forall x ensures Referenced(t, x) <==>
                     (x == to && Referenced(ls, from)) || (x != from && x != to && Referenced(ls, x))
    {
      if Referenced(t, x) {
        var i :| 0 <= i < |t| && t[i].roomNumber == x;
        assert ls[i].roomNumber != to;
      }
      if x == to && Referenced(ls, from) {
        var i :| 0 <= i < |ls| && ls[i].roomNumber == from;
        assert t[i].roomNumber == x;
      }
      if x != from && x != to && Referenced(ls, x) {
        var i :| 0 <= i < |ls| && ls[i].roomNumber == x;
        assert t[i].roomNumber == x;
      }
    }
  }

  // ------------------------------------------------- flags

  /** Setting the flag of room `n` to whether it is now sat in, where no
      other room changed who sits in it, keeps flags and sitting in step. */
  lemma FlagFollowsOccupant(s: State, rooms: seq<Room>, ls: seq<Lecturer>, n: string, b: bool)
    requires UniqueRoomNumbers(s.rooms) && OccupancyAgrees(s)
    requires rooms == SetOccupancy(s.rooms, n, b)
    requires b <==> Referenced(ls, n)
    requires forall x :: x != n ==> (Referenced(ls, x) <==> Referenced(s.lecturers, x))
    ensures OccupancyAgrees(State(rooms, ls, s.toast))
  {
    forall q | 0 <= q < |rooms| ensures rooms[q].isOccupied <==> Referenced(ls, rooms[q].number) {
      assert rooms[q].number == s.rooms[q].number;
    }
  }
}
