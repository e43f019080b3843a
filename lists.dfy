/**
 * The list computations the handlers are built from: `some`/`find` lookups,
 * element-wise `map` rewrites and `filter` removals over rooms and lecturers.
 */
module Lists {
  import opened Wrappers
  import opened Types
  import opened Text

  /** Element-wise rewrite (`xs.map(f)`). */
  function Map<T>(s: seq<T>, f: T -> T): (r: seq<T>)
    ensures |r| == |s|
    ensures forall i :: 0 <= i < |s| ==> r[i] == f(s[i])
  {
    if s == [] then [] else [f(s[0])] + Map(s[1..], f)
  }

  /** Order-preserving selection (`xs.filter(p)`). */
  function Filter<T(!new)>(s: seq<T>, p: T -> bool): (r: seq<T>)
    ensures |r| <= |s|
    ensures forall x {:trigger x in r} :: x in r <==> x in s && p(x)
  {
    if s == [] then [] else (if p(s[0]) then [s[0]] else []) + Filter(s[1..], p)
  }

  /** A filter that every element passes keeps the whole sequence. */
  lemma {:induction false} FilterKeepsAll<T(!new)>(s: seq<T>, p: T -> bool)
    requires forall i :: 0 <= i < |s| ==> p(s[i])
    ensures Filter(s, p) == s
  {
    if s != [] {
      FilterKeepsAll(s[1..], p);
    }
  }

  /** A filter that exactly the element at `k` fails removes that element
      and keeps the others in order. */
  lemma {:induction false} FilterDropsOne<T(!new)>(s: seq<T>, p: T -> bool, k: nat)
    requires k < |s| && !p(s[k])
    requires forall i :: 0 <= i < |s| && i != k ==> p(s[i])
    ensures Filter(s, p) == s[..k] + s[k + 1..]
  {
    var t := s[1..];
    assert forall i :: 0 <= i < |t| ==> t[i] == s[i + 1];
    if k == 0 {
      FilterKeepsAll(t, p);
      calc {
        Filter(s, p);
        Filter(t, p);
        t;
        s[..0] + s[1..];
      }
    } else {
      FilterDropsOne(t, p, k - 1);
      calc {
        Filter(s, p);
        [s[0]] + Filter(t, p);
        [s[0]] + (t[..k - 1] + t[k..]);
        { assert [s[0]] + t[..k - 1] == s[..k]; assert t[k..] == s[k + 1..]; }
        s[..k] + s[k + 1..];
      }
    }
  }

  /** A one-element list is kept exactly when its element passes. */
  lemma FilterSingleton<T(!new)>(x: T, p: T -> bool)
    ensures Filter([x], p) == if p(x) then [x] else []
  {
    assert [x][1..] == [];
  }

  /** Filtering a concatenation filters each part and keeps them in order;
      with `FilterSingleton` this fixes the order and the multiplicity of
      what a filter keeps, as `xs.filter(p)` does. */
  lemma {:induction false} FilterAppend<T(!new)>(a: seq<T>, b: seq<T>, p: T -> bool)
    ensures Filter(a + b, p) == Filter(a, p) + Filter(b, p)
  {
    if a == [] {
      assert a + b == b;
    } else {
      var head := if p(a[0]) then [a[0]] else [];
      FilterAppend(a[1..], b, p);
      calc {
        Filter(a + b, p);
        { assert (a + b)[0] == a[0]; assert (a + b)[1..] == a[1..] + b; }
        head + Filter(a[1..] + b, p);
        head + (Filter(a[1..], p) + Filter(b, p));
        (head + Filter(a[1..], p)) + Filter(b, p);
        Filter(a, p) + Filter(b, p);
      }
    }
  }

  // ---------------------------------------------------------------- rooms

  /** `rooms.some(room => room.number === n)`. */
  predicate HasRoom(rooms: seq<Room>, n: string): (b: bool)
    ensures b <==> exists i :: 0 <= i < |rooms| && rooms[i].number == n
  {
    if rooms == [] then false
    else if rooms[0].number == n then true
    else
      assert forall i :: 0 < i < |rooms| ==> rooms[i] == rooms[1..][i - 1];
      HasRoom(rooms[1..], n)
  }

  /** `rooms.find(r => r.number === n)`: the first room with that number. */
  function FindRoom(rooms: seq<Room>, n: string): (r: Option<Room>)
    ensures r.None? <==> !HasRoom(rooms, n)
    ensures r.Some? ==> exists k :: 0 <= k < |rooms| && rooms[k] == r.value && rooms[k].number == n &&
                                    forall j :: 0 <= j < k ==> rooms[j].number != n
  {
    if rooms == [] then None
    else if rooms[0].number == n then Some(rooms[0])
    else
      var r := FindRoom(rooms[1..], n);
      assert r.Some? ==> exists k :: 1 <= k < |rooms| && rooms[k] == r.value && rooms[k].number == n &&
                                     forall j :: 0 <= j < k ==> rooms[j].number != n by {
        if r.Some? {
          var k :| 0 <= k < |rooms| - 1 && rooms[1..][k] == r.value && rooms[1..][k].number == n &&
                   forall j :: 0 <= j < k ==> rooms[1..][j].number != n;
          assert rooms[k + 1] == r.value;
          assert forall j :: 0 <= j < k + 1 ==> rooms[j].number != n by {
            forall j | 0 <= j < k + 1 ensures rooms[j].number != n {
              if j > 0 { assert rooms[j] == rooms[1..][j - 1]; }
            }
          }
        }
      }
      assert HasRoom(rooms, n) ==> HasRoom(rooms[1..], n) by {
        if HasRoom(rooms, n) {
          var i :| 0 <= i < |rooms| && rooms[i].number == n;
          assert rooms[1..][i - 1].number == n;
        }
      }
      r
  }

  /** Renames every room numbered `from` to `to`. */
  function RenameRooms(rooms: seq<Room>, from: string, to: string): (r: seq<Room>)
    ensures |r| == |rooms|
    ensures forall i :: 0 <= i < |rooms| ==>
              r[i] == if rooms[i].number == from then rooms[i].(number := to) else rooms[i]
  {
    Map(rooms, (x: Room) => if x.number == from then x.(number := to) else x)
  }

  /** Sets the occupancy flag of every room numbered `n` to `b`. */
  function SetOccupancy(rooms: seq<Room>, n: string, b: bool): (r: seq<Room>)
    ensures |r| == |rooms|
    ensures forall i :: 0 <= i < |rooms| ==>
              r[i] == if rooms[i].number == n then rooms[i].(isOccupied := b) else rooms[i]
  {
    Map(rooms, (x: Room) => if x.number == n then x.(isOccupied := b) else x)
  }

  /** Frees the rooms numbered `from`, then occupies the rooms numbered `to`
      (the first test wins when both match). */
  function MoveOccupancy(rooms: seq<Room>, from: string, to: string): (r: seq<Room>)
    ensures |r| == |rooms|
    ensures forall i :: 0 <= i < |rooms| ==>
              r[i] == if rooms[i].number == from then rooms[i].(isOccupied := false)
                      else if rooms[i].number == to then rooms[i].(isOccupied := true)
                      else rooms[i]
  {
    Map(rooms, (x: Room) => if x.number == from then x.(isOccupied := false)
                            else if x.number == to then x.(isOccupied := true)
                            else x)
  }

  /** Moving occupancy between two different rooms is freeing the one and
      then occupying the other. */
  lemma MoveIsFreeThenOccupy(rooms: seq<Room>, from: string, to: string)
    requires from != to
    ensures MoveOccupancy(rooms, from, to) == SetOccupancy(SetOccupancy(rooms, from, false), to, true)
  {
  }

  /** The filter predicate `r => r.number !== n`. */
  function NumberIsNot(n: string): Room -> bool {
    (x: Room) => x.number != n
  }

  /** `rooms.filter(r => r.number !== n)`. */
  function RemoveRoom(rooms: seq<Room>, n: string): (r: seq<Room>)
    ensures |r| <= |rooms|
    ensures forall x :: x in r <==> x in rooms && x.number != n
    ensures !HasRoom(r, n)
  {
    Filter(rooms, NumberIsNot(n))
  }

  /** Deleting a number from a concatenation deletes it from each part and
      keeps the parts in order. */
  lemma RemoveRoomAppend(a: seq<Room>, b: seq<Room>, n: string)
    ensures RemoveRoom(a + b, n) == RemoveRoom(a, n) + RemoveRoom(b, n)
  {
    FilterAppend(a, b, NumberIsNot(n));
  }

  /** When only the room at `k` has number `n`, deleting `n` removes exactly
      that room and keeps the rest in order. */
  lemma RemoveRoomAt(rooms: seq<Room>, k: nat)
    requires k < |rooms|
    requires forall i :: 0 <= i < |rooms| && i != k ==> rooms[i].number != rooms[k].number
    ensures RemoveRoom(rooms, rooms[k].number) == rooms[..k] + rooms[k + 1..]
  {
    FilterDropsOne(rooms, NumberIsNot(rooms[k].number), k);
  }

  // ------------------------------------------------------------ lecturers

  /** The position of the first lecturer whose name matches `name`
      ignoring case, or `|ls|` when none does. */
  function FirstNameMatch(ls: seq<Lecturer>, name: string): (k: nat)
    ensures k <= |ls|
    ensures k < |ls| ==> SameName(ls[k].name, name)
    ensures forall j :: 0 <= j < k ==> !SameName(ls[j].name, name)
  {
    if ls == [] then 0
    else if SameName(ls[0].name, name) then 0
    else
      var k := FirstNameMatch(ls[1..], name);
      assert forall j :: 0 <= j < k ==> ls[j + 1] == ls[1..][j];
      1 + k
  }

  /** `lecturers.find(l => l.name.toLowerCase() === name.toLowerCase())`. */
  function FindByName(ls: seq<Lecturer>, name: string): (r: Option<Lecturer>)
    ensures r.None? <==> forall i :: 0 <= i < |ls| ==> !SameName(ls[i].name, name)
    ensures r.Some? ==> exists k :: 0 <= k < |ls| && ls[k] == r.value && SameName(ls[k].name, name) &&
                                    forall j :: 0 <= j < k ==> !SameName(ls[j].name, name)
  {
    var k := FirstNameMatch(ls, name);
    if k < |ls| then Some(ls[k]) else None
  }

  /** `lecturers.find(l => l.id === id)`. */
  function FindById(ls: seq<Lecturer>, id: string): (r: Option<Lecturer>)
    ensures r.None? <==> forall i :: 0 <= i < |ls| ==> ls[i].id != id
    ensures r.Some? ==> exists k :: 0 <= k < |ls| && ls[k] == r.value && ls[k].id == id &&
                                    forall j :: 0 <= j < k ==> ls[j].id != id
  {
    if ls == [] then None
    else if ls[0].id == id then Some(ls[0])
    else
      var r := FindById(ls[1..], id);
      assert r.Some? ==> exists k :: 1 <= k < |ls| && ls[k] == r.value && ls[k].id == id &&
                                     forall j :: 0 <= j < k ==> ls[j].id != id by {
        if r.Some? {
          var k :| 0 <= k < |ls| - 1 && ls[1..][k] == r.value && ls[1..][k].id == id &&
                   forall j :: 0 <= j < k ==> ls[1..][j].id != id;
          assert ls[k + 1] == r.value;
          forall j | 0 <= j < k + 1 ensures ls[j].id != id {
            if j > 0 { assert ls[j] == ls[1..][j - 1]; }
          }
        }
      }
      assert r.None? ==> forall i :: 0 <= i < |ls| ==> ls[i].id != id by {
        if r.None? {
          forall i | 0 <= i < |ls| ensures ls[i].id != id {
            if i > 0 { assert ls[i] == ls[1..][i - 1]; }
          }
        }
      }
      r
  }

  /** Renames the room of every lecturer at `from` to `to`. */
  function RenameLecturers(ls: seq<Lecturer>, from: string, to: string): (r: seq<Lecturer>)
    ensures |r| == |ls|
    ensures forall i :: 0 <= i < |ls| ==>
              r[i] == if ls[i].roomNumber == from then ls[i].(roomNumber := to) else ls[i]
  {
    Map(ls, (l: Lecturer) => if l.roomNumber == from then l.(roomNumber := to) else l)
  }

  /** `lecturers.map(l => l.id === id ? {...l, ...data} : l)`; `data` is a
      complete lecturer record, so the spread replaces every field. */
  function ReplaceLecturer(ls: seq<Lecturer>, id: string, data: Lecturer): (r: seq<Lecturer>)
    ensures |r| == |ls|
    ensures forall i :: 0 <= i < |ls| ==> r[i] == if ls[i].id == id then data else ls[i]
  {
    Map(ls, (l: Lecturer) => if l.id == id then data else l)
  }

  /** The filter predicate `l => l.id !== id`. */
  function IdIsNot(id: string): Lecturer -> bool {
    (l: Lecturer) => l.id != id
  }

  /** `lecturers.filter(l => l.id !== id)`. */
  function RemoveLecturer(ls: seq<Lecturer>, id: string): (r: seq<Lecturer>)
    ensures |r| <= |ls|
    ensures forall x :: x in r <==> x in ls && x.id != id
  {
    Filter(ls, IdIsNot(id))
  }

  /** Removing an id from a concatenation removes it from each part and keeps
      the parts in order. */
  lemma RemoveLecturerAppend(a: seq<Lecturer>, b: seq<Lecturer>, id: string)
    ensures RemoveLecturer(a + b, id) == RemoveLecturer(a, id) + RemoveLecturer(b, id)
  {
    FilterAppend(a, b, IdIsNot(id));
  }

  /** When only the lecturer at `k` has its id, removing that id removes
      exactly that lecturer and keeps the rest in order. */
  lemma RemoveLecturerAt(ls: seq<Lecturer>, k: nat)
    requires k < |ls|
    requires forall i :: 0 <= i < |ls| && i != k ==> ls[i].id != ls[k].id
    ensures RemoveLecturer(ls, ls[k].id) == ls[..k] + ls[k + 1..]
  {
    FilterDropsOne(ls, IdIsNot(ls[k].id), k);
  }

  /** When only the lecturer at `k` has id `id`, the edit overwrites exactly
      that record. */
  lemma ReplaceLecturerOnly(ls: seq<Lecturer>, k: nat, data: Lecturer)
    requires k < |ls|
    requires forall i :: 0 <= i < |ls| && i != k ==> ls[i].id != ls[k].id
    ensures ReplaceLecturer(ls, ls[k].id, data) == ls[k := data]
  {
  }
}
