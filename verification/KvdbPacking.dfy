/** First-fit packing: what a garbage collection without a spare sector finds room for. */
module KvdbPacking {
  import opened Cyclic
  import opened KvdbStore

  /** The longest record that a collection may still put into the sector: none into a dirty one. */
  function Room(cap: int, sec: Sector): int {
    if sec.dirty == Clean then cap - THRESHOLD - 1 - Size(sec.recs) else -1
  }

  /** The rooms of all sectors, going round the ring from the oldest one. */
  function Rooms(cap: int, secs: seq<Sector>, oldest: nat): (rooms: seq<int>)
    requires oldest < |secs|
    ensures |rooms| == |secs|
  {
    seq(|secs|, k requires 0 <= k < |secs| => Room(cap, secs[Wrap(|secs|, oldest + k)]))
  }

  /** The first room that takes n bytes, or the number of rooms. */
  function FirstRoom(rooms: seq<int>, n: nat): (k: nat)
    ensures k <= |rooms| && (k < |rooms| ==> n <= rooms[k])
    ensures forall j | 0 <= j < k :: rooms[j] < n
  {
    if rooms == [] || n <= rooms[0] then 0 else 1 + FirstRoom(rooms[1..], n)
  }

  /** Live records need a place, and a marked one unless the record that replaces it is there already. */
  predicate Needy(r: Record, there: set<Name>) {
    r.status == Written || (r.status == PreDelete && r.name !in there)
  }

  /** The names left over when the needy records are put, one after the other, into the first room that takes them. */
  function Lost(rooms: seq<int>, recs: seq<Record>, there: set<Name>): (names: set<Name>)
    ensures forall name | name in names :: exists i :: 0 <= i < |recs| && recs[i].name == name && Needy(recs[i], there)
    decreases |recs|
  {
    if recs == [] then {}
    else if !Needy(recs[0], there) then Lost(rooms, recs[1..], there)
    else
      var k := FirstRoom(rooms, Len(recs[0]));
      if k < |rooms| then Lost(rooms[k := rooms[k] - Len(recs[0])], recs[1..], there)
      else {recs[0].name} + Lost(rooms, recs[1..], there)
  }

  /** What the needy records take all together. */
  function Needs(recs: seq<Record>, there: set<Name>): nat {
    if recs == [] then 0 else (if Needy(recs[0], there) then Len(recs[0]) else 0) + Needs(recs[1..], there)
  }

  /** Nothing is left over as long as one of the rooms takes all that is needed, whatever goes into the others. */
  lemma {:induction false} OneRoomForAll(rooms: seq<int>, recs: seq<Record>, there: set<Name>, k: nat)
    requires k < |rooms| && Needs(recs, there) <= rooms[k]
    ensures Lost(rooms, recs, there) == {}
    decreases |recs|
  {
    hide Len;
    if recs != [] {
      var f := FirstRoom(rooms, Len(recs[0]));
      if Needy(recs[0], there) {
        OneRoomForAll(rooms[f := rooms[f] - Len(recs[0])], recs[1..], there, k);
      } else {
        OneRoomForAll(rooms, recs[1..], there, k);
      }
    }
  }

  /** Of a single needy record nothing more has to be known than whether there is room for it anywhere. */
  lemma {:induction false} OneNeedyRecord(rooms: seq<int>, recs: seq<Record>, there: set<Name>, i: nat)
    requires i < |recs| && Needy(recs[i], there)
    requires forall j | 0 <= j < |recs| && j != i :: !Needy(recs[j], there)
    ensures Lost(rooms, recs, there) == if FirstRoom(rooms, Len(recs[i])) < |rooms| then {} else {recs[i].name}
    decreases |recs|
  {
    hide Len;
    if i > 0 {
      OneNeedyRecord(rooms, recs[1..], there, i - 1);
    } else {
      var k := FirstRoom(rooms, Len(recs[0]));
      NoneNeedy(rooms, recs[1..], there);
      if k < |rooms| { NoneNeedy(rooms[k := rooms[k] - Len(recs[0])], recs[1..], there); }
    }
  }

  lemma {:induction false} NoneNeedy(rooms: seq<int>, recs: seq<Record>, there: set<Name>)
    requires forall j | 0 <= j < |recs| :: !Needy(recs[j], there)
    ensures Lost(rooms, recs, there) == {}
    decreases |recs|
  {
    if recs != [] { NoneNeedy(rooms, recs[1..], there); }
  }

  /** So it is lost exactly if no clean sector takes it. */
  lemma OneLeftIsLostExactly(cap: int, secs: seq<Sector>, oldest: nat, s: nat, there: set<Name>, i: nat)
    requires oldest < |secs| && s < |secs| && i < |secs[s].recs| && Needy(secs[s].recs[i], there)
    requires forall j | 0 <= j < |secs[s].recs| && j != i :: !Needy(secs[s].recs[j], there)
    ensures Lost(Rooms(cap, secs, oldest), secs[s].recs, there) ==
            if exists x: nat :: Usable(cap, secs, true, x, Len(secs[s].recs[i])) then {} else {secs[s].recs[i].name}
  {
    hide Len, Usable, Rooms;
    var n := Len(secs[s].recs[i]);
    OneNeedyRecord(Rooms(cap, secs, oldest), secs[s].recs, there, i);
    FirstRoomIsUsable(cap, secs, oldest, n);
    if x: nat :| Usable(cap, secs, true, x, n) {
      UsableInRange(cap, secs, x, n);
      RoomAt(cap, secs, oldest, x, n);
    }
  }

  lemma UsableInRange(cap: int, secs: seq<Sector>, x: nat, n: nat)
    requires Usable(cap, secs, true, x, n)
    ensures x < |secs|
  {
  }

  lemma RoomAt(cap: int, secs: seq<Sector>, oldest: nat, s: nat, n: nat)
    requires oldest < |secs| && s < |secs|
    ensures Rooms(cap, secs, oldest)[Pending(|secs|, oldest, s)] == Room(cap, secs[s])
    ensures n <= Room(cap, secs[s]) <==> Usable(cap, secs, true, s, n)
  {
    hide Size;
    assert Wrap(|secs|, oldest + Pending(|secs|, oldest, s)) == s;
  }

  /** The sector with the first room can be used, and if none can, there is no room. */
  lemma FirstRoomIsUsable(cap: int, secs: seq<Sector>, oldest: nat, n: nat)
    requires oldest < |secs|
    ensures var k := FirstRoom(Rooms(cap, secs, oldest), n);
            k < |secs| ==> var s := Wrap(|secs|, oldest + k);
                           Usable(cap, secs, true, s, n) && Pending(|secs|, oldest, s) == k
  {
    hide Size, Rooms, Room;
    var k := FirstRoom(Rooms(cap, secs, oldest), n);
    if k < |secs| {
      var s := Wrap(|secs|, oldest + k);
      RoomAt(cap, secs, oldest, s, n);
      assert Pending(|secs|, oldest, s) == k;
    }
  }

  /** The sector that the allocator of a collection takes is the one with the first room, if all are in use. */
  lemma TakesFirstRoom(cap: int, secs: seq<Sector>, oldest: nat, n: nat, t: nat)
    requires oldest < |secs| && t < |secs| && Usable(cap, secs, true, t, n)
    requires forall s | 0 <= s < |secs| && Pending(|secs|, oldest, s) < Pending(|secs|, oldest, t) ::
               !Usable(cap, secs, true, s, n)
    ensures FirstRoom(Rooms(cap, secs, oldest), n) == Pending(|secs|, oldest, t)
  {
    hide Size, Rooms, Room, Usable;
    RoomAt(cap, secs, oldest, t, n);
    FirstRoomIsUsable(cap, secs, oldest, n);
  }

  /** Putting a record there leaves the room less by its length, and all other rooms as they were. */
  lemma RoomsAfterAppend(cap: int, was: seq<Sector>, now: seq<Sector>, oldest: nat, t: nat, n: nat)
    requires oldest < |was| == |now| && t < |was| && was[t].dirty == now[t].dirty == Clean
    requires Size(now[t].recs) == Size(was[t].recs) + n
    requires forall s | 0 <= s < |was| && s != t :: Room(cap, now[s]) == Room(cap, was[s])
    ensures var k := Pending(|was|, oldest, t);
            Rooms(cap, now, oldest) == Rooms(cap, was, oldest)[k := Rooms(cap, was, oldest)[k] - n]
  {
    hide Size;
    var k := Pending(|was|, oldest, t);
    var r, r' := Rooms(cap, was, oldest), Rooms(cap, now, oldest);
    assert Wrap(|was|, oldest + k) == t;
    assert r[k] == Room(cap, was[t]) && r'[k] == Room(cap, now[t]);
    forall j | 0 <= j < |was| && j != k ensures r'[j] == r[j] {
      var s := Wrap(|was|, oldest + j);
      assert s != t;
      assert Room(cap, now[s]) == Room(cap, was[s]);
    }
  }

  lemma SameRooms(cap: int, was: seq<Sector>, now: seq<Sector>, oldest: nat)
    requires oldest < |was| == |now|
    requires forall s | 0 <= s < |was| :: Room(cap, now[s]) == Room(cap, was[s])
    ensures Rooms(cap, now, oldest) == Rooms(cap, was, oldest)
  {
    hide Room;
    forall j | 0 <= j < |was| ensures Rooms(cap, now, oldest)[j] == Rooms(cap, was, oldest)[j] {
      assert Room(cap, now[Wrap(|was|, oldest + j)]) == Room(cap, was[Wrap(|was|, oldest + j)]);
    }
  }
}
