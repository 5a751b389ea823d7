/** What garbage collection makes room for: how much of a collected sector goes into the spare one, whether a set that
    had to collect succeeds, and that live data of less than a sector never fill the store. */
module KvdbRoom {
  import opened Cyclic
  import opened KvdbPacking
  import opened KvdbSteps
  import opened KvdbStore
  import opened KvdbSweep

  // ---------- what spills over into the spare sector ----------

  /** How much the spare sector, that with room x, holds when the live records have been put, one after the other, into
      the first room that takes them. Nothing is put into it as long as the others take everything. */
  function Spill(rooms: seq<int>, x: nat, taken: nat, recs: seq<Record>): nat
    requires x < |rooms|
    decreases |recs|
  {
    if recs == [] then taken
    else if recs[0].status != Written then Spill(rooms, x, taken, recs[1..])
    else
      var n := Len(recs[0]);
      var f := FirstRoom(if taken == 0 then rooms[x := -1] else rooms, n);
      if f < |rooms| && f != x then Spill(rooms[f := rooms[f] - n], x, taken, recs[1..])
      else Spill(rooms[x := rooms[x] - n], x, taken + n, recs[1..])
  }

  /** The space that the live records take. */
  function LiveSize(recs: seq<Record>): nat {
    if recs == [] then 0 else (if recs[0].status == Written then Len(recs[0]) else 0) + LiveSize(recs[1..])
  }

  lemma {:induction false} SpillNext(rooms: seq<int>, x: nat, taken: nat, recs: seq<Record>)
    requires x < |rooms| && recs != []
    ensures var n := Len(recs[0]);
            var f := FirstRoom(if taken == 0 then rooms[x := -1] else rooms, n);
            Spill(rooms, x, taken, recs) ==
            if recs[0].status != Written then Spill(rooms, x, taken, recs[1..])
            else if f < |rooms| && f != x then Spill(rooms[f := rooms[f] - n], x, taken, recs[1..])
            else Spill(rooms[x := rooms[x] - n], x, taken + n, recs[1..])
  {
    hide Len, FirstRoom;
  }

  lemma {:induction false} NothingToSpill(rooms: seq<int>, x: nat, taken: nat)
    requires x < |rooms|
    ensures Spill(rooms, x, taken, []) == taken && LiveSize([]) == 0
  {
  }

  /** At most the live records spill over. */
  lemma {:induction false} SpillIsAtMost(rooms: seq<int>, x: nat, taken: nat, recs: seq<Record>)
    requires x < |rooms|
    ensures taken <= Spill(rooms, x, taken, recs) <= taken + LiveSize(recs)
    decreases |recs|
  {
    hide Len, Spill, FirstRoom;
    if recs == [] {
      NothingToSpill(rooms, x, taken);
    } else {
      var n := Len(recs[0]);
      var f := FirstRoom(if taken == 0 then rooms[x := -1] else rooms, n);
      SpillNext(rooms, x, taken, recs);
      if recs[0].status != Written {
        SpillIsAtMost(rooms, x, taken, recs[1..]);
      } else if f < |rooms| && f != x {
        SpillIsAtMost(rooms[f := rooms[f] - n], x, taken, recs[1..]);
      } else {
        SpillIsAtMost(rooms[x := rooms[x] - n], x, taken + n, recs[1..]);
      }
    }
  }

  /** All of them do if no other sector has room for any. */
  lemma {:induction false} AllSpill(rooms: seq<int>, x: nat, taken: nat, recs: seq<Record>)
    requires x < |rooms|
    requires forall f, j | 0 <= f < |rooms| && f != x && 0 <= j < |recs| :: rooms[f] < Len(recs[j])
    ensures Spill(rooms, x, taken, recs) == taken + LiveSize(recs)
    decreases |recs|
  {
    hide Len, Spill, FirstRoom;
    if recs == [] {
      NothingToSpill(rooms, x, taken);
    } else {
      var n := Len(recs[0]);
      SpillNext(rooms, x, taken, recs);
      forall g, j | 0 <= g < |rooms| && g != x && 0 <= j < |recs[1..]| ensures rooms[g] < Len(recs[1..][j]) {
        assert recs[1..][j] == recs[j + 1];
      }
      if recs[0].status != Written {
        AllSpill(rooms, x, taken, recs[1..]);
      } else {
        AllSpill(rooms[x := rooms[x] - n], x, taken + n, recs[1..]);
      }
    }
  }

  lemma {:induction false} NoneLiveNoneSpills(recs: seq<Record>)
    requires forall j | 0 <= j < |recs| :: recs[j].status != Written
    ensures LiveSize(recs) == 0
    decreases |recs|
  {
    if recs != [] { NoneLiveNoneSpills(recs[1..]); }
  }

  /** Nothing spills over exactly if packing without the spare sector leaves nothing over. */
  lemma {:induction false} SpillsExactlyIfLost(rooms: seq<int>, x: nat, recs: seq<Record>, there: set<Name>)
    requires x < |rooms| && forall j | 0 <= j < |recs| :: recs[j].status != PreDelete
    ensures Spill(rooms, x, 0, recs) == 0 <==> Lost(rooms[x := -1], recs, there) == {}
    decreases |recs|
  {
    hide Len, Spill, Lost, FirstRoom;
    if recs == [] {
      SpillsNothing(rooms, x, there);
    } else {
      var n, without := Len(recs[0]), rooms[x := -1];
      SpillNext(rooms, x, 0, recs);
      LostNext(without, recs, there);
      var f := FirstRoom(without, n);
      if recs[0].status != Written {
        SpillsExactlyIfLost(rooms, x, recs[1..], there);
      } else if f < |rooms| {
        assert rooms[f := rooms[f] - n][x := -1] == without[f := without[f] - n];
        SpillsExactlyIfLost(rooms[f := rooms[f] - n], x, recs[1..], there);
      } else {
        LenIsPositive(recs[0]);
        SpillIsAtMost(rooms[x := rooms[x] - n], x, n, recs[1..]);
        assert recs[0].name in Lost(without, recs, there);
      }
    }
  }

  lemma {:induction false} SpillsNothing(rooms: seq<int>, x: nat, there: set<Name>)
    requires x < |rooms|
    ensures Spill(rooms, x, 0, []) == 0 && Lost(rooms[x := -1], [], there) == {}
  {
  }

  lemma {:induction false} LostNext(rooms: seq<int>, recs: seq<Record>, there: set<Name>)
    requires recs != [] && recs[0].status != PreDelete
    ensures var n := Len(recs[0]);
            var f := FirstRoom(rooms, n);
            Lost(rooms, recs, there) ==
            if recs[0].status != Written then Lost(rooms, recs[1..], there)
            else if f < |rooms| then Lost(rooms[f := rooms[f] - n], recs[1..], there)
            else {recs[0].name} + Lost(rooms, recs[1..], there)
  {
    hide Len, FirstRoom;
  }

  lemma {:induction false} LenIsPositive(r: Record)
    ensures Len(r) > 0
  {
  }

  lemma {:induction false} SizeIsPositive(recs: seq<Record>)
    ensures Size(recs) == 0 <==> recs == []
  {
    if recs != [] { LenIsPositive(recs[|recs| - 1]); }
  }

  /** All sectors are in use but the spare one, of which only the collection makes use. */
  ghost predicate OneSpare(secs: seq<Sector>, s: nat, x: nat) {
    && s < |secs| && x < |secs| && x != s && secs[x].dirty == Clean
    && (secs[x].store == Empty <==> Size(secs[x].recs) == 0)
    && forall u | 0 <= u < |secs| && u != x :: secs[u].store == Using
  }

  /** What the spare sector will hold in the end. */
  ghost function SpillFrom(cap: int, secs: seq<Sector>, oldest: nat, recs0: seq<Record>, i: nat, x: nat): nat
    requires oldest < |secs| && x < |secs| && i <= |recs0|
  {
    Spill(Rooms(cap, secs, oldest), Pending(|secs|, oldest, x), Size(secs[x].recs), recs0[i..])
  }

  /** What collecting sector s puts into the spare sector x. */
  ghost function Spilled(cap: int, secs: seq<Sector>, oldest: nat, s: nat, x: nat): Option<nat> {
    if oldest < |secs| && s < |secs| && x < |secs|
    then Some(Spill(Rooms(cap, secs, oldest), Pending(|secs|, oldest, x), 0, secs[s].recs)) else None
  }

  lemma {:induction false} OnlyEmpty(secs: seq<Sector>, x: nat, y: nat)
    requires x < y < |secs| && secs[x].store == Empty && secs[y].store == Empty
    ensures Empties(secs) >= 2
    decreases |secs|
  {
    if y == |secs| - 1 {
      EmptyCounts(secs[..y], x);
    } else {
      OnlyEmpty(secs[..|secs| - 1], x, y);
    }
  }

  lemma {:induction false} OneEmpty(secs: seq<Sector>, x: nat)
    requires x < |secs| && forall u | 0 <= u < |secs| && u != x :: secs[u].store == Using
    ensures Empties(secs) == if secs[x].store == Empty then 1 else 0
    decreases |secs|
  {
    if x == |secs| - 1 {
      if Empties(secs[..x]) > 0 {
        var y := SomeEmpty(secs[..x]);
        assert false;
      }
    } else {
      OneEmpty(secs[..|secs| - 1], x);
    }
  }

  /** The start: the sector is marked, and one other is empty. */
  lemma {:induction false} SpillStarts(cap: int, secs: seq<Sector>, oldest: nat, s: nat, x: nat)
    requires SectorsOk(cap, secs) && Empties(secs) == 1 && oldest < |secs| && s < |secs| && secs[s].dirty != Clean
    requires x < |secs| && secs[x].store == Empty
    ensures SpillTo(cap, Dirtying(secs, s, Collecting), oldest, s, secs[s].recs, 0, x)
            == Spilled(cap, secs, oldest, s, x)
    ensures Spilled(cap, secs, oldest, s, x).Some?
  {
    hide Size, Rooms, Spill, Empties;
    var secs' := Dirtying(secs, s, Collecting);
    assert SectorOk(cap, secs[x]) && secs[x] == FRESH;
    SizeIsPositive(secs[x].recs);
    SameRooms(cap, secs, secs', oldest);
    assert secs[s].recs[0..] == secs[s].recs;
    OthersInUse(secs, x);
  }

  lemma {:induction false} OthersInUse(secs: seq<Sector>, x: nat)
    requires Empties(secs) == 1 && x < |secs| && secs[x].store == Empty
    ensures forall u | 0 <= u < |secs| && u != x :: secs[u].store == Using
  {
    hide Empties;
    forall u | 0 <= u < |secs| && u != x ensures secs[u].store == Using {
      if secs[u].store == Empty {
        if u < x { OnlyEmpty(secs, u, x); } else { OnlyEmpty(secs, x, u); }
      }
    }
  }

  /** The same, if there is just one spare sector. */
  ghost function SpillTo(cap: int, secs: seq<Sector>, oldest: nat, s: nat, recs0: seq<Record>, i: nat, x: nat):
    Option<nat>
  {
    if OneSpare(secs, s, x) && oldest < |secs| && i <= |recs0|
    then Some(SpillFrom(cap, secs, oldest, recs0, i, x)) else None
  }

  lemma {:induction false} SpillPasses(cap: int, secs: seq<Sector>, oldest: nat, s: nat, recs0: seq<Record>, i: nat,
        x: nat)
    requires i < |recs0| && recs0[i].status != Written
    ensures SpillTo(cap, secs, oldest, s, recs0, i + 1, x) == SpillTo(cap, secs, oldest, s, recs0, i, x)
  {
    hide Rooms, Size, OneSpare;
    assert recs0[i..][1..] == recs0[i + 1..];
  }

  /** With sector x marked the allocator would find what it finds as long as it does not want x. */
  lemma {:induction false} WithoutSpare(cap: int, secs: seq<Sector>, oldest: nat, x: nat)
    requires oldest < |secs| && x < |secs|
    ensures var w, k := Dirtying(secs, x, Dirtied), Pending(|secs|, oldest, x);
            && k < |secs| && Rooms(cap, w, oldest) == Rooms(cap, secs, oldest)[k := -1]
            && (forall n: nat :: !Usable(cap, w, true, x, n))
            && forall u: nat, n: nat | u != x :: Usable(cap, w, true, u, n) <==> Usable(cap, secs, true, u, n)
  {
    hide Size;
    var w, k := Dirtying(secs, x, Dirtied), Pending(|secs|, oldest, x);
    var r, r' := Rooms(cap, secs, oldest), Rooms(cap, w, oldest);
    assert Wrap(|secs|, oldest + k) == x;
    forall j | 0 <= j < |secs| ensures r'[j] == if j == k then -1 else r[j] {
      var u := Wrap(|secs|, oldest + j);
      assert r'[j] == Room(cap, w[u]) && r[j] == Room(cap, secs[u]);
      assert j != k ==> u != x;
    }
  }

  /** The first room for a record with the spare sector still empty is that of the allocator's choice. */
  lemma {:induction false} ChoiceWithSpare(cap: int, secs: seq<Sector>, oldest: nat, s: nat, x: nat, n: nat, t: nat)
    requires OneSpare(secs, s, x) && secs[x].store == Empty && oldest < |secs|
    requires t < |secs| && Usable(cap, secs, true, t, n) && FirstChoice(cap, secs, oldest, true, t, n)
    ensures var f := FirstRoom(Rooms(cap, secs, oldest)[Pending(|secs|, oldest, x) := -1], n);
            if t == x then f == |secs| else f == Pending(|secs|, oldest, t)
  {
    hide Size, Rooms, FirstRoom, Usable;
    WithoutSpare(cap, secs, oldest, x);
    var w := Dirtying(secs, x, Dirtied);
    if t != x {
      TakesFirstRoom(cap, w, oldest, n, t);
    } else {
      FirstRoomIsUsable(cap, w, oldest, n);
      var f := FirstRoom(Rooms(cap, w, oldest), n);
      if f < |secs| { assert false; }
    }
  }

  /** One live record is moved. */
  lemma {:induction false} SpillMoves(cap: int, was: seq<Sector>, secs: seq<Sector>, oldest: nat, s: nat,
        recs0: seq<Record>, i: nat, t: nat, x: nat)
    requires i < |recs0| && recs0[i].status == Written
    requires At(was, Loc(s, i)) && Get(was, Loc(s, i)) == recs0[i] && was[s].dirty == Collecting
    requires var mid := Killed(was, Loc(s, i), PreDelete);
             Candidate(cap, mid, true, t, Len(recs0[i])) && FirstChoice(cap, mid, oldest, true, t, Len(recs0[i]))
    requires t < |was| && secs == Moved(was, Loc(s, i), t)
    ensures SpillTo(cap, was, oldest, s, recs0, i, x).Some? ==>
              SpillTo(cap, secs, oldest, s, recs0, i + 1, x) == SpillTo(cap, was, oldest, s, recs0, i, x)
  {
    hide Size, Rooms, FirstRoom, Killed, Moved, Usable, Len, Candidate, FirstChoice;
    if SpillTo(cap, was, oldest, s, recs0, i, x).Some? {
      SpillMovesOn(cap, was, secs, oldest, s, recs0, i, t, x);
    }
  }

  /** The same with the flash states on the way. */
  lemma {:induction false} MoveTracedOn(cap: int, was: seq<Sector>, at: map<Name, Loc>, secs: seq<Sector>,
        before: seq<seq<Sector>>, trace: seq<seq<Sector>>, oldest: nat, s: nat, recs0: seq<Record>, i: nat, t: nat,
        x: nat, goal: map<Name, Value>)
    requires |was| >= 2 && SectorsOk(cap, was) && Index(was, at) && Tidy(was) && At(was, Loc(s, i)) && i < |recs0|
    requires was[s].dirty == Collecting && Get(was, Loc(s, i)) == recs0[i] && recs0[i].status == Written
    requires t < |was| && trace == before + MoveTrace(was, Loc(s, i), t) && secs == Moved(was, Loc(s, i), t)
    requires var mid := Killed(was, Loc(s, i), PreDelete);
             Candidate(cap, mid, true, t, Len(recs0[i])) && FirstChoice(cap, mid, oldest, true, t, Len(recs0[i]))
    requires MapOf(was, at) == goal
    ensures Tidy(secs) && before <= trace && AllHold(cap, trace, |before|, goal)
    ensures SpillTo(cap, was, oldest, s, recs0, i, x).Some? ==>
              SpillTo(cap, secs, oldest, s, recs0, i + 1, x) == SpillTo(cap, was, oldest, s, recs0, i, x)
  {
    hide SectorsOk, Index, Cut, Killed, Moved, Len, Candidate, FirstChoice, AllHold, MapOf, MoveTrace, SpillTo;
    MoveTraced(cap, was, at, secs, before, trace, s, recs0, i, t, goal);
    SpillMoves(cap, was, secs, oldest, s, recs0, i, t, x);
  }

  lemma {:induction false} SpillMovesOn(cap: int, was: seq<Sector>, secs: seq<Sector>, oldest: nat, s: nat,
        recs0: seq<Record>, i: nat, t: nat, x: nat)
    requires i < |recs0| && recs0[i].status == Written && OneSpare(was, s, x) && oldest < |was|
    requires At(was, Loc(s, i)) && Get(was, Loc(s, i)) == recs0[i] && was[s].dirty == Collecting
    requires var mid := Killed(was, Loc(s, i), PreDelete);
             Candidate(cap, mid, true, t, Len(recs0[i])) && FirstChoice(cap, mid, oldest, true, t, Len(recs0[i]))
    requires t < |was| && secs == Moved(was, Loc(s, i), t)
    ensures |secs| == |was| && OneSpare(secs, s, x)
    ensures SpillFrom(cap, secs, oldest, recs0, i + 1, x) == SpillFrom(cap, was, oldest, recs0, i, x)
  {
    hide Size, Rooms, FirstRoom, Killed, Moved, Usable, Len;
    var here, n := Loc(s, i), Len(recs0[i]);
    KilledUsable(cap, was, here, PreDelete);
    assert Usable(cap, was, true, t, n) && FirstChoice(cap, was, oldest, true, t, n);
    UsableIsClean(cap, was, t, n);
    RoomsAfterMove(cap, was, secs, here, t, oldest);
    MovedAt(was, here, t);
    SizeOfAppend(was[t].recs, recs0[i].(status := Written));
    SameLen(recs0[i], Written);
    LenIsPositive(recs0[i]);
    assert recs0[i..][1..] == recs0[i + 1..];
    var rooms, kx, kt := Rooms(cap, was, oldest), Pending(|was|, oldest, x), Pending(|was|, oldest, t);
    assert Wrap(|was|, oldest + kx) == x && Wrap(|was|, oldest + kt) == t;
    if was[x].store == Empty {
      ChoiceWithSpare(cap, was, oldest, s, x, n, t);
    } else {
      TakesFirstRoom(cap, was, oldest, n, t);
    }
  }

  /** What collecting sector s has made of the sectors when one other, x, was empty. */
  ghost predicate Collected(cap: int, was: seq<Sector>, secs: seq<Sector>, oldest: nat, s: nat, x: nat) {
    && |secs| == |was| && s < |was| && x < |was| && x != s && oldest < |was|
    && secs[s] == FRESH && (secs[x].store == Empty <==> Size(secs[x].recs) == 0) && secs[x].dirty == Clean
    && (forall u | 0 <= u < |was| && u != s && u != x ::
          secs[u].store == was[u].store == Using && secs[u].dirty == was[u].dirty && was[u].recs <= secs[u].recs)
    && Size(secs[x].recs) == Spill(Rooms(cap, was, oldest), Pending(|was|, oldest, x), 0, was[s].recs)
  }

  lemma {:induction false} SpillEnds(cap: int, was: seq<Sector>, secs: seq<Sector>, oldest: nat, s: nat, x: nat)
    requires oldest < |secs| == |was| && s < |was| && x < |was| && Empties(was) == 1 && was[x].store == Empty
    requires SpillTo(cap, secs, oldest, s, was[s].recs, |was[s].recs|, x)
             == Spilled(cap, was, oldest, s, x)
    requires forall u | 0 <= u < |was| && u != s :: secs[u].dirty == was[u].dirty && was[u].recs <= secs[u].recs
    ensures Collected(cap, was, Formatted(secs, s), oldest, s, x)
  {
    hide Size, Rooms, Empties;
    assert was[s].recs[|was[s].recs|..] == [];
    OthersInUse(was, x);
  }

  /** The same for whichever sector was the empty one. */
  ghost predicate CollectedOnce(cap: int, was: seq<Sector>, secs: seq<Sector>, oldest: nat, s: nat) {
    forall x | 0 <= x < |was| && was[x].store == Empty :: Collected(cap, was, secs, oldest, s, x)
  }

  lemma {:induction false} SpillEndsOnce(cap: int, was: seq<Sector>, secs: seq<Sector>, oldest: nat, s: nat, x: nat)
    requires oldest < |secs| == |was| && s < |was| && x < |was| && Empties(was) == 1 && was[x].store == Empty
    requires SpillTo(cap, secs, oldest, s, was[s].recs, |was[s].recs|, x)
             == Spilled(cap, was, oldest, s, x)
    requires forall u | 0 <= u < |was| && u != s :: secs[u].dirty == was[u].dirty && was[u].recs <= secs[u].recs
    ensures CollectedOnce(cap, was, Formatted(secs, s), oldest, s)
  {
    hide Collected, Formatted, SpillTo, Spilled, Empties;
    OthersInUse(was, x);
    SpillEnds(cap, was, secs, oldest, s, x);
  }

  // ---------- whether there is room afterwards ----------

  /** The room that decides: the record goes into the one sector or the other that was made empty, or behind what has
      spilled over. */
  ghost predicate MakesRoom(cap: int, secs: seq<Sector>, oldest: nat, s: nat, x: nat, n: nat)
    requires oldest < |secs| && s < |secs| && x < |secs|
  {
    var spilled := Spill(Rooms(cap, secs, oldest), Pending(|secs|, oldest, x), 0, secs[s].recs);
    n + THRESHOLD < cap && (spilled == 0 || spilled + n + THRESHOLD < cap)
  }

  lemma {:induction false} SizeOfLonger(recs: seq<Record>, more: seq<Record>)
    requires recs <= more
    ensures Size(recs) <= Size(more)
  {
    SizeOfPrefix(more, |recs|);
    assert more[..|recs|] == recs;
  }

  /** After a collection there is room exactly then. */
  lemma {:induction false} RoomAfterCollection(cap: int, was: seq<Sector>, secs: seq<Sector>, oldest: nat, s: nat,
        x: nat, n: nat)
    requires Collected(cap, was, secs, oldest, s, x)
    requires NoneFits(cap, was, n)
    ensures NoneFits(cap, secs, n) <==> !MakesRoom(cap, was, oldest, s, x, n)
  {
    hide Size, Rooms, Spill, Empties, NoneFits;
    NoneFitsIs(cap, was, n);
    NoneFitsIs(cap, secs, n);
    SizeIsPositive(secs[x].recs);
    SizeIsPositive(secs[s].recs);
    if secs[x].store == Empty {
      if s < x { OnlyEmpty(secs, s, x); } else { OnlyEmpty(secs, x, s); }
    } else {
      OneEmpty(secs, s);
    }
    if MakesRoom(cap, was, oldest, s, x, n) {
      assert Candidate(cap, secs, false, if secs[x].store == Empty then s else x, n);
    }
    forall u: nat | u < |was| && u != s && u != x ensures !Candidate(cap, secs, false, u, n) {
      SizeOfLonger(was[u].recs, secs[u].recs);
      assert !Candidate(cap, was, false, u, n);
    }
  }

  lemma {:induction false} CandidateIsSmall(cap: int, secs: seq<Sector>, gc: bool, s: nat, n: nat)
    requires Candidate(cap, secs, gc, s, n)
    ensures n + THRESHOLD < cap
  {
  }

  /** No sector has room behind its records and the 88 bytes that are to stay free, as long as the last empty one is
      left alone. */
  ghost predicate NoneFits(cap: int, secs: seq<Sector>, n: nat) {
    forall u | 0 <= u < |secs| && secs[u].dirty != Collecting && (secs[u].store == Using || Empties(secs) > 1) ::
      Size(secs[u].recs) + n + 88 >= cap
  }

  lemma {:induction false} NoneFitsIs(cap: int, secs: seq<Sector>, n: nat)
    ensures NoneFits(cap, secs, n) <==> forall u: nat :: !Candidate(cap, secs, false, u, n)
  {
    hide Empties, Size;
    forall u: nat ensures
      Candidate(cap, secs, false, u, n) <==>
      && u < |secs| && secs[u].dirty != Collecting && (secs[u].store == Using || Empties(secs) > 1)
      && Size(secs[u].recs) + n + 88 < cap
    {
    }
  }

  /** Room is found, or not, as what the collection of the first dirty sector makes of the one that is empty says. */
  ghost predicate FoundAsSaid(cap: int, secs: seq<Sector>, oldest: nat, n: nat, found: bool) {
    forall d, x | FirstDirty(secs, oldest, d) && 0 <= x < |secs| && secs[x].store == Empty ::
      found <==> MakesRoom(cap, secs, oldest, d, x, n)
  }

  lemma {:induction false} FoundAfterCollection(cap: int, was: seq<Sector>, secs: seq<Sector>, oldest: nat, s: nat,
        n: nat)
    requires CollectedOnce(cap, was, secs, oldest, s) && FirstDirty(was, oldest, s)
    requires NoneFits(cap, was, n)
    ensures FoundAsSaid(cap, was, oldest, n, !NoneFits(cap, secs, n))
  {
    hide Collected, MakesRoom, NoneFits;
    forall d, x | FirstDirty(was, oldest, d) && 0 <= x < |was| && was[x].store == Empty
      ensures d == s
              && (NoneFits(cap, secs, n) <==> !MakesRoom(cap, was, oldest, d, x, n))
    {
      FirstIsOne(was, oldest, d, s);
      RoomAfterCollection(cap, was, secs, oldest, s, x, n);
    }
  }

  lemma {:induction false} FirstIsOne(secs: seq<Sector>, oldest: nat, d: nat, e: nat)
    requires FirstDirty(secs, oldest, d) && FirstDirty(secs, oldest, e)
    ensures d == e
  {
    SameDistance(|secs|, oldest);
  }

  lemma {:induction false} NoneFoundTooBig(cap: int, was: seq<Sector>, oldest: nat, n: nat)
    requires n + THRESHOLD >= cap
    ensures FoundAsSaid(cap, was, oldest, n, false)
  {
    hide Rooms, Spill;
  }

  lemma {:induction false} SomeFirstDirty(secs: seq<Sector>, oldest: nat, k: nat) returns (d: nat)
    requires oldest < |secs| && k < |secs| && secs[Wrap(|secs|, oldest + k)].dirty != Clean
    ensures FirstDirty(secs, oldest, d)
    decreases k
  {
    d := Wrap(|secs|, oldest + k);
    assert Pending(|secs|, oldest, d) == k;
    if !FirstDirty(secs, oldest, d) {
      var s :| 0 <= s < |secs| && Pending(|secs|, oldest, s) < k && secs[s].dirty != Clean;
      assert Wrap(|secs|, oldest + Pending(|secs|, oldest, s)) == s;
      d := SomeFirstDirty(secs, oldest, Pending(|secs|, oldest, s));
    }
  }

  /** There is room if the live records of the sector leave as much in one. */
  lemma {:induction false} LittleLiveMakesRoom(cap: int, secs: seq<Sector>, oldest: nat, s: nat, x: nat, n: nat)
    requires oldest < |secs| && s < |secs| && x < |secs|
    requires LiveSize(secs[s].recs) + n + THRESHOLD < cap
    ensures MakesRoom(cap, secs, oldest, s, x, n)
  {
    hide Rooms;
    SpillIsAtMost(Rooms(cap, secs, oldest), Pending(|secs|, oldest, x), 0, secs[s].recs);
  }

  /** Without a live record to move only the size of the new one counts. */
  lemma {:induction false} NoneLiveMakesRoom(cap: int, secs: seq<Sector>, oldest: nat, s: nat, x: nat, n: nat)
    requires oldest < |secs| && s < |secs| && x < |secs| && NoneLive(secs[s])
    ensures MakesRoom(cap, secs, oldest, s, x, n) <==> n + THRESHOLD < cap
  {
    hide Rooms;
    NoneLiveNoneSpills(secs[s].recs);
    SpillIsAtMost(Rooms(cap, secs, oldest), Pending(|secs|, oldest, x), 0, secs[s].recs);
  }

  /** What this comes to for the first dirty sector. */
  lemma {:induction false} FoundFor(cap: int, secs: seq<Sector>, oldest: nat, n: nat, found: bool)
    requires FoundAsSaid(cap, secs, oldest, n, found) && Empties(secs) > 0 && oldest < |secs|
    ensures forall d: nat | d < |secs| && FirstDirty(secs, oldest, d) ::
              && (NoneLive(secs[d]) ==> (found <==> n + THRESHOLD < cap))
              && (LiveSize(secs[d].recs) + n + THRESHOLD < cap ==> found)
  {
    hide Empties, Rooms, MakesRoom, NoneLive;
    var x := SomeEmpty(secs);
    forall d: nat | d < |secs| && FirstDirty(secs, oldest, d)
      ensures (NoneLive(secs[d]) ==> (found <==> n + THRESHOLD < cap))
              && (LiveSize(secs[d].recs) + n + THRESHOLD < cap ==> found)
    {
      assert found <==> MakesRoom(cap, secs, oldest, d, x, n);
      if NoneLive(secs[d]) { NoneLiveMakesRoom(cap, secs, oldest, d, x, n); }
      if LiveSize(secs[d].recs) + n + THRESHOLD < cap { LittleLiveMakesRoom(cap, secs, oldest, d, x, n); }
    }
  }

  // ---------- live data of less than a sector ----------

  /** Every sector that holds anything but live records is marked dirty. */
  ghost predicate Lean(secs: seq<Sector>) {
    forall s, i | 0 <= s < |secs| && secs[s].dirty == Clean && 0 <= i < |secs[s].recs| ::
      secs[s].recs[i].status == Written
  }

  function LiveTotal(secs: seq<Sector>): nat {
    if secs == [] then 0 else LiveTotal(secs[..|secs| - 1]) + LiveSize(secs[|secs| - 1].recs)
  }

  lemma {:induction false} LiveInTotal(secs: seq<Sector>, s: nat)
    requires s < |secs|
    ensures LiveSize(secs[s].recs) <= LiveTotal(secs)
    decreases |secs|
  {
    if s < |secs| - 1 { LiveInTotal(secs[..|secs| - 1], s); }
  }

  lemma {:induction false} LiveSizeAppend(recs: seq<Record>, r: Record)
    ensures LiveSize(recs + [r]) == LiveSize(recs) + if r.status == Written then Len(r) else 0
    decreases |recs|
  {
    if recs == [] {
      assert ([] + [r])[1..] == [];
    } else {
      assert (recs + [r])[1..] == recs[1..] + [r];
      LiveSizeAppend(recs[1..], r);
    }
  }

  lemma {:induction false} AllLive(recs: seq<Record>)
    requires forall i | 0 <= i < |recs| :: recs[i].status == Written
    ensures LiveSize(recs) == Size(recs)
    decreases |recs|
  {
    if recs != [] {
      AllLive(recs[..|recs| - 1]);
      LiveSizeAppend(recs[..|recs| - 1], recs[|recs| - 1]);
      assert recs[..|recs| - 1] + [recs[|recs| - 1]] == recs;
    }
  }

  /** A lean store with live data of less than a sector has room at once or has something to collect. */
  lemma {:induction false} LeanHasRoom(cap: int, secs: seq<Sector>, n: nat)
    requires SectorsOk(cap, secs) && Lean(secs) && |secs| >= 2 && Empties(secs) > 0
    requires LiveTotal(secs) + n + THRESHOLD < cap
    ensures NoneFits(cap, secs, n) ==> Empties(secs) == 1 && !AllClean(secs)
  {
    hide Size, Empties, LiveTotal, NoneFits;
    NoneFitsIs(cap, secs, n);
    var x := SomeEmpty(secs);
    assert SectorOk(cap, secs[x]) && secs[x] == FRESH;
    SizeIsPositive(secs[x].recs);
    if Empties(secs) > 1 {
      assert Candidate(cap, secs, false, x, n);
    } else if AllClean(secs) {
      var u := if x == 0 then 1 else 0;
      if secs[u].store == Empty {
        if u < x { OnlyEmpty(secs, u, x); } else { OnlyEmpty(secs, x, u); }
      }
      AllLive(secs[u].recs);
      LiveInTotal(secs, u);
      assert Candidate(cap, secs, false, u, n);
    }
  }

  /** So a set finds it. */
  lemma {:induction false} LeanFinds(cap: int, secs: seq<Sector>, oldest: nat, n: nat, found: bool)
    requires SectorsOk(cap, secs) && Lean(secs) && |secs| >= 2 && Empties(secs) > 0 && oldest < |secs|
    requires LiveTotal(secs) + n + THRESHOLD < cap
    requires NoneFits(cap, secs, n) && FoundAsSaid(cap, secs, oldest, n, found)
    ensures found
  {
    hide SectorsOk, Lean, Empties, LiveTotal, NoneFits, FoundAsSaid, FirstDirty, NoneLive, LiveSize;
    LeanHasRoom(cap, secs, n);
    if !found {
      var s :| 0 <= s < |secs| && secs[s].dirty != Clean;
      assert Wrap(|secs|, oldest + Pending(|secs|, oldest, s)) == s;
      var d := SomeFirstDirty(secs, oldest, Pending(|secs|, oldest, s));
      DirtyInRange(secs, oldest, d);
      FoundFor(cap, secs, oldest, n, found);
      LiveInTotal(secs, d);
    }
  }

  lemma {:induction false} DirtyInRange(secs: seq<Sector>, oldest: nat, d: nat)
    requires FirstDirty(secs, oldest, d)
    ensures d < |secs|
  {
  }

  lemma {:induction false} FreshIsLean(secs: seq<Sector>)
    requires forall s | 0 <= s < |secs| :: secs[s] == FRESH
    ensures Lean(secs)
  {
  }

  // ---------- leanness is kept ----------

  lemma {:induction false} LeanAfterKill(secs: seq<Sector>, l: Loc, st: Status)
    requires Lean(secs) && At(secs, l)
    ensures Lean(Killed(secs, l, st))
  {
  }

  lemma {:induction false} LeanAfterAppend(secs: seq<Sector>, t: nat, r: Record)
    requires Lean(secs) && t < |secs| && r.status == Written
    ensures Lean(Append(secs, t, r))
  {
  }

  lemma {:induction false} LeanAfterMove(secs: seq<Sector>, l: Loc, t: nat)
    requires Lean(secs) && At(secs, l) && t < |secs|
    ensures Lean(Moved(secs, l, t))
  {
    hide Killed, Append, Lean;
    var r := Get(secs, l);
    var mid := if r.status == Written then Killed(secs, l, PreDelete) else secs;
    if r.status == Written {
      LeanAfterKill(secs, l, PreDelete);
      KilledFacts(0, secs, l, PreDelete, false, t, 0);
    }
    LeanAfterAppend(mid, t, r.(status := Written));
    AppendFacts(mid, t, r.(status := Written), l);
    LeanAfterKill(Append(mid, t, r.(status := Written)), l, Deleted);
  }

  /** Moving a record, deleting one or giving it up. */
  lemma {:induction false} LeanAfterStep(was: seq<Sector>, secs: seq<Sector>, l: Loc, t: nat, st: Status)
    requires At(was, l)
    requires secs == was || secs == Killed(was, l, st) || (t < |was| && secs == Moved(was, l, t))
    ensures Lean(was) ==> Lean(secs)
  {
    hide Killed, Moved, Lean;
    if Lean(was) {
      LeanAfterKill(was, l, st);
      if t < |was| { LeanAfterMove(was, l, t); }
    }
  }

  lemma {:induction false} LeanAfterReplacing(secs: seq<Sector>, l: Option<Loc>, t: nat, r: Record)
    requires Lean(secs) && t < |secs| && r.status == Written && (l.Some? ==> At(secs, l.value))
    ensures Lean(Replaced(secs, l, t, r))
  {
    hide Killed, Append, Lean;
    match l {
      case None => LeanAfterAppend(secs, t, r);
      case Some(loc) =>
        LeanAfterKill(secs, loc, PreDelete);
        KilledFacts(0, secs, loc, PreDelete, false, t, 0);
        LeanAfterAppend(Killed(secs, loc, PreDelete), t, r);
        AppendFacts(Killed(secs, loc, PreDelete), t, r, loc);
        LeanAfterKill(Append(Killed(secs, loc, PreDelete), t, r), loc, Deleted);
    }
  }

  lemma {:induction false} LeanAfterFormat(secs: seq<Sector>, s: nat)
    requires Lean(secs) && s < |secs|
    ensures Lean(Formatted(secs, s))
  {
  }

  lemma {:induction false} LeanAfterMark(secs: seq<Sector>, s: nat)
    requires Lean(secs) && s < |secs|
    ensures Lean(Dirtying(secs, s, Collecting))
  {
  }

  // ---------- in terms of the map ----------

  lemma {:induction false} SomeLive(recs: seq<Record>) returns (i: nat)
    requires LiveSize(recs) > 0
    ensures i < |recs| && recs[i].status == Written
    decreases |recs|
  {
    if recs[0].status == Written {
      i := 0;
    } else {
      i := SomeLive(recs[1..]);
      i := i + 1;
    }
  }

  lemma {:induction false} SomeLiveIn(secs: seq<Sector>) returns (l: Loc)
    requires LiveTotal(secs) > 0
    ensures Live(secs, l)
    decreases |secs|
  {
    var n := |secs| - 1;
    if LiveSize(secs[n].recs) > 0 {
      var i := SomeLive(secs[n].recs);
      l := Loc(n, i);
    } else {
      l := SomeLiveIn(secs[..n]);
      assert secs[..n][l.s] == secs[l.s];
    }
  }

  lemma {:induction false} OneLessLive(recs: seq<Record>, i: nat)
    requires i < |recs| && recs[i].status == Written
    ensures LiveSize(recs[i := recs[i].(status := Deleted)]) == LiveSize(recs) - Len(recs[i])
    decreases |recs|
  {
    var recs' := recs[i := recs[i].(status := Deleted)];
    if i > 0 {
      OneLessLive(recs[1..], i - 1);
      assert recs'[1..] == recs[1..][i - 1 := recs[i].(status := Deleted)];
    } else {
      assert recs'[1..] == recs[1..];
    }
  }

  lemma {:induction false} OneLessLiveIn(secs: seq<Sector>, l: Loc)
    requires Live(secs, l)
    ensures LiveTotal(Restatus(secs, l, Deleted)) == LiveTotal(secs) - Len(Get(secs, l))
    decreases |secs|
  {
    var secs', n := Restatus(secs, l, Deleted), |secs| - 1;
    if l.s == n {
      assert secs'[..n] == secs[..n];
      OneLessLive(secs[n].recs, l.i);
    } else {
      assert secs'[..n] == Restatus(secs[..n], l, Deleted);
      OneLessLiveIn(secs[..n], l);
    }
  }

  /** The live data are those of the map: with records of at most r bytes, no more than r for each key. */
  lemma {:induction false} LiveIsBounded(secs: seq<Sector>, at: map<Name, Loc>, r: nat)
    requires Index(secs, at) && AllShort(secs, at, r)
    ensures LiveTotal(secs) <= |at| * r
    decreases |at|
  {
    hide Len, LiveTotal, Index, MapOf, Restatus, AllShort;
    if LiveTotal(secs) > 0 {
      var l := SomeLiveIn(secs);
      LiveIsIndexed(secs, at, l);
      var k := Get(secs, l).name;
      OneLessLiveIn(secs, l);
      KillIndexes(secs, at, k, Deleted);
      StillShort(secs, at, k, r);
      OneKeyLess(at, k, r);
      LiveIsBounded(Restatus(secs, l, Deleted), at - {k}, r);
    }
  }

  lemma {:induction false} OneKeyLess(at: map<Name, Loc>, k: Name, r: nat)
    requires k in at
    ensures |at| == |at - {k}| + 1 && |at| * r == |at - {k}| * r + r
  {
    assert at.Keys == (at - {k}).Keys + {k};
  }

  /** No live record is longer than r bytes. */
  ghost predicate AllShort(secs: seq<Sector>, at: map<Name, Loc>, r: nat) {
    forall k | k in at :: At(secs, at[k]) && Len(Get(secs, at[k])) <= r
  }

  lemma {:induction false} StillShort(secs: seq<Sector>, at: map<Name, Loc>, k: Name, r: nat)
    requires Index(secs, at) && AllShort(secs, at, r) && k in at
    ensures Len(Get(secs, at[k])) <= r && AllShort(Restatus(secs, at[k], Deleted), at - {k}, r)
  {
    hide Len;
    var secs', at' := Restatus(secs, at[k], Deleted), at - {k};
    forall j | j in at' ensures At(secs', at'[j]) && Get(secs', at'[j]) == Get(secs, at[j]) {
      assert Get(secs, at[j]).name == j;
    }
  }

  /** No record of the map takes more than r bytes. */
  ghost predicate Small(m: map<Name, Value>, r: nat) {
    forall k | k in m :: REC_HDR + |k| + |m[k]| <= r
  }

  /** As long as a sector has room for one record more than there are keys, all of them as long as the longest one, the
      live data leave room for it. */
  lemma {:induction false} SmallMapLeavesRoom(cap: int, secs: seq<Sector>, at: map<Name, Loc>, names: set<Name>, r: nat)
    requires SectorsOk(cap, secs) && Index(secs, at) && Small(MapOf(secs, at), r)
    requires at.Keys <= names && (|names| + 1) * r + THRESHOLD < cap
    ensures LiveTotal(secs) + r + THRESHOLD < cap
  {
    hide LiveTotal, SectorsOk;
    forall k | k in at ensures At(secs, at[k]) && Len(Get(secs, at[k])) <= r {
      assert MapOf(secs, at)[k] == Get(secs, at[k]).value && Get(secs, at[k]).name == k;
    }
    hide Index, MapOf, Len;
    assert AllShort(secs, at, r);
    LiveIsBounded(secs, at, r);
    FewerKeys(at, names, r);
  }

  lemma {:induction false} FewerKeys(at: map<Name, Loc>, names: set<Name>, r: nat)
    requires at.Keys <= names
    ensures |at| * r + r <= (|names| + 1) * r
  {
    FewerElements(at.Keys, names);
    assert |at| == |at.Keys|;
    Multiplied(|at|, |names|, r);
  }

  lemma {:induction false} Multiplied(a: nat, b: nat, r: nat)
    requires a <= b
    ensures a * r + r <= (b + 1) * r
  {
  }

  lemma {:induction false} FewerElements(a: set<Name>, b: set<Name>)
    requires a <= b
    ensures |a| <= |b|
    decreases a
  {
    if a != {} {
      var x :| x in a;
      FewerElements(a - {x}, b - {x});
    }
  }

  lemma {:induction false} SmallAfterSet(m: map<Name, Value>, key: Name, value: Value, r: nat)
    requires Small(m, r)
    ensures REC_HDR + |key| + |value| <= r ==> Small(m[key := value], r)
    ensures Small(m - {key}, r)
  {
  }
}
