/** Emptying one sector record by record: what that keeps, and what it loses when there is no spare sector. */
module KvdbSweep {
  import opened Cyclic
  import opened KvdbCuts
  import opened KvdbPacking
  import opened KvdbSteps
  import opened KvdbStore
  import opened KvdbTables

  /** The marked record, unless it has been dealt with among the first i of the sector. */
  function Rest(l: Option<Loc>, s: nat, i: nat): Option<Loc> {
    if l.Some? && l.value.s == s && l.value.i < i then None else l
  }

  /** Sector s has been emptied up to record i: the map is the one to keep, less what has been lost. */
  ghost predicate Sweep(secs: seq<Sector>, at: map<Name, Loc>, s: nat, recs0: seq<Record>, i: nat, l: Option<Loc>,
        p: Option<Loc>, goal: map<Name, Value>, gone: set<Name>) {
    && Index(secs, at) && Swept(secs, s, recs0, i, l, p) && Places(secs, l, p)
    && (forall j | 0 <= j < |recs0| :: recs0[j].status == PreDelete <==> l == Some(Loc(s, j)))
    && Restored(secs, at, Rest(l, s, i)) == goal - gone
  }

  /** Without an empty sector: what is still to be lost is what first-fit packing leaves over of the rest. */
  ghost predicate Tight(cap: int, secs: seq<Sector>, at: map<Name, Loc>, oldest: nat, s: nat, recs0: seq<Record>,
        i: nat, l: Option<Loc>, there: set<Name>, gone: set<Name>, lost: set<Name>) {
    && oldest < |secs| && i <= |recs0| && Empties(secs) == 0
    && gone + Lost(Rooms(cap, secs, oldest), recs0[i..], there) == lost
    && NewerIsClean(secs, at, Rest(l, s, i)) && (i == 0 ==> there == at.Keys)
    && (l.Some? && l.value.s == s && i <= l.value.i < |recs0| ==>
          (recs0[l.value.i].name in at <==> recs0[l.value.i].name in there))
  }

  lemma SweepStarts(cap: int, secs: seq<Sector>, at: map<Name, Loc>, s: nat, l: Option<Loc>, p: Option<Loc>)
    requires SectorsOk(cap, secs) && Index(secs, at) && s < |secs| && secs[s].dirty != Clean
    requires Cut(secs, l, p) && Places(secs, l, p)
    ensures var secs' := Dirtying(secs, s, Collecting);
            && Index(secs', at) && Places(secs', l, p) && secs'[s].recs == secs[s].recs
            && Sweep(secs', at, s, secs[s].recs, 0, l, p, Restored(secs, at, l), {})
            && Slack(cap, secs[s].recs)
            && forall x | 0 <= x < |secs| && secs[x].store == Empty :: Spare(secs', s, secs[s].recs, 0, x)
  {
    hide SectorsOk, Index, MapOf, Swept, Spare;
    var secs' := Dirtying(secs, s, Collecting);
    SweepBegins(cap, secs, s, l, p);
    DirtyingIndexes(secs, at, s, Collecting);
    if l.Some? { assert Get(secs', l.value) == Get(secs, l.value); }
    var goal := Restored(secs, at, l);
    assert goal - {} == goal;
  }

  lemma TightStarts(cap: int, secs: seq<Sector>, at: map<Name, Loc>, oldest: nat, s: nat, l: Option<Loc>,
        lost: set<Name>)
    requires SectorsOk(cap, secs) && Index(secs, at) && s < |secs| && secs[s].dirty != Clean && oldest < |secs|
    requires Empties(secs) == 0 && NewerIsClean(secs, at, l) && (l.Some? ==> At(secs, l.value))
    requires lost == Lost(Rooms(cap, secs, oldest), secs[s].recs, at.Keys)
    ensures Tight(cap, Dirtying(secs, s, Collecting), at, oldest, s, secs[s].recs, 0, l, at.Keys, {}, lost)
  {
    hide Index, Rooms, Lost, Empties, Size, SectorsOk;
    var secs' := Dirtying(secs, s, Collecting);
    assert secs[s].recs[0..] == secs[s].recs;
    CollectingOk(cap, secs, s);
    SameRooms(cap, secs, secs', oldest);
    if l.Some? { assert Get(secs', l.value) == Get(secs, l.value); }
  }

  /** A record that needs no place is passed over. */
  lemma SweepPasses(secs: seq<Sector>, at: map<Name, Loc>, s: nat, recs0: seq<Record>, i: nat, l: Option<Loc>,
        p: Option<Loc>, goal: map<Name, Value>, gone: set<Name>)
    requires Sweep(secs, at, s, recs0, i, l, p, goal, gone) && i < |recs0|
    requires recs0[i].status != Written && recs0[i].status != PreDelete
    ensures Sweep(secs, at, s, recs0, i + 1, l, p, goal, gone)
    ensures forall x | Spare(secs, s, recs0, i, x) :: Spare(secs, s, recs0, i + 1, x)
  {
    hide Index, Swept, Spare, MapOf, Restored;
    SweepSkips(secs, s, recs0, i, l, p);
  }

  lemma TightPasses(cap: int, secs: seq<Sector>, at: map<Name, Loc>, oldest: nat, s: nat, recs0: seq<Record>, i: nat,
        l: Option<Loc>, p: Option<Loc>, goal: map<Name, Value>, there: set<Name>, gone: set<Name>, lost: set<Name>)
    requires Tight(cap, secs, at, oldest, s, recs0, i, l, there, gone, lost) && i < |recs0|
    requires recs0[i].status != Written && recs0[i].status != PreDelete
    requires Sweep(secs, at, s, recs0, i, l, p, goal, gone)
    ensures Tight(cap, secs, at, oldest, s, recs0, i + 1, l, there, gone, lost)
  {
    hide Rooms, Empties;
    assert recs0[i..][1..] == recs0[i + 1..];
  }

  /** A record has been moved, or deleted because the one that replaces it is there. */
  lemma SweepMoves(was: seq<Sector>, at: map<Name, Loc>, secs: seq<Sector>, at': map<Name, Loc>, s: nat,
        recs0: seq<Record>, i: nat, t: nat, l: Option<Loc>, p: Option<Loc>, goal: map<Name, Value>, gone: set<Name>)
    requires Sweep(was, at, s, recs0, i, l, p, goal, gone) && i < |recs0|
    requires recs0[i].status == Written || recs0[i].status == PreDelete
    requires Index(secs, at') && MapOf(secs, at') == Restored(was, at, Some(Loc(s, i)))
    requires if recs0[i].status == PreDelete && recs0[i].name in at
             then secs == Killed(was, Loc(s, i), Deleted) && at' == at
             else && t < |was| && t != s && secs == Moved(was, Loc(s, i), t)
                  && at' == at[recs0[i].name := Loc(t, |was[t].recs|)]
    ensures |secs| == |was| && Sweep(secs, at', s, recs0, i + 1, l, p, goal, gone)
    ensures forall u | 0 <= u < |secs| && u != s :: secs[u].dirty == was[u].dirty && was[u].recs <= secs[u].recs
    ensures forall x: nat | Spare(was, s, recs0, i, x)
              && Size(was[x].recs) + Len(recs0[i]) <= Size(recs0[..i + 1]) :: Spare(secs, s, recs0, i + 1, x)
  {
    hide Index, Swept, Spare, MapOf, Size, Len, Moved, Killed;
    var here := Loc(s, i);
    SweptAt(was, s, recs0, i, l, p);
    SweepSteps(was, secs, s, recs0, i, t, Deleted, l, p);
    MovedKeeps(was, secs, here, t, Deleted);
    if recs0[i].status == Written {
      LiveIsIndexed(was, at, here);
      if l.Some? { assert Get(secs, l.value) == Get(was, l.value); }
    }
  }

  lemma SweptRest(secs: seq<Sector>, s: nat, recs0: seq<Record>, i: nat, l: Option<Loc>, p: Option<Loc>)
    requires Swept(secs, s, recs0, i, l, p)
    ensures forall j | i <= j < |recs0| :: At(secs, Loc(s, j)) && Get(secs, Loc(s, j)) == recs0[j]
  {
  }

  lemma SweptAt(secs: seq<Sector>, s: nat, recs0: seq<Record>, i: nat, l: Option<Loc>, p: Option<Loc>)
    requires Swept(secs, s, recs0, i, l, p) && i < |recs0|
    ensures At(secs, Loc(s, i)) && Get(secs, Loc(s, i)) == recs0[i] && secs[s].dirty == Collecting
  {
  }

  /** All other records stay where and what they are. */
  lemma MovedKeeps(was: seq<Sector>, secs: seq<Sector>, here: Loc, t: nat, st: Status)
    requires At(was, here) && was[here.s].dirty != Clean
    requires secs == Killed(was, here, st) || (t < |was| && t != here.s && secs == Moved(was, here, t))
    ensures |secs| == |was| && At(secs, here)
    ensures forall l | At(was, l) && l != here :: At(secs, l) && Get(secs, l) == Get(was, l)
    ensures forall u | 0 <= u < |secs| && u != here.s :: secs[u].dirty == was[u].dirty && was[u].recs <= secs[u].recs
  {
    hide Size, Moved;
    if secs != Killed(was, here, st) { MovedAt(was, here, t); }
  }

  /** No room has been found: a live record is marked all the same, and what only stands there is given up. */
  lemma SweepFails(was: seq<Sector>, at: map<Name, Loc>, secs: seq<Sector>, at': map<Name, Loc>, s: nat,
        recs0: seq<Record>, i: nat, l: Option<Loc>, p: Option<Loc>, goal: map<Name, Value>, gone: set<Name>)
    requires Sweep(was, at, s, recs0, i, l, p, goal, gone) && i < |recs0|
    requires recs0[i].status == Written || recs0[i].status == PreDelete
    requires recs0[i].status == Written ==> NewerIsClean(was, at, Rest(l, s, i))
    requires Index(secs, at')
    requires if recs0[i].status == Written
             then secs == Killed(was, Loc(s, i), PreDelete) && at' == at - {recs0[i].name}
                  && MapOf(secs, at') == MapOf(was, at) - {recs0[i].name}
             else secs == was && at' == at
    ensures var more := if Needy(recs0[i], at.Keys) then {recs0[i].name} else {};
            |secs| == |was| && Sweep(secs, at', s, recs0, i + 1, l, p, goal, gone + more)
    ensures forall u | 0 <= u < |secs| && u != s :: secs[u].dirty == was[u].dirty && was[u].recs <= secs[u].recs
  {
    hide Index, Swept, MapOf, Killed;
    var here, name := Loc(s, i), recs0[i].name;
    SweptAt(was, s, recs0, i, l, p);
    var more := gone + if Needy(recs0[i], at.Keys) then {name} else {};
    assert (goal - gone) - {name} == goal - (gone + {name});
    if recs0[i].status == Written {
      SweepSteps(was, secs, s, recs0, i, 0, PreDelete, l, p);
      MovedKeeps(was, secs, here, 0, PreDelete);
      LiveIsIndexed(was, at, here);
      if Rest(l, s, i).Some? {
        assert Get(secs, l.value) == Get(was, l.value);
        StaysRestored(MapOf(was, at), name, Get(was, l.value).name, Get(was, l.value).value);
      }
    } else {
      SweepSkips(was, s, recs0, i, l, p);
      FailedMarked(was, at, here);
    }
  }

  lemma StaysRestored(m: map<Name, Value>, name: Name, k: Name, v: Value)
    requires k != name
    ensures (m - {name})[k := v] == m[k := v] - {name}
  {
  }

  lemma FailedMarked(secs: seq<Sector>, at: map<Name, Loc>, l: Loc)
    requires Index(secs, at) && At(secs, l) && Get(secs, l).status == PreDelete
    ensures Get(secs, l).name !in at ==> Restored(secs, at, Some(l)) - {Get(secs, l).name} == Restored(secs, at, None)
    ensures Get(secs, l).name in at ==> Restored(secs, at, Some(l)) == Restored(secs, at, None)
  {
    var m, r := MapOf(secs, at), Get(secs, l);
    if r.name !in at { assert m[r.name := r.value] - {r.name} == m; }
  }

  // ---------- without an empty sector ----------

  /** With all sectors in use the allocator of a collection packs by first fit. */
  lemma AllocatesFirstRoom(cap: int, was: seq<Sector>, mid: seq<Sector>, here: Loc, oldest: nat, n: nat, t: nat)
    requires At(was, here) && was[here.s].dirty != Clean && oldest < |was| && Empties(was) == 0
    requires mid == was || mid == Killed(was, here, PreDelete)
    requires Candidate(cap, mid, true, t, n) && FirstChoice(cap, mid, oldest, true, t, n)
    ensures t < |was| && t != here.s && was[t].dirty == Clean
    ensures FirstRoom(Rooms(cap, was, oldest), n) == Pending(|was|, oldest, t)
  {
    hide Size, Rooms, FirstRoom, Killed, Empties, Usable;
    KilledUsable(cap, was, here, PreDelete);
    NoneEmpty(was);
    UsableIsClean(cap, was, t, n);
    TakesFirstRoom(cap, was, oldest, n, t);
  }

  lemma UsableIsClean(cap: int, secs: seq<Sector>, t: nat, n: nat)
    requires Usable(cap, secs, true, t, n)
    ensures secs[t].dirty == Clean
  {
  }

  lemma FindsNoRoom(cap: int, was: seq<Sector>, mid: seq<Sector>, here: Loc, oldest: nat, n: nat)
    requires At(was, here) && was[here.s].dirty != Clean && oldest < |was|
    requires mid == was || mid == Killed(was, here, PreDelete)
    ensures FirstRoom(Rooms(cap, was, oldest), n) == |was| || exists x: nat :: Candidate(cap, mid, true, x, n)
  {
    hide Size, Rooms, FirstRoom, Killed, Empties, Usable;
    KilledUsable(cap, was, here, PreDelete);
    FirstRoomIsUsable(cap, was, oldest, n);
    var k := FirstRoom(Rooms(cap, was, oldest), n);
    if k < |was| {
      var x := Wrap(|was|, oldest + k);
      assert Candidate(cap, mid, true, x, n) <==> Usable(cap, was, true, x, n);
    }
  }

  /** The rooms after a record has been moved out of a sector that has none itself. */
  lemma RoomsAfterMove(cap: int, was: seq<Sector>, secs: seq<Sector>, here: Loc, t: nat, oldest: nat)
    requires At(was, here) && was[here.s].dirty != Clean && oldest < |was|
    requires t < |was| && t != here.s && was[t].dirty == Clean && secs == Moved(was, here, t)
    ensures var k, rooms := Pending(|was|, oldest, t), Rooms(cap, was, oldest);
            |secs| == |was| && Rooms(cap, secs, oldest) == rooms[k := rooms[k] - Len(Get(was, here))]
  {
    hide Size, Moved, Rooms, Len;
    var r := Get(was, here);
    MovedAt(was, here, t);
    SizeOfAppend(was[t].recs, r.(status := Written));
    SameLen(r, Written);
    RoomsAfterAppend(cap, was, secs, oldest, t, Len(r));
  }

  lemma RoomsAfterKill(cap: int, was: seq<Sector>, here: Loc, st: Status, oldest: nat)
    requires At(was, here) && was[here.s].dirty != Clean && oldest < |was|
    ensures |Killed(was, here, st)| == |was| && Rooms(cap, Killed(was, here, st), oldest) == Rooms(cap, was, oldest)
  {
    hide Size, Rooms, Killed;
    KilledUsable(cap, was, here, st);
    SameRooms(cap, was, Killed(was, here, st), oldest);
  }

  lemma LostStep(rooms: seq<int>, recs: seq<Record>, i: nat, there: set<Name>)
    requires i < |recs|
    ensures var r, k := recs[i], FirstRoom(rooms, Len(recs[i]));
            Lost(rooms, recs[i..], there)
            == if !Needy(r, there) then Lost(rooms, recs[i + 1..], there)
               else if k < |rooms| then Lost(rooms[k := rooms[k] - Len(r)], recs[i + 1..], there)
               else {r.name} + Lost(rooms, recs[i + 1..], there)
  {
    assert recs[i..][1..] == recs[i + 1..];
  }

  /** What a sweep without an empty sector knows of the record it comes to. */
  lemma TightAt(cap: int, was: seq<Sector>, at: map<Name, Loc>, oldest: nat, s: nat, recs0: seq<Record>, i: nat,
        l: Option<Loc>, p: Option<Loc>, goal: map<Name, Value>, there: set<Name>, gone: set<Name>, lost: set<Name>)
    requires Tight(cap, was, at, oldest, s, recs0, i, l, there, gone, lost) && i < |recs0|
    requires Sweep(was, at, s, recs0, i, l, p, goal, gone)
    ensures At(was, Loc(s, i)) && Get(was, Loc(s, i)) == recs0[i] && was[s].dirty == Collecting
    ensures Needy(recs0[i], there) <==> Needy(recs0[i], at.Keys)
    ensures oldest < |was| && Empties(was) == 0 && gone + Lost(Rooms(cap, was, oldest), recs0[i..], there) == lost
  {
    hide Rooms, Lost, Empties, Restored, Index;
    SweptAt(was, s, recs0, i, l, p);
  }

  lemma TightMoves(cap: int, was: seq<Sector>, at: map<Name, Loc>, secs: seq<Sector>, at': map<Name, Loc>, oldest: nat,
        s: nat, recs0: seq<Record>, i: nat, t: nat, l: Option<Loc>, p: Option<Loc>, goal: map<Name, Value>,
        there: set<Name>, gone: set<Name>, lost: set<Name>)
    requires Tight(cap, was, at, oldest, s, recs0, i, l, there, gone, lost) && i < |recs0|
    requires Sweep(was, at, s, recs0, i, l, p, goal, gone) && Empties(secs) == 0
    requires recs0[i].status == Written || recs0[i].status == PreDelete
    requires if recs0[i].status == PreDelete && recs0[i].name in at
             then secs == Killed(was, Loc(s, i), Deleted) && at' == at
             else && t < |was| && t != s && was[t].dirty == Clean && secs == Moved(was, Loc(s, i), t)
                  && at' == at[recs0[i].name := Loc(t, |was[t].recs|)]
                  && FirstRoom(Rooms(cap, was, oldest), Len(recs0[i])) == Pending(|was|, oldest, t)
    ensures Tight(cap, secs, at', oldest, s, recs0, i + 1, l, there, gone, lost)
  {
    hide Rooms, Lost, Empties, Restored, Moved, Killed, Swept, MapOf, Len, Index;
    var here := Loc(s, i);
    TightAt(cap, was, at, oldest, s, recs0, i, l, p, goal, there, gone, lost);
    LostStep(Rooms(cap, was, oldest), recs0, i, there);
    if recs0[i].status == PreDelete && recs0[i].name in at {
      RoomsAfterKill(cap, was, here, Deleted, oldest);
    } else {
      RoomsAfterMove(cap, was, secs, here, t, oldest);
    }
    MovedKeeps(was, secs, here, t, Deleted);
    if recs0[i].status == Written {
      LiveIsIndexed(was, at, here);
      MoveStaysClean(was, at, secs, at', here, t, Rest(l, s, i));
    }
  }

  lemma MoveStaysClean(was: seq<Sector>, at: map<Name, Loc>, secs: seq<Sector>, at': map<Name, Loc>, here: Loc, t: nat,
        l: Option<Loc>)
    requires Index(was, at) && NewerIsClean(was, at, l) && (l.Some? ==> At(was, l.value) && l.value != here)
    requires Live(was, here) && was[here.s].dirty == Collecting
    requires |secs| == |was| && forall u | 0 <= u < |secs| && u != here.s :: secs[u].dirty == was[u].dirty
    requires l.Some? ==> At(secs, l.value) && Get(secs, l.value) == Get(was, l.value)
    requires at' == at - {Get(was, here).name}
             || (t < |was| && t != here.s && was[t].dirty == Clean
                 && at' == at[Get(was, here).name := Loc(t, |was[t].recs|)])
    ensures NewerIsClean(secs, at', l)
  {
    hide Index;
    LiveIsIndexed(was, at, here);
  }

  lemma TightFails(cap: int, was: seq<Sector>, at: map<Name, Loc>, secs: seq<Sector>, at': map<Name, Loc>, oldest: nat,
        s: nat, recs0: seq<Record>, i: nat, l: Option<Loc>, p: Option<Loc>, goal: map<Name, Value>,
        there: set<Name>, gone: set<Name>, lost: set<Name>)
    requires Tight(cap, was, at, oldest, s, recs0, i, l, there, gone, lost) && i < |recs0|
    requires Sweep(was, at, s, recs0, i, l, p, goal, gone) && Empties(secs) == 0
    requires recs0[i].status == Written || recs0[i].status == PreDelete
    requires if recs0[i].status == Written
             then secs == Killed(was, Loc(s, i), PreDelete) && at' == at - {recs0[i].name}
             else secs == was && at' == at
    requires FirstRoom(Rooms(cap, was, oldest), Len(recs0[i])) == |was|
    ensures Tight(cap, secs, at', oldest, s, recs0, i + 1, l, there,
                  gone + (if Needy(recs0[i], at.Keys) then {recs0[i].name} else {}), lost)
  {
    hide Rooms, Lost, Empties, Restored, Moved, Killed, Swept, MapOf, Len, Index;
    var here := Loc(s, i);
    TightAt(cap, was, at, oldest, s, recs0, i, l, p, goal, there, gone, lost);
    LostStep(Rooms(cap, was, oldest), recs0, i, there);
    assert gone + ({recs0[i].name} + Lost(Rooms(cap, was, oldest), recs0[i + 1..], there))
        == (gone + {recs0[i].name}) + Lost(Rooms(cap, was, oldest), recs0[i + 1..], there);
    if recs0[i].status == Written {
      RoomsAfterKill(cap, was, here, PreDelete, oldest);
      MovedKeeps(was, secs, here, 0, PreDelete);
      MoveStaysClean(was, at, secs, at', here, 0, Rest(l, s, i));
      StillThere(was, at, here, at', Rest(l, s, i));
      SweptRest(was, s, recs0, i, l, p);
      if l.Some? && l.value.s == s && i <= l.value.i { assert Get(was, Loc(s, l.value.i)) == Get(was, l.value); }
    }
  }

  /** The name given up is not the one of the marked record. */
  lemma StillThere(was: seq<Sector>, at: map<Name, Loc>, here: Loc, at': map<Name, Loc>, l: Option<Loc>)
    requires Index(was, at) && NewerIsClean(was, at, l) && (l.Some? ==> At(was, l.value))
    requires Live(was, here) && was[here.s].dirty == Collecting && at' == at - {Get(was, here).name}
    ensures l.Some? ==> (Get(was, l.value).name in at' <==> Get(was, l.value).name in at)
  {
    hide Index;
    LiveIsIndexed(was, at, here);
  }

  // ---------- the flash states on the way ----------

  /** From the given write on, every flash state holds this map. */
  ghost predicate AllHold(cap: int, trace: seq<seq<Sector>>, from: nat, m: map<Name, Value>) {
    from <= |trace| && forall j | from <= j < |trace| :: StandsFor(cap, trace[j], m)
  }

  lemma NoneYet(cap: int, trace: seq<seq<Sector>>, m: map<Name, Value>)
    ensures AllHold(cap, trace, |trace|, m)
  {
  }

  lemma OneMoreHolds(cap: int, trace: seq<seq<Sector>>, from: nat, m: map<Name, Value>, flash: seq<Sector>)
    requires AllHold(cap, trace, from, m) && StandsFor(cap, flash, m)
    ensures AllHold(cap, trace + [flash], from, m)
  {
    hide StandsFor;
  }

  lemma MoreHold(cap: int, trace: seq<seq<Sector>>, from: nat, m: map<Name, Value>, more: seq<seq<Sector>>)
    requires AllHold(cap, trace, from, m) && AllHold(cap, more, 0, m)
    ensures AllHold(cap, trace + more, from, m)
  {
    hide StandsFor;
  }

  lemma HoldOn(cap: int, before: seq<seq<Sector>>, trace: seq<seq<Sector>>, from: nat, m: map<Name, Value>)
    requires before <= trace && AllHold(cap, before, from, m) && AllHold(cap, trace, |before|, m)
    ensures AllHold(cap, trace, from, m)
  {
    hide StandsFor;
  }

  /** From the given write on, every flash state holds the one map or the other. */
  ghost predicate AllHoldEither(cap: int, trace: seq<seq<Sector>>, from: nat, m: map<Name, Value>,
        m': map<Name, Value>) {
    from <= |trace| && forall j | from <= j < |trace| :: StandsFor(cap, trace[j], m) || StandsFor(cap, trace[j], m')
  }

  lemma OneOfTwo(cap: int, trace: seq<seq<Sector>>, from: nat, m: map<Name, Value>, m': map<Name, Value>)
    requires AllHold(cap, trace, from, m) || AllHold(cap, trace, from, m')
    ensures AllHoldEither(cap, trace, from, m, m')
  {
    hide StandsFor;
  }

  /** Making room keeps the map, and then the key is set. */
  lemma SetHolds(cap: int, before: seq<seq<Sector>>, trace: seq<seq<Sector>>, from: nat, base: seq<Sector>,
        at: map<Name, Loc>, m: map<Name, Value>, key: Name, value: Value, t: nat)
    requires SetBase(cap, base, at, m, key, value, t) && t < |base| && AllHold(cap, before, from, m)
    requires var l := if key in at then Some(at[key]) else None;
             (l.Some? ==> At(base, l.value)) && trace == before + SetTrace(base, l, t, key, value, NewParts())
    ensures AllHoldEither(cap, trace, from, m, m[key := value])
  {
    hide StandsFor, SetBase, SetTrace;
    forall j | from <= j < |trace|
      ensures StandsFor(cap, trace[j], m) || StandsFor(cap, trace[j], m[key := value])
    {
      if j >= |before| { SetImage(cap, base, at, m, key, value, t, j - |before|); }
    }
  }

  lemma DeleteHolds(cap: int, before: seq<seq<Sector>>, base: seq<Sector>, at: map<Name, Loc>, loc: Loc)
    requires |base| >= 2 && SectorsOk(cap, base) && Index(base, at) && Tidy(base) && Live(base, loc)
    requires Empties(base) > 0
    ensures AllHold(cap, before + DelTrace(base, loc, Deleted), |before|, MapOf(base, at) - {Get(base, loc).name})
  {
    hide StandsFor, SectorsOk, Index, MapOf, Cut, Empties;
    var trace := before + DelTrace(base, loc, Deleted);
    forall j | |before| <= j < |trace| ensures StandsFor(cap, trace[j], MapOf(base, at) - {Get(base, loc).name}) {
      DeleteImage(cap, base, at, loc, j - |before|);
    }
  }

  /** Whenever power goes while a live record is moved, the flash holds the same map. */
  lemma MoveHolds(cap: int, was: seq<Sector>, at: map<Name, Loc>, here: Loc, t: nat)
    requires At(was, here) && Replaceable(cap, was, at, here, Get(was, here).value, t)
    ensures AllHold(cap, MoveTrace(was, here, t), 0, MapOf(was, at))
    ensures Tidy(Moved(was, here, t))
  {
    hide SectorsOk, Index, MapOf, Empties, Size, SetTrace, Fits, Restored, Loadable, Settled, Cut, Moved;
    var r := Get(was, here);
    LiveValue(was, at, here);
    RecordIsWhole(cap, was, here);
    CopyPartsCount(MAGIC_OFFSET, Len(r));
    var trace := MoveTrace(was, here, t);
    forall j | 0 <= j < |trace| ensures StandsFor(cap, trace[j], MapOf(was, at)) {
      var at', l, p := CutImage(cap, was, at, here, r.value, t, CopyParts(MAGIC_OFFSET, Len(r)), j);
    }
    SetLeavesTidy(was, t, r, Some(here));
    MoveTraceIs([], was, here, t);
  }

  lemma SweepIsReplaceable(cap: int, was: seq<Sector>, at: map<Name, Loc>, s: nat, recs0: seq<Record>, i: nat, t: nat)
    requires |was| >= 2 && SectorsOk(cap, was) && Index(was, at) && Tidy(was) && At(was, Loc(s, i)) && i < |recs0|
    requires was[s].dirty == Collecting && Get(was, Loc(s, i)) == recs0[i] && recs0[i].status == Written
    requires t < |was| && was[t].dirty == Clean && Fits(cap, was[t], Len(recs0[i]))
    ensures Replaceable(cap, was, at, Loc(s, i), recs0[i].value, t)
  {
    hide Index, Size, Empties, Cut;
    RecordIsWhole(cap, was, Loc(s, i));
  }

  // ---------- one record, all together ----------

  lemma SweepAt(secs: seq<Sector>, at: map<Name, Loc>, s: nat, recs0: seq<Record>, i: nat, l: Option<Loc>,
        p: Option<Loc>, goal: map<Name, Value>, gone: set<Name>)
    requires Sweep(secs, at, s, recs0, i, l, p, goal, gone) && i < |recs0|
    ensures At(secs, Loc(s, i)) && Get(secs, Loc(s, i)) == recs0[i] && secs[s].dirty == Collecting
    ensures recs0[i].status == PreDelete <==> l == Some(Loc(s, i))
    ensures Index(secs, at) && (l == None && gone == {} ==> MapOf(secs, at) == goal)
  {
    hide Index, MapOf;
    SweptAt(secs, s, recs0, i, l, p);
  }

  /** The spare sector has room. */
  lemma MoveFinds(cap: int, secs: seq<Sector>, at: map<Name, Loc>, oldest: nat, s: nat, recs0: seq<Record>, i: nat,
        x: Option<nat>)
    requires At(secs, Loc(s, i)) && secs[s].dirty == Collecting && i < |recs0| && Get(secs, Loc(s, i)) == recs0[i]
    requires x.Some? ==> Slack(cap, recs0) && Spare(secs, s, recs0, i, x.value)
    ensures var mid := if recs0[i].status == Written then Killed(secs, Loc(s, i), PreDelete) else secs;
            x.Some? ==> Candidate(cap, mid, true, x.value, Len(recs0[i]))
  {
    hide Size, Killed, Len;
    if x.Some? {
      SpareHasRoom(cap, secs, s, recs0, i, x.value);
      KilledUsable(cap, secs, Loc(s, i), PreDelete);
    }
  }

  lemma SpareParts(secs: seq<Sector>, s: nat, recs0: seq<Record>, i: nat, x: nat)
    requires Spare(secs, s, recs0, i, x)
    ensures x < |secs| && x != s && i <= |recs0| && secs[x].dirty == Clean && Size(secs[x].recs) <= Size(recs0[..i])
  {
  }

  lemma MoveDone(cap: int, was: seq<Sector>, at: map<Name, Loc>, secs: seq<Sector>, at': map<Name, Loc>, oldest: nat,
        s: nat, recs0: seq<Record>, i: nat, t: nat, l: Option<Loc>, p: Option<Loc>, goal: map<Name, Value>,
        gone: set<Name>, x: Option<nat>, there: set<Name>, lost: set<Name>)
    requires Sweep(was, at, s, recs0, i, l, p, goal, gone) && i < |recs0| && oldest < |was|
    requires At(was, Loc(s, i)) && Get(was, Loc(s, i)) == recs0[i] && was[s].dirty == Collecting
    requires recs0[i].status == Written || recs0[i].status == PreDelete
    requires Index(secs, at') && MapOf(secs, at') == Restored(was, at, Some(Loc(s, i)))
    requires x.Some? ==> Slack(cap, recs0) && Spare(was, s, recs0, i, x.value)
    requires x == None ==> Tight(cap, was, at, oldest, s, recs0, i, l, there, gone, lost)
    requires var mid := if recs0[i].status == Written then Killed(was, Loc(s, i), PreDelete) else was;
             if recs0[i].status == PreDelete && recs0[i].name in at
             then secs == Killed(was, Loc(s, i), Deleted) && at' == at && Empties(secs) == Empties(was)
             else && Candidate(cap, mid, true, t, Len(recs0[i]))
                  && FirstChoice(cap, mid, oldest, true, t, Len(recs0[i]))
                  && secs == Moved(was, Loc(s, i), t) && at' == at[recs0[i].name := Loc(t, |mid[t].recs|)]
                  && Empties(secs) == Empties(was) - (if mid[t].store == Empty then 1 else 0)
    ensures |secs| == |was| && Sweep(secs, at', s, recs0, i + 1, l, p, goal, gone)
    ensures forall u | 0 <= u < |secs| && u != s :: secs[u].dirty == was[u].dirty && was[u].recs <= secs[u].recs
    ensures if x.Some? then Spare(secs, s, recs0, i + 1, x.value)
            else Tight(cap, secs, at', oldest, s, recs0, i + 1, l, there, gone, lost)
    ensures (recs0[i].status == PreDelete && recs0[i].name in at) || (t < |was| && t != s)
  {
    hide Size, Killed, Len, Moved, Sweep, Tight, Spare, Index, MapOf, Restored, Slack, Rooms, FirstRoom, Empties,
         FirstChoice, Candidate;
    var here, n := Loc(s, i), Len(recs0[i]);
    KilledUsable(cap, was, here, PreDelete);
    SameNumber(was, here, PreDelete);
    if !(recs0[i].status == PreDelete && recs0[i].name in at) {
      var mid := if recs0[i].status == Written then Killed(was, here, PreDelete) else was;
      CandidateFits(cap, mid, true, t, n);
      UsableIsClean(cap, was, t, n);
      if x == None {
        TightAt(cap, was, at, oldest, s, recs0, i, l, p, goal, there, gone, lost);
        AllocatesFirstRoom(cap, was, mid, here, oldest, n, t);
      }
    }
    SweepMoves(was, at, secs, at', s, recs0, i, t, l, p, goal, gone);
    if x.Some? {
      SpareParts(was, s, recs0, i, x.value);
      SpareHasRoom(cap, was, s, recs0, i, x.value);
    } else {
      TightAt(cap, was, at, oldest, s, recs0, i, l, p, goal, there, gone, lost);
      TightMoves(cap, was, at, secs, at', oldest, s, recs0, i, t, l, p, goal, there, gone, lost);
    }
  }

  lemma MoveTraced(cap: int, was: seq<Sector>, at: map<Name, Loc>, secs: seq<Sector>, before: seq<seq<Sector>>,
        trace: seq<seq<Sector>>, s: nat, recs0: seq<Record>, i: nat, t: nat, goal: map<Name, Value>)
    requires |was| >= 2 && SectorsOk(cap, was) && Index(was, at) && Tidy(was) && At(was, Loc(s, i)) && i < |recs0|
    requires was[s].dirty == Collecting && Get(was, Loc(s, i)) == recs0[i] && recs0[i].status == Written
    requires t < |was| && trace == before + MoveTrace(was, Loc(s, i), t) && secs == Moved(was, Loc(s, i), t)
    requires Candidate(cap, Killed(was, Loc(s, i), PreDelete), true, t, Len(recs0[i])) && MapOf(was, at) == goal
    ensures Tidy(secs) && before <= trace && AllHold(cap, trace, |before|, goal)
  {
    hide SectorsOk, Index, Cut, Len, Killed, Moved, MoveTrace, MapOf, Candidate, Usable, AllHold, Replaceable;
    KilledUsable(cap, was, Loc(s, i), PreDelete);
    CandidateFits(cap, Killed(was, Loc(s, i), PreDelete), true, t, Len(recs0[i]));
    UsableFits(cap, was, t, Len(recs0[i]));
    SweepIsReplaceable(cap, was, at, s, recs0, i, t);
    MoveHolds(cap, was, at, Loc(s, i), t);
    NoneYet(cap, before, goal);
    MoreHold(cap, before, |before|, goal, MoveTrace(was, Loc(s, i), t));
  }

  lemma UsableFits(cap: int, secs: seq<Sector>, t: nat, n: nat)
    requires Usable(cap, secs, true, t, n)
    ensures t < |secs| && secs[t].dirty == Clean && Fits(cap, secs[t], n)
  {
  }

  lemma MoveFailed(cap: int, was: seq<Sector>, at: map<Name, Loc>, secs: seq<Sector>, at': map<Name, Loc>, oldest: nat,
        s: nat, recs0: seq<Record>, i: nat, l: Option<Loc>, p: Option<Loc>, goal: map<Name, Value>, gone: set<Name>,
        there: set<Name>, lost: set<Name>)
    requires Sweep(was, at, s, recs0, i, l, p, goal, gone) && i < |recs0| && oldest < |was|
    requires At(was, Loc(s, i)) && Get(was, Loc(s, i)) == recs0[i] && was[s].dirty == Collecting
    requires recs0[i].status == Written || recs0[i].status == PreDelete
    requires Index(secs, at') && Empties(secs) == Empties(was)
    requires if recs0[i].status == Written
             then secs == Killed(was, Loc(s, i), PreDelete) && at' == at - {recs0[i].name}
                  && MapOf(secs, at') == MapOf(was, at) - {recs0[i].name}
             else secs == was && at' == at
    requires forall y: nat :: !Candidate(cap, secs, true, y, Len(recs0[i]))
    requires Tight(cap, was, at, oldest, s, recs0, i, l, there, gone, lost)
    ensures var gone' := gone + if Needy(recs0[i], at.Keys) then {recs0[i].name} else {};
            && |secs| == |was| && Sweep(secs, at', s, recs0, i + 1, l, p, goal, gone')
            && Tight(cap, secs, at', oldest, s, recs0, i + 1, l, there, gone', lost)
    ensures forall u | 0 <= u < |secs| && u != s :: secs[u].dirty == was[u].dirty && was[u].recs <= secs[u].recs
  {
    hide Size, Killed, Len, Moved, Sweep, Tight, Spare, Index, MapOf, Restored, Rooms, FirstRoom, Empties, Candidate;
    TightAt(cap, was, at, oldest, s, recs0, i, l, p, goal, there, gone, lost);
    FindsNoRoom(cap, was, secs, Loc(s, i), oldest, Len(recs0[i]));
    NewerOf(cap, was, at, oldest, s, recs0, i, l, there, gone, lost);
    SweepFails(was, at, secs, at', s, recs0, i, l, p, goal, gone);
    TightFails(cap, was, at, secs, at', oldest, s, recs0, i, l, p, goal, there, gone, lost);
  }

  lemma NewerOf(cap: int, was: seq<Sector>, at: map<Name, Loc>, oldest: nat, s: nat, recs0: seq<Record>, i: nat,
        l: Option<Loc>, there: set<Name>, gone: set<Name>, lost: set<Name>)
    requires Tight(cap, was, at, oldest, s, recs0, i, l, there, gone, lost)
    ensures NewerIsClean(was, at, Rest(l, s, i))
  {
  }

  /** The sector is through: what has been lost is what packing leaves over, and formatting it changes nothing more. */
  lemma SweepDone(secs: seq<Sector>, at: map<Name, Loc>, s: nat, recs0: seq<Record>, l: Option<Loc>, p: Option<Loc>,
        goal: map<Name, Value>, gone: set<Name>)
    requires Sweep(secs, at, s, recs0, |recs0|, l, p, goal, gone) && s < |secs| && |secs[s].recs| == |recs0|
    ensures NoneLive(secs[s]) && Cut(Formatted(secs, s), Outside(l, s), Outside(p, s))
    ensures Places(Formatted(secs, s), Outside(l, s), Outside(p, s)) && Index(Formatted(secs, s), at)
    ensures Restored(Formatted(secs, s), at, Outside(l, s)) == goal - gone
    ensures l == None && gone == {} ==> MapOf(Formatted(secs, s), at) == goal
  {
    hide Index, MapOf, Cut, NoneLive, Swept;
    SweepEnds(secs, s, recs0, l, p);
    FormattedIndexes(secs, at, s);
    if l.Some? && l.value.s != s { assert Get(Formatted(secs, s), l.value) == Get(secs, l.value); }
  }

  lemma SweepLength(secs: seq<Sector>, at: map<Name, Loc>, s: nat, recs0: seq<Record>, i: nat, l: Option<Loc>,
        p: Option<Loc>, goal: map<Name, Value>, gone: set<Name>)
    requires Sweep(secs, at, s, recs0, i, l, p, goal, gone)
    ensures s < |secs| && i <= |recs0| == |secs[s].recs| && secs[s].dirty == Collecting
  {
    hide Restored, Index;
  }

  lemma TightDone(cap: int, secs: seq<Sector>, at: map<Name, Loc>, oldest: nat, s: nat, recs0: seq<Record>,
        l: Option<Loc>, there: set<Name>, gone: set<Name>, lost: set<Name>)
    requires Tight(cap, secs, at, oldest, s, recs0, |recs0|, l, there, gone, lost)
    ensures gone == lost
  {
    assert recs0[|recs0|..] == [];
  }

  lemma CollectingIsTidy(secs: seq<Sector>, s: nat)
    requires s < |secs| && Tidy(secs)
    ensures Tidy(Dirtying(secs, s, Collecting)) && SomeCollecting(Dirtying(secs, s, Collecting))
  {
    var secs' := Dirtying(secs, s, Collecting);
    assert secs'[s].dirty == Collecting;
    assert forall t | 0 <= t < |secs| :: secs'[t].recs == secs[t].recs;
    forall t, i | 0 <= t < |secs| && 0 <= i < |secs[t].recs|
      ensures Visible(secs', Loc(t, i)) <==> Visible(secs, Loc(t, i)) {
    }
  }

  // ---------- one sector after the other ----------

  ghost predicate AllClean(secs: seq<Sector>) {
    forall s | 0 <= s < |secs| :: secs[s].dirty == Clean
  }

  /** The first dirty sector, going round the ring. */
  ghost predicate FirstDirty(secs: seq<Sector>, oldest: nat, d: nat) {
    && oldest < |secs| && d < |secs| && secs[d].dirty != Clean
    && forall s | 0 <= s < |secs| && Pending(|secs|, oldest, s) < Pending(|secs|, oldest, d) :: secs[s].dirty == Clean
  }

  /** Where a marked or unfinished record is once the first k sectors of the ring have been collected if dirty. */
  function StillAt(secs: seq<Sector>, first: nat, k: nat, l: Option<Loc>): Option<Loc> {
    if l.Some? && first < |secs| && l.value.s < |secs| && secs[l.value.s].dirty != Clean
       && Pending(|secs|, first, l.value.s) < k then None else l
  }

  /** The first k sectors of the ring are clean, and what was clean or has not been reached is still there. */
  ghost predicate Around(was: seq<Sector>, secs: seq<Sector>, first: nat, k: nat) {
    && |secs| == |was| && first < |was|
    && forall s | 0 <= s < |was| ::
         if was[s].dirty == Clean then secs[s].dirty == Clean && was[s].recs <= secs[s].recs
         else if Pending(|was|, first, s) < k then secs[s].dirty == Clean
         else secs[s].dirty == was[s].dirty && was[s].recs <= secs[s].recs
  }

  lemma AroundStarts(secs: seq<Sector>, first: nat, l: Option<Loc>)
    requires first < |secs|
    ensures Around(secs, secs, first, 0) && StillAt(secs, first, 0, l) == l
  {
  }

  lemma AroundPasses(was: seq<Sector>, secs: seq<Sector>, first: nat, k: nat, a: nat, l: Option<Loc>)
    requires Around(was, secs, first, k) && k < |was| && a == Wrap(|was|, first + k) && secs[a].dirty == Clean
    ensures Around(was, secs, first, k + 1) && StillAt(was, first, k + 1, l) == StillAt(was, first, k, l)
  {
    assert Pending(|was|, first, a) == k;
    forall s | 0 <= s < |was| ensures Pending(|was|, first, s) < k + 1 <==> s == a || Pending(|was|, first, s) < k {
      SameDistance(|was|, first);
    }
  }

  lemma AroundCollects(was: seq<Sector>, mid: seq<Sector>, secs: seq<Sector>, first: nat, k: nat, a: nat,
        l: Option<Loc>)
    requires Around(was, mid, first, k) && k < |was| && a == Wrap(|was|, first + k) && mid[a].dirty != Clean
    requires |secs| == |mid| && secs[a] == FRESH
    requires forall u | 0 <= u < |mid| && u != a :: secs[u].dirty == mid[u].dirty && mid[u].recs <= secs[u].recs
    ensures Around(was, secs, first, k + 1) && StillAt(was, first, k + 1, l) == Outside(StillAt(was, first, k, l), a)
  {
    assert Pending(|was|, first, a) == k;
    forall s | 0 <= s < |was| ensures Pending(|was|, first, s) < k + 1 <==> s == a || Pending(|was|, first, s) < k {
      SameDistance(|was|, first);
    }
  }

  /** What has been lost when so many sectors have been collected: the first of them is sector d. */
  ghost predicate LostFirst(cap: int, was: seq<Sector>, there: set<Name>, first: nat, count: int, d: nat,
        lost: set<Name>) {
    if count == 0 || Empties(was) > 0 then lost == {}
    else FirstDirty(was, first, d) && lost == Lost(Rooms(cap, was, first), was[d].recs, there)
  }

  lemma NothingLost(cap: int, was: seq<Sector>, there: set<Name>, first: nat, count: int, d: nat, lost: set<Name>)
    requires LostFirst(cap, was, there, first, count, d, lost)
    ensures count == 0 || Empties(was) > 0 ==> lost == {}
  {
  }

  lemma LostNothing(cap: int, was: seq<Sector>, there: set<Name>, first: nat, d: nat)
    ensures LostFirst(cap, was, there, first, 0, d, {})
  {
  }

  lemma LostIsLost(cap: int, was: seq<Sector>, there: set<Name>, first: nat, count: int, d: nat, lost: set<Name>)
    requires LostFirst(cap, was, there, first, count, d, lost)
    ensures count != 0 ==> LostFirst(cap, was, there, first, 1, d, lost)
  {
  }

  lemma LostGoesOn(cap: int, was: seq<Sector>, there: set<Name>, first: nat, count: int, d: nat, lost: set<Name>,
        more: set<Name>)
    requires count >= 0
    requires count == 0 ==> FirstDirty(was, first, d)
    requires count == 0 ==>
               lost == {} && more == if Empties(was) > 0 then {} else Lost(Rooms(cap, was, first), was[d].recs, there)
    requires count > 0 ==> LostFirst(cap, was, there, first, count, d, lost) && more == {}
    ensures LostFirst(cap, was, there, first, count + 1, d, lost + more)
  {
    hide Lost, Rooms, Empties, FirstDirty;
    assert lost + {} == lost && {} + more == more;
  }

  /** Up to the first dirty sector nothing has changed. */
  lemma FirstIsFirst(was: seq<Sector>, secs: seq<Sector>, first: nat, k: nat, a: nat, l: Option<Loc>)
    requires Around(was, secs, first, k) && secs == was && k < |was| && a == Wrap(|was|, first + k)
    requires was[a].dirty != Clean
    ensures FirstDirty(was, first, a) && !AllClean(was) && StillAt(was, first, k, l) == l
  {
    assert Pending(|was|, first, a) == k;
  }

  lemma AroundAll(was: seq<Sector>, secs: seq<Sector>, first: nat)
    requires Around(was, secs, first, |was|)
    ensures AllClean(secs)
  {
    forall s | 0 <= s < |was| ensures Pending(|was|, first, s) < |was| {
    }
  }

  lemma AroundLength(was: seq<Sector>, secs: seq<Sector>, first: nat, k: nat)
    requires Around(was, secs, first, k)
    ensures |secs| == |was| && first < |was|
  {
  }

  lemma AroundEnds(was: seq<Sector>, secs: seq<Sector>, first: nat, k: nat, l: Option<Loc>, p: Option<Loc>)
    requires Around(was, secs, first, k) && k <= |was| && Places(was, l, p)
    ensures k == |was| ==> AllClean(secs)
    ensures var l', p' := StillAt(was, first, k, l), StillAt(was, first, k, p);
            && (l'.Some? ==> l' == l && At(secs, l.value) && Get(secs, l.value) == Get(was, l.value))
            && (AllClean(was) || secs == was ==> l' == l && p' == p)
            && (AllClean(secs) ==>
                  && l' == (if l.Some? && was[l.value.s].dirty != Clean then None else l)
                  && p' == (if p.Some? && was[p.value.s].dirty != Clean then None else p))
  {
    if k == |was| { AroundAll(was, secs, first); }
  }

  lemma LostTogether(m: map<Name, Value>, a: set<Name>, b: set<Name>)
    ensures (m - a) - b == m - (a + b) && m - {} == m && (b == {} ==> a + b == a) && (a == {} ==> a + b == b)
  {
  }

  lemma NoEntries(table: seq<Entry>, s: nat)
    requires forall i | 0 <= i < |table| :: table[i].addr == None
    ensures NotInto(table, s)
  {
  }

  // ---------- what a start finds and makes of it ----------

  lemma CollectingIsBig(cap: int, secs: seq<Sector>, a: nat, n: nat)
    requires SectorsOk(cap, secs) && a < |secs| && secs[a].dirty == Collecting && n <= |secs|
    ensures cap > 0 && SomeCollecting(secs) && !AllClean(secs)
    ensures |secs| * (cap + SEC_HDR) >= 0 && Freed(n, cap) < |secs| * (cap + SEC_HDR)
  {
    hide Freed, Size;
    assert SectorOk(cap, secs[a]);
    SizeIsNat(secs[a].recs);
    FreedIsLess(n, |secs|, cap);
  }

  lemma MarkedIsBig(cap: int, secs: seq<Sector>, l: Loc, n: nat)
    requires SectorsOk(cap, secs) && At(secs, l) && n <= |secs|
    ensures |secs| * (cap + SEC_HDR) >= 0 && Freed(n, cap) < |secs| * (cap + SEC_HDR)
    ensures !HasRoom(cap, secs, Some(l)) ==> Empties(secs) <= 1
  {
    hide Freed, Size, Len, Empties, HasRoom;
    assert SectorOk(cap, secs[l.s]);
    SizeIsNat(secs[l.s].recs);
    FreedIsLess(n, |secs|, cap);
    if Empties(secs) > 1 { RoomInEmpty(cap, secs, l); }
  }

  lemma SizeIsNat(recs: seq<Record>)
    ensures Size(recs) >= 0
  {
  }

  lemma CleanAt(secs: seq<Sector>, l: Option<Loc>)
    ensures AllClean(secs) ==> !SomeCollecting(secs)
    ensures AllClean(secs) && l.Some? && At(secs, l.value) ==> secs[l.value.s].dirty == Clean
  {
  }

  lemma NoneCollecting(secs: seq<Sector>, first: nat)
    requires first < |secs|
    ensures (forall s | 0 <= s < |secs| && Pending(|secs|, first, s) < |secs| :: secs[s].dirty != Collecting) ==>
              !SomeCollecting(secs)
  {
  }

  /** What was left of the marked record when a collection has gone all the way round. */
  ghost predicate SameMarked(was: seq<Sector>, secs: seq<Sector>, l: Option<Loc>, l': Option<Loc>) {
    l'.Some? ==> l' == l && At(was, l.value) && At(secs, l.value) && Get(secs, l.value) == Get(was, l.value)
  }

  /** The database cannot be put in order: every sector is clean, and there is no room for the marked record. */
  ghost predicate Stuck(cap: int, secs: seq<Sector>, l: Option<Loc>) {
    l.Some? && AllClean(secs) && !HasRoom(cap, secs, l)
  }

  /** The scan from this sector on does not come to an unfinished record before the marked one. */
  ghost predicate InOrder(secs: seq<Sector>, start: nat, l: Option<Loc>, p: Option<Loc>) {
    l.Some? && p.Some? ==>
      start < |secs| && l.value.s < |secs| && p.value.s < |secs| && Before(|secs|, start, l.value, p.value)
  }

  /** What r rounds of a start leave of the flash img: after the first one every sector is clean, and after the second
      one there is no end to it. */
  ghost predicate AfterRounds(cap: int, img: seq<Sector>, secs: seq<Sector>, start: nat, l: Option<Loc>, p: Option<Loc>,
        r: nat, l': Option<Loc>, p': Option<Loc>) {
    && SameMarked(img, secs, l, l')
    && (r > 0 ==> && l.Some? && AllClean(secs) && !HasRoom(cap, img, l) && InOrder(img, start, l, p)
                  && (l'.Some? ==> p' == None && l'.value.s < |img| && img[l'.value.s].dirty == Clean)
                  && (AllClean(img) ==> secs == img && l' == l && Stuck(cap, img, l)))
    && (r > 1 ==> Stuck(cap, secs, l'))
  }
}
