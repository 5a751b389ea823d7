/** What a restart makes of the flash when power has gone after any one of its writes. */
module KvdbRecovery {
  import opened Kvdb
  import opened KvdbCuts
  import opened KvdbPacking
  import opened KvdbSteps
  import opened KvdbStore
  import opened KvdbSweep
  import opened KvdbTables

  /** The flash holds the map m if the record that is only marked, the one at l, counts. */
  ghost predicate HoldsFor(cap: int, img: seq<Sector>, m: map<Name, Value>, at: map<Name, Loc>, l: Option<Loc>,
        p: Option<Loc>) {
    Loadable(cap, img, at, l, p) && Restored(img, at, l) == m
  }

  lemma LoadableParts(cap: int, img: seq<Sector>, at: map<Name, Loc>, l: Option<Loc>, p: Option<Loc>)
    requires Loadable(cap, img, at, l, p)
    ensures |img| >= 2 && SectorsOk(cap, img) && Index(img, at) && Cut(img, l, p) && Places(img, l, p)
    ensures l.Some? && p.Some? ==> img[l.value.s].dirty != Clean
    ensures !Resumes(img) ==> Empties(img) > 0
  {
  }

  /** Giving up the unfinished record does not touch the marked one. */
  lemma SpoiledHolds(cap: int, img: seq<Sector>, m: map<Name, Value>, at: map<Name, Loc>, l: Loc, p: Loc)
    requires HoldsFor(cap, img, m, at, Some(l), Some(p)) && Index(Restatus(img, p, ErrHdr), at)
    ensures var img' := Restatus(img, p, ErrHdr);
            && At(img', l) && Get(img', l) == Get(img, l) && img'[l.s].dirty != Clean
            && Restored(img', at, Some(l)) == m && Empties(img') == Empties(img)
            && MapOf(img', at) == if Get(img, l).name in at then m else m - {Get(img, l).name}
  {
    hide SectorsOk, MapOf, Empties;
    CutApart(img, Some(l), Some(p));
    RestatusKeeps(img, p, l);
    assert Get(img, p).status == PreWrite by { CutStatus(img, Some(l), p); }
    DeadRestatusIndexes(img, at, p, ErrHdr);
    SpoiledOk(cap, img, p);
    var r, c := Get(img, l), MapOf(img, at);
    if r.name !in at { assert c[r.name := r.value] - {r.name} == c; }
  }

  lemma CutStatus(img: seq<Sector>, l: Option<Loc>, p: Loc)
    requires Cut(img, l, Some(p)) && At(img, p)
    ensures Get(img, p).status == PreWrite
  {
    assert img[p.s].recs[p.i] == Get(img, p);
  }

  /** A start on such a flash, with the tables as the handle has them. When it comes to its end the store is in order
      and holds the map, less what a resumed collection found no room for; or the scan came to the unfinished record
      before the marked one, and the key of the marked one is missing. It comes to its end unless it is stuck. */
  method StartUp(cap: int, img: seq<Sector>, kvFound: seq<Entry>, found: seq<Found>, rounds: nat,
        ghost m: map<Name, Value>, ghost at: map<Name, Loc>, ghost l: Option<Loc>, ghost p: Option<Loc>)
    returns (db: Db, done: bool, ghost l': Option<Loc>, ghost d: nat, ghost lost: set<Name>)
    requires HoldsFor(cap, img, m, at, l, p) && |kvFound| <= MAX_ACTIVE
    ensures fresh(db) && db.cap == cap && |db.secs| == |img| && SameMarked(img, db.secs, l, l')
    ensures LostFirst(cap, img, at.Keys, StartOf(found, img), if Resumes(img) then 1 else 0, d, lost)
    ensures done && l' == None ==> db.Ready() && db.Contents() == m - lost && (lost == {} ==> db.Valid())
    ensures done && l'.Some? ==>
              && l' == l && p.Some? && db.at == at && Index(db.secs, at) && HoldsFor(cap, db.secs, m, at, l, None)
              && db.secs[l.value.s].dirty != Clean && Empties(db.secs) > 0
              && db.Contents() == if Get(img, l.value).name in at then m else m - {Get(img, l.value).name}
    ensures rounds > 0 && !Resumes(img) ==> (done && l'.Some? <==> !InOrder(img, StartOf(found, img), l, p))
    ensures Resumes(img) ==> !(done && l'.Some?)
    ensures !done && rounds > 1 ==> Stuck(cap, db.secs, l') && img[l.value.s].dirty == Clean
    ensures !Resumes(img) && Stuck(cap, img, l) ==> !done && db.secs == img
    ensures rounds > 0 && !Resumes(img) && (l.Some? ==> HasRoom(cap, img, l)) ==> done
  {
    hide SectorsOk, Index, MapOf, Cut, Empties, Distinct, Points, OneEach, Mirrors, LostFirst, Resumes, InOrder, Stuck,
         HasRoom, StartOf, Restored, SameMarked, Loadable, Restatus;
    LoadableParts(cap, img, at, l, p);
    db := new Db(cap, img, kvFound, found, at);
    done, l', d, lost := db.Load(l, p, rounds);
    if done && l'.Some? { SpoiledHolds(cap, img, m, at, l.value, p.value); }
  }

  /** The next start repairs what the first one left: two of them put every such flash in order, whatever the tables
      and the order of the records, unless the first one gets stuck. */
  method StartUpTwice(cap: int, img: seq<Sector>, kvFound: seq<Entry>, found: seq<Found>, kvFound': seq<Entry>,
        found': seq<Found>, rounds: nat,
        ghost m: map<Name, Value>, ghost at: map<Name, Loc>, ghost l: Option<Loc>, ghost p: Option<Loc>)
    returns (db: Db, done: bool, ghost l': Option<Loc>, ghost d: nat, ghost lost: set<Name>)
    requires HoldsFor(cap, img, m, at, l, p) && |kvFound| <= MAX_ACTIVE && |kvFound'| <= MAX_ACTIVE && rounds > 1
    ensures fresh(db) && db.cap == cap
    ensures LostFirst(cap, img, at.Keys, StartOf(found, img), if Resumes(img) then 1 else 0, d, lost)
    ensures done ==> db.Ready() && db.Contents() == m - lost && db.Valid()
    ensures !done ==> Stuck(cap, db.secs, l') && SameMarked(img, db.secs, l, l') && img[l.value.s].dirty == Clean
    ensures !Resumes(img) && Stuck(cap, img, l) ==> !done && db.secs == img
  {
    hide SectorsOk, Index, MapOf, Cut, Empties, Distinct, Points, OneEach, Mirrors, Resumes, LostFirst,
         HasRoom, StartOf, Restored, Loadable, Restatus;
    db, done, l', d, lost := StartUp(cap, img, kvFound, found, rounds, m, at, l, p);
    if done {
      var first := db.secs;
      ghost var at1, m1 := db.at, if l' == None then m - lost else m;
      if l' == None {
        ReadyHolds(cap, first, at1);
      } else {
        NoneLostWithoutResuming(cap, img, at.Keys, StartOf(found, img), d, lost, m);
      }
      var db2, _, _, d2, more := StartUp(cap, first, kvFound', found', rounds, m1, at1, l', None);
      NothingLost(cap, first, at1.Keys, StartOf(found', first), if Resumes(first) then 1 else 0, d2, more);
      LostTogether(m1, {}, {});
      db := db2;
    }
  }

  lemma ReadyHolds(cap: int, secs: seq<Sector>, at: map<Name, Loc>)
    requires |secs| >= 2 && SectorsOk(cap, secs) && Index(secs, at) && Tidy(secs) && Empties(secs) > 0
    ensures HoldsFor(cap, secs, MapOf(secs, at), at, None, None)
  {
    hide SectorsOk, Index, MapOf, Cut, Empties;
    TidyHolds(cap, secs, at);
    NoneRestores(secs, at);
  }

  lemma NoneLostWithoutResuming(cap: int, img: seq<Sector>, there: set<Name>, first: nat, d: nat, lost: set<Name>,
        m: map<Name, Value>)
    requires LostFirst(cap, img, there, first, if Resumes(img) then 1 else 0, d, lost)
    ensures !Resumes(img) ==> lost == {} && m - lost == m
  {
    hide Lost, Rooms, Empties, FirstDirty;
  }

  // ---------- a set that has been cut ----------

  /** The flash states of a replacing set; the last but one makes the new record count. */
  function Writes(base: seq<Sector>, at0: map<Name, Loc>, t: nat, key: Name, value: Value): seq<seq<Sector>>
    requires key in at0 && t < |base| && At(base, at0[key])
  {
    SetTrace(base, Some(at0[key]), t, key, value, NewParts())
  }

  /** The unfinished new record is there for the scan to see, and the scan sees it before the old one. */
  ghost predicate ComesFirst(img: seq<Sector>, start: nat, loc: Loc, p: Loc) {
    && Visible(img, p) && Get(img, p).status == PreWrite
    && start < |img| && loc.s < |img| && p.s < |img| && !Before(|img|, start, loc, p)
  }

  lemma FirstExactly(img: seq<Sector>, start: nat, l: Option<Loc>, p: Option<Loc>, loc: Loc, q: Loc)
    requires Cut(img, l, p) && Places(img, l, p) && start < |img| && (p.Some? ==> p == Some(q))
    requires l.Some? ==> l == Some(loc)
    requires l == None ==> p == None
    ensures InOrder(img, start, l, p) <==> !ComesFirst(img, start, loc, q)
  {
    hide Before;
    if At(img, q) { assert img[q.s].recs[q.i] == Get(img, q); }
  }

  /** What the j-th flash state of a replacing set holds: the old map, where the old record is only marked, or at the
      last two of them the new map. */
  lemma SetHoldsFor(cap: int, base: seq<Sector>, at0: map<Name, Loc>, m: map<Name, Value>, key: Name, value: Value,
        loc: Loc, t: nat, j: nat)
    returns (at: map<Name, Loc>, l: Option<Loc>, p: Option<Loc>)
    requires SetBase(cap, base, at0, m, key, value, t) && key in at0 && loc == at0[key] && At(base, loc) && t < |base|
    requires j < |Writes(base, at0, t, key, value)|
    ensures var n, img := |Writes(base, at0, t, key, value)|, Settled(Writes(base, at0, t, key, value)[j]);
            && |img| == |base| && HoldsFor(cap, img, if j + 2 < n then m else m[key := value], at, l, p)
            && Empties(img) > 0 && (l == None ==> p == None) && (p.Some? ==> p == Some(Loc(t, |base[t].recs|)))
            && (l.Some? ==> l == Some(loc) && Get(img, loc).name == key && Get(img, loc).value == m[key])
            && (j > 0 && l.Some? ==> img[loc.s].dirty != Clean)
            && (j == 0 ==> l == Some(loc) && p == None && img == Restatus(base, loc, PreDelete))
            && (if j + 2 < n then at == at0 - {key} else p == None)
  {
    hide SectorsOk, MapOf, Empties, Cut, Size, Restored, Loadable, Settled, WriteTrace, DelTrace, Fits;
    CandidateFits(cap, base, false, t, REC_HDR + |key| + |value|);
    IndexedIsLive(base, at0, key);
    ValueOf(base, at0, key);
    TraceParts(base, loc, t, key, value, NewParts(), 0);
    at, l, p := CutImage(cap, base, at0, loc, value, t, NewParts(), j);
  }

  lemma ValueOf(secs: seq<Sector>, at: map<Name, Loc>, key: Name)
    requires Index(secs, at) && key in at
    ensures MapOf(secs, at)[key] == Get(secs, at[key]).value
  {
  }

  /** A start after the j-th flash write of a replacing set, from any sector in use before and with any tables. The key
      has its old value as long as the new record does not count and its new value from then on, and every other key is
      as before, exactly unless no collection is resumed and the scan comes to the unfinished record first: then the key
      is missing. If the start does not come to an end, power has gone behind the very first write, so that the sector
      of the old record is not marked yet; then, if all sectors are clean, it does not exactly when there is no room for
      the old record. */
  method CutAndRestart(cap: int, kvFound: seq<Entry>, found: seq<Found>, rounds: nat,
                       base: seq<Sector>, ghost at0: map<Name, Loc>, ghost m: map<Name, Value>,
                       key: Name, value: Value, ghost loc: Loc, t: nat, img: seq<Sector>, ghost j: nat)
    returns (db: Db, done: bool)
    requires SetBase(cap, base, at0, m, key, value, t) && key in at0 && loc == at0[key] && At(base, loc) && t < |base|
    requires j < |Writes(base, at0, t, key, value)| && img == Settled(Writes(base, at0, t, key, value)[j])
    requires |kvFound| <= MAX_ACTIVE && rounds > 1
    ensures fresh(db) && |img| == |base| && db.cap == cap
    ensures var m' := if j + 2 < |Writes(base, at0, t, key, value)| then m else m[key := value];
            var first := !Resumes(img) && ComesFirst(img, StartOf(found, img), loc, Loc(t, |base[t].recs|));
            && (done && !first ==> db.Valid() && db.Contents() == m')
            && (done && first ==> Index(db.secs, db.at) && db.Contents() == m - {key} && m' == m)
            && (done ==> (db.Contents() == m' <==> !first)) && (first ==> done)
    ensures !done ==> j == 0 && base[loc.s].dirty == Clean && Stuck(cap, db.secs, Some(loc))
    ensures AllClean(base) && j == 0 ==> (done <==> HasRoom(cap, img, Some(loc)))
  {
    hide SetBase, Writes, Settled, HoldsFor, SectorsOk, Index, MapOf, Empties, Cut, Tidy, Distinct, Points, OneEach,
         Mirrors, StartOf, Resumes, InOrder, LostFirst, HasRoom, Restatus;
    ghost var at, l, p := SetHoldsFor(cap, base, at0, m, key, value, loc, t, j);
    ghost var m' := if j + 2 < |Writes(base, at0, t, key, value)| then m else m[key := value];
    ghost var l', d, lost;
    db, done, l', d, lost := StartUp(cap, img, kvFound, found, rounds, m', at, l, p);
    NothingLost(cap, img, at.Keys, StartOf(found, img), if Resumes(img) then 1 else 0, d, lost);
    LostTogether(m', {}, {});
    CutStarts(cap, img, m', at, l, p, found, loc, Loc(t, |base[t].recs|));
    KeyIsThere(cap, base, at0, m, key, value, t);
    if j == 0 { OnlyMarked(cap, base, img, loc); }
  }

  lemma KeyIsThere(cap: int, base: seq<Sector>, at0: map<Name, Loc>, m: map<Name, Value>, key: Name, value: Value,
        t: nat)
    requires SetBase(cap, base, at0, m, key, value, t) && key in at0
    ensures key in m && m - {key} != m
  {
    hide SectorsOk, Index, Empties, Cut, Candidate;
    assert key !in m - {key};
  }

  /** Behind the first write no sector has another mark than before. */
  lemma OnlyMarked(cap: int, base: seq<Sector>, img: seq<Sector>, loc: Loc)
    requires At(base, loc) && img == Restatus(base, loc, PreDelete)
    ensures img[loc.s].dirty == base[loc.s].dirty
    ensures AllClean(base) ==> AllClean(img) && !Resumes(img)
    ensures AllClean(base) ==> (Stuck(cap, img, Some(loc)) <==> !HasRoom(cap, img, Some(loc)))
  {
    hide HasRoom, Empties;
    assert forall s | 0 <= s < |img| :: img[s].dirty == base[s].dirty;
  }

  lemma CutStarts(cap: int, img: seq<Sector>, m: map<Name, Value>, at: map<Name, Loc>, l: Option<Loc>, p: Option<Loc>,
        found: seq<Found>, loc: Loc, q: Loc)
    requires HoldsFor(cap, img, m, at, l, p) && (l == None ==> p == None)
    requires (l.Some? ==> l == Some(loc)) && (p.Some? ==> p == Some(q))
    ensures InOrder(img, StartOf(found, img), l, p) <==> !ComesFirst(img, StartOf(found, img), loc, q)
  {
    hide Cut, SectorsOk, Index, MapOf, Empties, StartOf, InOrder, ComesFirst, Before;
    FirstExactly(img, StartOf(found, img), l, p, loc, q);
  }

  // ---------- where the scan starts ----------

  /** A handle that has never been used starts at sector 0, so that the key is missing exactly if the new record is in
      an earlier sector than the old one. */
  lemma ColdOrder(img: seq<Sector>, found: seq<Found>, loc: Loc, p: Loc)
    requires At(img, loc) && Visible(img, p) && Get(img, p).status == PreWrite && (p.s == loc.s ==> loc.i < p.i)
    requires found != [] && forall f | f in found :: f == Zeroed
    ensures ComesFirst(img, StartOf(found, img), loc, p) <==> p.s < loc.s
  {
    ColdStart(found, img);
  }

  /** A long value that had to go into sector 1, and a short one to replace it that fits into sector 0: cut behind the
      header of the new record, the scan of the restart comes to that record first. */
  lemma ShorterValueComesFirst(base: seq<Sector>, at0: map<Name, Loc>, b: Name, k: Name, rb: Record, rk: Record,
        value: Value, found: seq<Found>)
    requires b == [2] && k == [1] && value == [7]
    requires rb.status == Written && rb.name == b && |rb.value| == 700 && rb.part == Whole
    requires rk.status == Written && rk.name == k && |rk.value| == 200 && rk.part == Whole
    requires base == [Sector(Using, Clean, [rb]), Sector(Using, Clean, [rk]), FRESH]
    requires at0 == map[b := Loc(0, 0), k := Loc(1, 0)] && (forall f | f in found :: f == Zeroed)
    ensures At(base, at0[k]) && Index(base, at0) && SetBase(1000, base, at0, MapOf(base, at0), k, value, 0)
    ensures 3 < |Writes(base, at0, 0, k, value)|
    ensures var img := Settled(Writes(base, at0, 0, k, value)[3]);
            !Resumes(img) && ComesFirst(img, StartOf(found, img), Loc(1, 0), Loc(0, 1))
  {
    hide SetBase, WriteTrace, Index, MapOf, Size, StartOf, DelTrace, Restatus;
    OneBesideTwo(base, at0, b, k, rb, rk, value, 1, 2);
    HeaderWritten(base, k, value, Loc(1, 0), rb);
    var img := Settled(Writes(base, at0, 0, k, value)[3]);
    if found != [] { ColdStart(found, img); } else { EmptyTable(img); }
    OldestIsFirst(img);
  }

  /** The same in sectors 0 and 2 with the empty sector between them, as a collection of sector 1 leaves it. What the
      flash says is oldest is sector 2, so that the scan would come to the old record first; but a handle that has never
      been used starts at sector 0, and the key is missing. */
  lemma ColdStartComesFirst(base: seq<Sector>, at0: map<Name, Loc>, b: Name, k: Name, rb: Record, rk: Record,
        value: Value, found: seq<Found>)
    requires b == [2] && k == [1] && value == [7]
    requires rb.status == Written && rb.name == b && |rb.value| == 700 && rb.part == Whole
    requires rk.status == Written && rk.name == k && |rk.value| == 200 && rk.part == Whole
    requires base == [Sector(Using, Clean, [rb]), FRESH, Sector(Using, Clean, [rk])]
    requires at0 == map[b := Loc(0, 0), k := Loc(2, 0)] && found != [] && (forall f | f in found :: f == Zeroed)
    ensures At(base, at0[k]) && Index(base, at0) && SetBase(1000, base, at0, MapOf(base, at0), k, value, 0)
    ensures 3 < |Writes(base, at0, 0, k, value)|
    ensures var img := Settled(Writes(base, at0, 0, k, value)[3]);
            && !Resumes(img) && OldestOf(img, 3) == 2 && !ComesFirst(img, 2, Loc(2, 0), Loc(0, 1))
            && StartOf(found, img) == 0 && ComesFirst(img, 0, Loc(2, 0), Loc(0, 1))
  {
    hide SetBase, WriteTrace, Index, MapOf, Size, StartOf, DelTrace, Restatus;
    OneBesideTwo(base, at0, b, k, rb, rk, value, 2, 1);
    HeaderWritten(base, k, value, Loc(2, 0), rb);
    var img := Settled(Writes(base, at0, 0, k, value)[3]);
    ColdStart(found, img);
    assert OldestOf(img, 3) == 2;
  }

  lemma EmptyTable(img: seq<Sector>)
    ensures StartOf([], img) == OldestOf(img, |img|)
  {
    assert Seen([], img) == img;
  }

  lemma OldestIsFirst(img: seq<Sector>)
    requires |img| == 3 && img[0].store == Using && img[1].store == Using && img[2].store == Empty
    ensures OldestOf(img, 3) == 0
  {
    assert OldestOf(img, 1) == 0 && OldestOf(img, 2) == 0;
  }

  /** Behind the header of the new record, the fourth write. */
  lemma HeaderWritten(base: seq<Sector>, key: Name, value: Value, loc: Loc, rb: Record)
    requires |base| == 3 && base[0] == Sector(Using, Clean, [rb]) && rb.part == Whole && 0 < loc.s < 3 && At(base, loc)
    requires base[loc.s] == Sector(Using, Clean, [Get(base, loc)]) && Get(base, loc).part == Whole
    requires forall s | 0 < s < 3 && s != loc.s :: base[s] == FRESH
    ensures var trace := SetTrace(base, Some(loc), 0, key, value, NewParts());
            && |trace| > 3 && var img := Settled(trace[3]);
               && |img| == 3 && img[0] == Sector(Using, Clean, [rb, Record(PreWrite, key, value, HeaderToo)])
               && img[loc.s].dirty == Dirtied && img[loc.s].store == Using
               && forall s | 0 < s < 3 && s != loc.s :: img[s] == FRESH
  {
    var trace := SetTrace(base, Some(loc), 0, key, value, NewParts());
    var d := Killed(base, loc, PreDelete);
    assert |DelTrace(base, loc, PreDelete)| == 2 && d[0] == base[0];
    assert trace[3] == WriteTrace(d, 0, key, value, NewParts())[1];
    assert trace[3] == Append(d, 0, Record(PreWrite, key, value, HeaderToo));
    assert [rb] + [Record(PreWrite, key, value, HeaderToo)] == [rb, Record(PreWrite, key, value, HeaderToo)];
  }

  lemma OneBesideTwo(base: seq<Sector>, at0: map<Name, Loc>, b: Name, k: Name, rb: Record, rk: Record, value: Value,
        s: nat, e: nat)
    requires b == [2] && k == [1] && value == [7] && 0 < s < 3 && 0 < e < 3 && s != e
    requires rb.status == Written && rb.name == b && |rb.value| == 700 && rb.part == Whole
    requires rk.status == Written && rk.name == k && |rk.value| == 200 && rk.part == Whole
    requires |base| == 3 && base[0] == Sector(Using, Clean, [rb]) && base[s] == Sector(Using, Clean, [rk])
    requires base[e] == FRESH
    requires at0 == map[b := Loc(0, 0), k := Loc(s, 0)]
    ensures At(base, at0[k]) && Index(base, at0) && SetBase(1000, base, at0, MapOf(base, at0), k, value, 0)
  {
    hide Size, Empties;
    SizeOfOne(rb);
    SizeOfOne(rk);
    EmptyCounts(base, e);
  }

  lemma SizeOfOne(r: Record)
    ensures Size([r]) == Len(r)
  {
    assert [r][..0] == [];
  }

  // ---------- no end to it ----------

  /** A long value in the only sector in use, to be replaced by a short one: when power goes behind the first write the
      start looks for room for the long one, and there is none and never will be. */
  lemma LongValueIsStuck(base: seq<Sector>, at0: map<Name, Loc>, k: Name, rk: Record, value: Value)
    requires k == [1] && value == [7]
    requires rk.status == Written && rk.name == k && |rk.value| == 700 && rk.part == Whole
    requires base == [Sector(Using, Clean, [rk]), FRESH] && at0 == map[k := Loc(0, 0)]
    ensures At(base, at0[k]) && Index(base, at0) && SetBase(1000, base, at0, MapOf(base, at0), k, value, 0)
    ensures 0 < |Writes(base, at0, 0, k, value)| && AllClean(base)
    ensures !HasRoom(1000, Settled(Writes(base, at0, 0, k, value)[0]), Some(Loc(0, 0)))
  {
    hide Size, Empties, WriteTrace, Settled;
    SizeOfOne(rk);
    EmptiesOfTwo(base);
    var img := Restatus(base, Loc(0, 0), PreDelete);
    TraceParts(base, Loc(0, 0), 0, k, value, NewParts(), 0);
    assert img[0].recs == [rk.(status := PreDelete)] && img[1] == FRESH;
    SizeOfOne(rk.(status := PreDelete));
    EmptiesOfTwo(img);
    MarkedSettles(img);
  }

  lemma MarkedSettles(img: seq<Sector>)
    requires |img| == 2 && img[0].recs != [] && img[0].recs[0].part == Whole && img[1] == FRESH
    ensures Settled(img) == img
  {
  }

  // ---------- collections ----------

  /** A store that is used after one restart may still have its old record marked. A collection copies it as a live one:
      as long as the key has not been set anew that brings its old value back, and if it has been, the key then has two
      live records, so that the sectors stand for no map. */
  lemma CollectingTheMarked(secs: seq<Sector>, at: map<Name, Loc>, l: Loc, t: nat, at': map<Name, Loc>)
    requires Index(secs, at) && At(secs, l) && Get(secs, l).status == PreDelete && t < |secs|
    ensures var r := Get(secs, l);
            if r.name !in at
            then var now := at[r.name := Loc(t, |secs[t].recs|)];
                 Index(Moved(secs, l, t), now) && MapOf(Moved(secs, l, t), now) == MapOf(secs, at)[r.name := r.value]
            else !Index(Moved(secs, l, t), at')
  {
    hide MapOf;
    var r := Get(secs, l);
    var w := Append(secs, t, r.(status := Written));
    AppendFacts(secs, t, r.(status := Written), l);
    if r.name !in at {
      AppendIndexes(secs, at, t, r.(status := Written));
      KilledIndexes(w, at[r.name := Loc(t, |secs[t].recs|)], l, Deleted);
    } else {
      var moved, old', new' := Moved(secs, l, t), at[r.name], Loc(t, |secs[t].recs|);
      assert moved[old'.s].recs[old'.i] == Get(secs, old') && moved[new'.s].recs[new'.i].status == Written;
      assert moved[new'.s].recs[new'.i].name == r.name && old' != new';
    }
  }

  /** Whatever write of whatever operation was the last one: two starts on a flash that holds a map make a store of that
      map again, less what a resumed collection has no room for, unless they get stuck. Only without an empty sector can
      anything be lost, and then it is what first-fit packing leaves over of the first dirty sector. */
  method RestartAfterCut(cap: int, ghost flash: seq<Sector>, img: seq<Sector>, kvFound: seq<Entry>, found: seq<Found>,
        kvFound': seq<Entry>, found': seq<Found>, rounds: nat, ghost m: map<Name, Value>)
    returns (db: Db, done: bool, ghost at: map<Name, Loc>, ghost l: Option<Loc>, ghost p: Option<Loc>, ghost d: nat,
             ghost lost: set<Name>)
    requires StandsFor(cap, flash, m) && img == Settled(flash)
    requires |kvFound| <= MAX_ACTIVE && |kvFound'| <= MAX_ACTIVE && rounds > 1
    ensures fresh(db) && HoldsFor(cap, img, m, at, l, p)
    ensures done ==> db.Valid() && db.Contents() == m - lost
    ensures if Empties(img) > 0 then lost == {}
            else FirstDirty(img, StartOf(found, img), d)
                 && lost == Lost(Rooms(cap, img, StartOf(found, img)), img[d].recs, at.Keys)
    ensures !done ==> l.Some? && At(img, l.value) && img[l.value.s].dirty == Clean
    ensures !Resumes(img) && Stuck(cap, img, l) ==> !done
  {
    hide SectorsOk, Index, MapOf, Cut, Empties, Distinct, Points, OneEach, Mirrors, StartOf, Restored, Lost, Rooms,
         FirstDirty, HasRoom, AllClean, Settled, SomeCollecting;
    ghost var at0, l0, p0 :| Loadable(cap, Settled(flash), at0, l0, p0) && Restored(Settled(flash), at0, l0) == m;
    at, l, p := at0, l0, p0;
    ghost var l';
    db, done, l', d, lost := StartUpTwice(cap, img, kvFound, found, kvFound', found', rounds, m, at, l, p);
  }

  /** A run that loses power somewhere: after two starts the store holds the map after some of its operations, less what
      has been lost. */
  method RestartOfRun(cap: int, ghost flash: seq<Sector>, img: seq<Sector>, kvFound: seq<Entry>, found: seq<Found>,
        kvFound': seq<Entry>, found': seq<Found>, rounds: nat,
        ghost m0: map<Name, Value>, ghost ops: seq<Op>, ghost rs: seq<Result>)
    returns (db: Db, done: bool, ghost n: nat, ghost lost: set<Name>)
    requires |ops| == |rs| && HoldsSome(cap, flash, m0, ops, rs) && img == Settled(flash)
    requires |kvFound| <= MAX_ACTIVE && |kvFound'| <= MAX_ACTIVE && rounds > 1
    ensures n <= |ops| && (Empties(img) > 0 ==> lost == {})
    ensures done ==> db.Valid() && db.Contents() == ApplyAll(m0, ops[..n], rs[..n]) - lost
  {
    hide StandsFor, ApplyAll, Index, MapOf, Empties, Settled, StartOf, Lost, Rooms, FirstDirty, HoldsFor, Stuck,
         Resumes;
    n :| 0 <= n <= |ops| && StandsFor(cap, flash, ApplyAll(m0, ops[..n], rs[..n]));
    ghost var m := ApplyAll(m0, ops[..n], rs[..n]);
    var store, ok, _, _, _, _, gone := RestartAfterCut(cap, flash, img, kvFound, found, kvFound', found', rounds, m);
    db, done, lost := store, ok, gone;
  }

  // ---------- a copy that has been cut ----------

  /** A sector with one record is being collected into the only other one: the flash states while it is moved. */
  function CopyWrites(k: Name, v: Value): seq<seq<Sector>> {
    MoveTrace([Sector(Using, Collecting, [Record(Written, k, v, Whole)]), FRESH], Loc(0, 0), 1)
  }

  /** What the copy takes of the spare sector when power goes behind the j-th write, as long as it does not count. */
  function CopyTaken(k: Name, v: Value, j: nat): nat {
    if j == 0 then 0 else if j <= 2 then REC_HDR else REC_HDR + |k| + |v|
  }

  /** The copy does not count yet, and there is no room for another one. */
  predicate CopyIsLost(cap: int, k: Name, v: Value, j: nat) {
    j + 2 < |CopyWrites(k, v)| && CopyTaken(k, v, j) + REC_HDR + |k| + |v| + THRESHOLD >= cap
  }

  lemma CopyImage(k: Name, v: Value, j: nat) returns (e: Record)
    requires j < |CopyWrites(k, v)|
    ensures var n := |CopyWrites(k, v)|;
            var img := Settled(CopyWrites(k, v)[j]);
            var old' := Record(if j + 1 < n then PreDelete else Deleted, k, v, Whole);
            && n >= 5 && |img| == 2 && img[0] == Sector(Using, Collecting, [old'])
            && img[1] == (if j == 0 then FRESH else Sector(Using, Clean, [e]))
            && if j + 2 < n
               then (e.status == PreWrite || e.status == ErrHdr) && (j > 0 ==> Len(e) == CopyTaken(k, v, j))
               else e == Record(Written, k, v, Whole)
  {
    var r, l := Record(Written, k, v, Whole), Loc(0, 0);
    var base, parts := [Sector(Using, Collecting, [r]), FRESH], CopyParts(MAGIC_OFFSET, Len(r));
    var d := Killed(base, l, PreDelete);
    CopyPartsCount(MAGIC_OFFSET, Len(r));
    TraceParts(base, l, 1, k, v, parts, j);
    WriteTraceLength(d, 1, k, v, parts);
    assert [r][0 := r.(status := PreDelete)] == [r.(status := PreDelete)];
    assert |d| == 2 && d[0] == Sector(Using, Collecting, [r.(status := PreDelete)]) && d[1] == FRESH;
    e := HOLE;
    if 2 <= j < |parts| + 4 {
      e := Record(if j == |parts| + 3 then Written else PreWrite, k, v,
                  if j == 2 then StatusOnly else if j == |parts| + 3 then Whole else parts[j - 3]);
      assert WriteTrace(d, 1, k, v, parts)[j - 1] == Append(d, 1, e);
      if j == 2 { e := e.(status := ErrHdr, part := Reserved); }
    } else if j == |parts| + 4 {
      e := r;
    }
  }

  lemma CopyBase(cap: int, k: Name, v: Value)
    requires |k| < NAME_MAX && REC_HDR + |k| + |v| + THRESHOLD < cap
    ensures var base := [Sector(Using, Collecting, [Record(Written, k, v, Whole)]), FRESH];
            && Replaceable(cap, base, map[k := Loc(0, 0)], Loc(0, 0), v, 1)
            && MapOf(base, map[k := Loc(0, 0)]) == map[k := v]
  {
    hide Size, Empties;
    SizeOfOne(Record(Written, k, v, Whole));
    SizeOfNone();
  }

  lemma SizeOfNone()
    ensures Size([]) == 0
  {
  }

  lemma CopyHolds(cap: int, k: Name, v: Value, j: nat)
    returns (at: map<Name, Loc>, l: Option<Loc>, p: Option<Loc>)
    requires |k| < NAME_MAX && REC_HDR + |k| + |v| + THRESHOLD < cap && j < |CopyWrites(k, v)|
    ensures HoldsFor(cap, Settled(CopyWrites(k, v)[j]), map[k := v], at, l, p)
    ensures l.Some? ==> l == Some(Loc(0, 0))
  {
    hide Replaceable, MapOf, SetTrace, Loadable, Settled, Restored;
    var base, at0 := [Sector(Using, Collecting, [Record(Written, k, v, Whole)]), FRESH], map[k := Loc(0, 0)];
    var n := REC_HDR + |k| + |v|;
    CopyBase(cap, k, v);
    CopyPartsCount(MAGIC_OFFSET, n);
    at, l, p := CutImage(cap, base, at0, Loc(0, 0), v, 1, CopyParts(MAGIC_OFFSET, n), j);
    assert map[k := v][k := v] == map[k := v];
  }

  /** Two sectors, the first of which is being collected. */
  lemma CopyResumes(img: seq<Sector>, start: nat)
    requires |img| == 2 && img[0].dirty == Collecting && img[0].store == Using && start < 2
    ensures Resumes(img) && Empties(img) == (if img[1].store == Empty then 1 else 0)
    ensures img[1].dirty == Clean ==> forall d | FirstDirty(img, start, d) :: d == 0
  {
    EmptiesOfTwo(img);
  }

  /** The restart finds room for another copy beside what the first one takes, or the record is lost. */
  lemma CopyLost(cap: int, k: Name, v: Value, j: nat, img: seq<Sector>, e: Record, at: map<Name, Loc>, start: nat,
        d: nat)
    requires |k| < NAME_MAX && j < |CopyWrites(k, v)| && |img| == 2 && start < 2 && Index(img, at)
    requires var st := if j + 1 < |CopyWrites(k, v)| then PreDelete else Deleted;
             img[0] == Sector(Using, Collecting, [Record(st, k, v, Whole)])
    requires img[1] == Sector(Using, Clean, [e]) && 0 < j && FirstDirty(img, start, d)
    requires if j + 2 < |CopyWrites(k, v)|
             then (e.status == PreWrite || e.status == ErrHdr) && Len(e) == CopyTaken(k, v, j)
             else e == Record(Written, k, v, Whole)
    ensures Lost(Rooms(cap, img, start), img[d].recs, at.Keys) ==
            if CopyIsLost(cap, k, v, j) then {k} else {}
  {
    hide CopyWrites, CopyTaken, Rooms, Lost;
    assert d == 0;
    SizeOfOne(e);
    var r := img[0].recs[0];
    if j + 2 < |CopyWrites(k, v)| {
      IndexedIsLive(img, at, k);
      assert forall x | Live(img, x) :: false;
      OneLeftIsLostExactly(cap, img, start, 0, at.Keys, 0);
      assert Usable(cap, img, true, 1, Len(r)) <==> CopyTaken(k, v, j) + Len(r) + THRESHOLD < cap;
    } else {
      assert img[1].recs[0].status == Written && k in at.Keys;
      NoneNeedy(Rooms(cap, img, start), img[0].recs, at.Keys);
    }
  }

  /** Power goes behind the j-th write of the move, and the collection is resumed at the next start. The key is kept if
      and only if the copy counts already, or has not been begun, or the record fits beside what has been taken for it:
      the place of a header up to the status byte, and the whole of its length from the first piece on. */
  method CutCopyAndRestart(cap: int, k: Name, v: Value, img: seq<Sector>, kvFound: seq<Entry>, found: seq<Found>,
        rounds: nat, ghost j: nat)
    returns (db: Db, done: bool)
    requires |k| < NAME_MAX && REC_HDR + |k| + |v| + THRESHOLD < cap && |kvFound| <= MAX_ACTIVE && rounds > 1
    requires j < |CopyWrites(k, v)| && img == Settled(CopyWrites(k, v)[j])
    ensures done && Index(db.secs, db.at)
    ensures db.Contents() ==
            if CopyIsLost(cap, k, v, j) then map[] else map[k := v]
  {
    hide CopyWrites, HoldsFor, SectorsOk, Index, MapOf, Cut, Distinct, Points, OneEach, Mirrors, StartOf, InOrder,
         AllClean, HasRoom, Empties, Lost, Rooms, Settled, FirstDirty;
    ghost var e := CopyImage(k, v, j);
    ghost var at, l, p := CopyHolds(cap, k, v, j);
    ghost var l', d, lost;
    CopyResumes(img, StartOf(found, img));
    CopyMap(cap, img, map[k := v], at, l, p);
    db, done, l', d, lost := StartUp(cap, img, kvFound, found, rounds, map[k := v], at, l, p);
    if j > 0 { CopyLost(cap, k, v, j, img, e, at, StartOf(found, img), d); }
    LostTogether(map[k := v], {}, {});
    assert map[k := v] - {k} == map[];
  }

  lemma CopyMap(cap: int, img: seq<Sector>, m: map<Name, Value>, at: map<Name, Loc>, l: Option<Loc>, p: Option<Loc>)
    requires HoldsFor(cap, img, m, at, l, p)
    ensures Index(img, at)
  {
  }

  /** Of two records the first has been moved and the copy of the second cut. By itself it may fit twice and is lost all
      the same when the first one, the cut copy and another one do not go together. */
  lemma SecondOfTwoIsLostExactly(cap: int, img: seq<Sector>, start: nat, r1: Record, r2: Record, e: Record)
    requires r1.status == Written && r2.status == PreDelete && r1.name != r2.name && start < 2
    requires img == [Sector(Using, Collecting, [r1.(status := Deleted), r2]), Sector(Using, Clean, [r1, e])]
    ensures Lost(Rooms(cap, img, start), img[0].recs, {r1.name}) ==
            if Len(r1) + Len(e) + Len(r2) + THRESHOLD < cap then {} else {r2.name}
  {
    hide Rooms, Lost, Len;
    var there := {r1.name};
    SizeOfOne(r1);
    assert [r1, e] == [r1] + [e];
    SizeOfAppend([r1], e);
    assert Needy(img[0].recs[1], there) && !Needy(img[0].recs[0], there);
    OneLeftIsLostExactly(cap, img, start, 0, there, 1);
    assert Usable(cap, img, true, 1, Len(r2)) <==> Len(r1) + Len(e) + Len(r2) + THRESHOLD < cap;
  }
}
