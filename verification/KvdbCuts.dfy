/** The flash states that a power cut can leave, and what they stand for. */
module KvdbCuts {
  import opened KvdbStore
  import opened KvdbSteps

  // ---------- the first read ----------

  // The first place of a sector in use, as a scan leaves it when it finds nothing there.
  const HOLE := Record(ErrHdr, [], [], Reserved)

  /** The first read of a sector in use marks its first place as bad when no length has been written to it, and keeps
      the place of a header free there. */
  function SettledSector(sec: Sector): Sector {
    if sec.store == Using && sec.recs == [] then sec.(recs := [HOLE])
    else if sec.store == Using && sec.recs[0].part == StatusOnly
    then sec.(recs := sec.recs[0 := sec.recs[0].(status := ErrHdr, part := Reserved)])
    else sec
  }

  function Settled(secs: seq<Sector>): (r: seq<Sector>)
    ensures |r| == |secs|
  {
    seq(|secs|, s requires 0 <= s < |secs| => SettledSector(secs[s]))
  }

  lemma SettledStays(cap: int, secs: seq<Sector>)
    requires SectorsOk(cap, secs)
    ensures Settled(secs) == secs
  {
    forall s | 0 <= s < |secs| ensures SettledSector(secs[s]) == secs[s] {
      assert SectorOk(cap, secs[s]);
    }
  }

  // ---------- what a start can find ----------

  ghost predicate SomeCollecting(secs: seq<Sector>) {
    exists s :: 0 <= s < |secs| && secs[s].dirty == Collecting
  }

  ghost predicate Places(secs: seq<Sector>, l: Option<Loc>, p: Option<Loc>) {
    (l.Some? ==> At(secs, l.value)) && (p.Some? ==> At(secs, p.value))
  }

  /** The record that replaces the marked one, if it counts already, is in a sector that a collection leaves alone. */
  ghost predicate NewerIsClean(secs: seq<Sector>, at: map<Name, Loc>, l: Option<Loc>) {
    l.Some? && At(secs, l.value) && Get(secs, l.value).name in at ==>
      var s := at[Get(secs, l.value).name].s; s < |secs| && secs[s].dirty == Clean
  }

  /** A flash that a start can put in order: at most one record is only marked, and at most one unfinished, and then the
      sector of the first is marked, too; and without an empty sector a collection has been cut. */
  ghost predicate Loadable(cap: int, img: seq<Sector>, at: map<Name, Loc>, l: Option<Loc>, p: Option<Loc>) {
    && |img| >= 2 && SectorsOk(cap, img) && Index(img, at) && Cut(img, l, p) && Places(img, l, p)
    && (l.Some? && p.Some? ==> img[l.value.s].dirty != Clean)
    && (Empties(img) == 0 ==> SomeCollecting(img) && NewerIsClean(img, at, l))
  }

  /** A start goes on with a collection that has been cut, unless several sectors are empty. */
  ghost predicate Resumes(secs: seq<Sector>) {
    SomeCollecting(secs) && Empties(secs) <= 1
  }

  /** The flash, once settled, stands for the map m, where a record that is only marked counts. */
  ghost predicate StandsFor(cap: int, flash: seq<Sector>, m: map<Name, Value>) {
    exists at, l, p :: Loadable(cap, Settled(flash), at, l, p) && Restored(Settled(flash), at, l) == m
  }

  lemma HoldsItself(cap: int, img: seq<Sector>, at: map<Name, Loc>, l: Option<Loc>, p: Option<Loc>)
    requires Loadable(cap, img, at, l, p)
    ensures StandsFor(cap, img, Restored(img, at, l))
  {
    hide SectorsOk, Index, Cut, Empties, Settled;
    SettledStays(cap, img);
  }

  /** A flash in order. */
  lemma TidyHolds(cap: int, secs: seq<Sector>, at: map<Name, Loc>)
    requires |secs| >= 2 && SectorsOk(cap, secs) && Index(secs, at) && Tidy(secs)
    requires Empties(secs) > 0 || SomeCollecting(secs)
    ensures Loadable(cap, secs, at, None, None) && StandsFor(cap, secs, MapOf(secs, at))
  {
    hide SectorsOk, Index, Cut, Empties;
    HoldsItself(cap, secs, at, None, None);
  }

  // ---------- a record being written ----------

  /** Every flash state while a record is being written shows, once settled, the sectors with one more record, which
      counts only at the end. */
  lemma WriteImage(cap: int, d: seq<Sector>, t: nat, key: Name, value: Value, parts: seq<Part>, i: nat)
    returns (e: Record)
    requires t < |d| && SectorsOk(cap, d) && i < |WriteTrace(d, t, key, value, parts)|
    requires forall j | 0 <= j < |parts| :: parts[j] != StatusOnly && parts[j] != Reserved
    ensures Settled(WriteTrace(d, t, key, value, parts)[i]) == Append(d, t, e)
    ensures d[t].recs == [] ==> e.part != StatusOnly
    ensures if i == |WriteTrace(d, t, key, value, parts)| - 1 then e == Record(Written, key, value, Whole)
            else (e.status == PreWrite || e.status == ErrHdr) && Len(e) <= REC_HDR + |key| + |value|
  {
    assert SectorOk(cap, d[t]);
    SettledStays(cap, d);
    var skip := if d[t].store == Empty then 1 else 0;
    var img := WriteTrace(d, t, key, value, parts)[i];
    if i < skip {
      e := HOLE;
      assert img == d[t := d[t].(store := Using)];
    } else {
      var n := |parts|;
      var r := Record(if i == skip + 1 + n then Written else PreWrite, key, value,
                      if i == skip then StatusOnly else if i == skip + 1 + n then Whole else parts[i - skip - 1]);
      e := if i == skip && d[t].recs == [] then r.(status := ErrHdr, part := Reserved) else r;
      assert img == Append(d, t, r);
    }
    assert Settled(img)[t].recs == d[t].recs + [e];
    assert forall s | 0 <= s < |d| && s != t :: Settled(img)[s] == Settled(d)[s];
    assert Settled(img) == Append(d, t, e);
  }

  lemma WriteTraceLength(d: seq<Sector>, t: nat, key: Name, value: Value, parts: seq<Part>)
    requires t < |d|
    ensures |WriteTrace(d, t, key, value, parts)| == |parts| + if d[t].store == Empty then 3 else 2
  {
  }

  lemma {:induction false} CopyPartsCount(done: nat, n: nat)
    ensures forall j | 0 <= j < |CopyParts(done, n)| :: CopyParts(done, n)[j] != StatusOnly
                                                        && CopyParts(done, n)[j] != Reserved
    decreases n - done
  {
    if done + PIECE < n { CopyPartsCount(done + PIECE, n); }
  }

  // ---------- a record being replaced ----------

  /** A record that is about to be replaced: there is room for the new one, and afterwards either a sector is empty or
      the old one's is being collected and the new one's is not. */
  ghost predicate Replaceable(cap: int, secs: seq<Sector>, at: map<Name, Loc>, loc: Loc, value: Value, t: nat) {
    && |secs| >= 2 && SectorsOk(cap, secs) && Index(secs, at) && Tidy(secs) && Live(secs, loc) && t < |secs|
    && Fits(cap, secs[t], REC_HDR + |Get(secs, loc).name| + |value|)
    && (Empties(secs) > (if secs[t].store == Empty then 1 else 0)
        || (secs[loc.s].dirty == Collecting && secs[t].dirty == Clean))
  }

  /** The first states: the old record is marked, and then perhaps its sector. */
  lemma OldMarked(cap: int, base: seq<Sector>, at: map<Name, Loc>, loc: Loc, img: seq<Sector>)
    requires SectorsOk(cap, base) && Index(base, at) && Tidy(base) && Live(base, loc)
    requires img == Restatus(base, loc, PreDelete) || img == Killed(base, loc, PreDelete)
    ensures var r := Get(base, loc);
            && |img| == |base| && SectorsOk(cap, img) && Index(img, at - {r.name}) && Cut(img, Some(loc), None)
            && At(img, loc) && Get(img, loc) == r.(status := PreDelete) && r.part == Whole && |r.name| < NAME_MAX
            && MapOf(img, at - {r.name}) == MapOf(base, at) - {r.name}
            && MapOf(base, at)[r.name := r.value] == MapOf(base, at)
            && Empties(img) == Empties(base)
    ensures forall s | 0 <= s < |img| :: base[s].dirty == Collecting ==> img[s].dirty == Collecting
    ensures forall s, n: nat | 0 <= s < |img| :: Fits(cap, img[s], n) <==> Fits(cap, base[s], n)
    ensures forall s | 0 <= s < |img| :: |img[s].recs| == |base[s].recs| && img[s].store == base[s].store
                                         && (s != loc.s ==> img[s] == base[s])
  {
    hide SectorsOk, Index, MapOf, Empties, Cut, Size;
    var r := Get(base, loc);
    LiveIsIndexed(base, at, loc);
    LiveValue(base, at, loc);
    RecordIsOk(cap, base, loc);
    SizeOfRestatus(base[loc.s].recs, loc.i, PreDelete);
    KilledIndexes(base, at, loc, PreDelete);
    KillIndexes(base, at, r.name, PreDelete);
    KilledOk(cap, base, loc, PreDelete);
    MarkedOk(cap, base, loc);
    CutAfterKill(base, None, None, loc, PreDelete);
  }

  lemma MarkedOk(cap: int, base: seq<Sector>, loc: Loc)
    requires SectorsOk(cap, base) && Live(base, loc) && Tidy(base)
    ensures var img := Restatus(base, loc, PreDelete);
            && SectorsOk(cap, img) && Empties(img) == Empties(base) && Cut(img, Some(loc), None) && At(img, loc)
  {
    hide Size, Empties;
    var img := Restatus(base, loc, PreDelete);
    SizeOfRestatus(base[loc.s].recs, loc.i, PreDelete);
    EmptiesOfUpdate(base, loc.s, img[loc.s]);
    assert SectorOk(cap, base[loc.s]);
    assert SectorOk(cap, img[loc.s]);
    assert forall s, i | 0 <= s < |img| && 0 <= i < |img[s].recs|
           && Loc(s, i) != loc :: img[s].recs[i] == base[s].recs[i];
  }

  lemma DeadAppendIndexes(secs: seq<Sector>, at: map<Name, Loc>, s: nat, r: Record)
    requires Index(secs, at) && s < |secs| && r.status != Written
    ensures Index(Append(secs, s, r), at) && MapOf(Append(secs, s, r), at) == MapOf(secs, at)
  {
    var secs' := Append(secs, s, r);
    forall k | k in at ensures Live(secs', at[k]) && Get(secs', at[k]) == Get(secs, at[k]) {
    }
    forall s', i | 0 <= s' < |secs'| && 0 <= i < |secs'[s'].recs| && secs'[s'].recs[i].status == Written
      ensures secs'[s'].recs[i] == secs[s'].recs[i] && i < |secs[s'].recs|
    {
    }
  }

  /** One more record behind a marked old one. */
  lemma NewAppended(cap: int, d: seq<Sector>, at: map<Name, Loc>, loc: Loc, t: nat, key: Name, value: Value, e: Record)
    returns (at': map<Name, Loc>, p: Option<Loc>)
    requires SectorsOk(cap, d) && Index(d, at) && Cut(d, Some(loc), None) && At(d, loc) && t < |d|
    requires key !in at && |key| < NAME_MAX && Fits(cap, d[t], REC_HDR + |key| + |value|)
    requires d[t].recs == [] ==> e.part != StatusOnly
    requires if e.status == Written then e == Record(Written, key, value, Whole)
             else (e.status == PreWrite || e.status == ErrHdr) && Len(e) <= REC_HDR + |key| + |value|
    ensures var img := Append(d, t, e);
            && SectorsOk(cap, img) && Index(img, at') && Cut(img, Some(loc), p) && Places(img, Some(loc), p)
            && Get(img, loc) == Get(d, loc) && Empties(img) == Empties(d) - (if d[t].store == Empty then 1 else 0)
            && at' == (if e.status == Written then at[key := Loc(t, |d[t].recs|)] else at)
            && MapOf(img, at') == (if e.status == Written then MapOf(d, at)[key := value] else MapOf(d, at))
    ensures p == if e.status == PreWrite && e.part != StatusOnly then Some(Loc(t, |d[t].recs|)) else None
  {
    hide SectorsOk, Index, MapOf, Empties, Cut, Append, Size;
    AppendOk(cap, d, t, e);
    CutAfterAppend(d, Some(loc), t, e);
    AppendFacts(d, t, e, loc);
    WritesAppend(d, t, e, Whole, Written);
    p := if e.status == PreWrite && e.part != StatusOnly then Some(Loc(t, |d[t].recs|)) else None;
    at' := at;
    if e.status == Written {
      AppendIndexes(d, at, t, e);
      at' := at[key := Loc(t, |d[t].recs|)];
    } else {
      DeadAppendIndexes(d, at, t, e);
    }
  }

  lemma SettledMarks(base: seq<Sector>, loc: Loc, t: nat, new': Record)
    requires Live(base, loc) && t < |base|
    ensures var d := Killed(base, loc, PreDelete);
            && d[loc.s].dirty != Clean && At(Append(d, t, new'), loc) && Append(d, t, new')[loc.s].dirty != Clean
            && Get(Append(d, t, new'), loc).status == PreDelete
  {
  }

  lemma MarksStay(d: seq<Sector>, t: nat, e: Record, loc: Loc)
    requires t < |d| && At(d, loc)
    ensures var w := Append(d, t, e);
            && (forall s | 0 <= s < |d| :: w[s].dirty == d[s].dirty)
            && (At(w, loc) ==>
                  forall s | 0 <= s < |d| && d[s].dirty != Clean :: Killed(w, loc, Deleted)[s].dirty == d[s].dirty)
  {
  }

  /** Where a state of the replacement is to be found in its three parts. */
  lemma TraceParts(base: seq<Sector>, loc: Loc, t: nat, key: Name, value: Value, parts: seq<Part>, j: nat)
    requires Live(base, loc) && t < |base| && j < |SetTrace(base, Some(loc), t, key, value, parts)|
    ensures var trace := SetTrace(base, Some(loc), t, key, value, parts);
            var d := Killed(base, loc, PreDelete);
            var w := Append(d, t, Record(Written, key, value, Whole));
            var n1, n2 := |DelTrace(base, loc, PreDelete)|, |WriteTrace(d, t, key, value, parts)|;
            && At(w, loc) && n1 > 0 && n2 > 1 && |trace| == n1 + n2 + 1
            && trace[j] == if j < n1 then DelTrace(base, loc, PreDelete)[j]
                           else if j < n1 + n2 then WriteTrace(d, t, key, value, parts)[j - n1]
                           else Killed(w, loc, Deleted)
  {
    hide WriteTrace, Append, Killed;
    var d := Killed(base, loc, PreDelete);
    SettledMarks(base, loc, t, Record(Written, key, value, Whole));
    WriteTraceLength(d, t, key, value, parts);
    KilledParts(Append(d, t, Record(Written, key, value, Whole)), loc, Deleted);
  }

  lemma StillCollecting(cap: int, base: seq<Sector>, at: map<Name, Loc>, loc: Loc, value: Value, t: nat,
        img: seq<Sector>)
    requires Replaceable(cap, base, at, loc, value, t) && |img| == |base|
    requires Empties(img) >= Empties(base) - (if base[t].store == Empty then 1 else 0)
    requires forall s | 0 <= s < |img| :: base[s].dirty == Collecting ==> img[s].dirty == Collecting
    ensures Empties(img) == 0 ==> SomeCollecting(img) && base[t].dirty == Clean && base[loc.s].dirty == Collecting
  {
    hide Empties, SectorsOk, Index, MapOf, Cut;
  }

  lemma MarkedRestores(img: seq<Sector>, at: map<Name, Loc>, loc: Loc, m: map<Name, Value>, key: Name, v: Value)
    requires Index(img, at) && At(img, loc) && Get(img, loc).name == key && Get(img, loc).value == v
    requires key in m && m[key] == v
    ensures key !in at && MapOf(img, at) == m - {key} ==> Restored(img, at, Some(loc)) == m
    ensures key in at ==> Restored(img, at, Some(loc)) == MapOf(img, at)
  {
    hide Index, MapOf;
    assert (m - {key})[key := v] == m;
  }

  lemma NoneRestores(img: seq<Sector>, at: map<Name, Loc>)
    requires Index(img, at)
    ensures Restored(img, at, None) == MapOf(img, at)
  {
  }

  /** Every state while a record is replaced: until the last but one the old record is marked and the new one does not
      count yet, and then the new one counts. */
  lemma CutImage(cap: int, base: seq<Sector>, at: map<Name, Loc>, loc: Loc, value: Value, t: nat, parts: seq<Part>,
        j: nat)
    returns (at': map<Name, Loc>, l: Option<Loc>, p: Option<Loc>)
    requires Replaceable(cap, base, at, loc, value, t)
    requires forall i | 0 <= i < |parts| :: parts[i] != StatusOnly && parts[i] != Reserved
    requires j < |SetTrace(base, Some(loc), t, Get(base, loc).name, value, parts)|
    ensures var key, m := Get(base, loc).name, MapOf(base, at);
            var trace := SetTrace(base, Some(loc), t, key, value, parts);
            var img := Settled(trace[j]);
            && |img| == |base| && Loadable(cap, img, at', l, p)
            && Empties(img) >= Empties(base) - (if base[t].store == Empty then 1 else 0)
            && (l.Some? ==> l == Some(loc) && Get(img, loc) == Get(base, loc).(status := PreDelete))
            && (p.Some? ==> p == Some(Loc(t, |base[t].recs|)))
            && (j == 0 ==> p == None && img == Restatus(base, loc, PreDelete))
            && (j > 0 && l.Some? ==> img[loc.s].dirty != Clean)
            && if j + 2 < |trace| then && l.Some? && at' == at - {key} && MapOf(img, at') == m - {key}
                                       && Restored(img, at', l) == m
               else key in at' && p == None && MapOf(img, at') == Restored(img, at', l) == m[key := value]
  {
    hide SectorsOk, Index, MapOf, Empties, Cut, Append, Killed, Restatus, Size, Settled, WriteTrace, Fits, Restored;
    var r := Get(base, loc);
    var key, m, new' := r.name, MapOf(base, at), Record(Written, r.name, value, Whole);
    var d := Killed(base, loc, PreDelete);
    var w := Append(d, t, new');
    OldMarked(cap, base, at, loc, d);
    KilledParts(base, loc, PreDelete);
    SettledMarks(base, loc, t, new');
    var n1, n2 := |DelTrace(base, loc, PreDelete)|, |WriteTrace(d, t, key, value, parts)|;
    TraceParts(base, loc, t, key, value, parts, j);
    at', l, p := at - {key}, Some(loc), None;
    if j < n1 {
      var img := DelTrace(base, loc, PreDelete)[j];
      OldMarked(cap, base, at, loc, img);
      SettledStays(cap, img);
      StillCollecting(cap, base, at, loc, value, t, img);
      MarkedRestores(img, at', loc, m, key, r.value);
    } else {
      var e := WriteImage(cap, d, t, key, value, parts, if j < n1 + n2 then j - n1 else n2 - 1);
      var img := Append(d, t, e);
      at', p := NewAppended(cap, d, at', loc, t, key, value, e);
      MarksStay(d, t, e, loc);
      StillCollecting(cap, base, at, loc, value, t, img);
      MarkedRestores(img, at', loc, m, key, r.value);
      assert (m - {key})[key := value] == m[key := value];
      if j >= n1 + n2 {
        l := None;
        MarksStay(d, t, new', loc);
        img := Killed(w, loc, Deleted);
        KilledIndexes(w, at', loc, Deleted);
        KilledOk(cap, w, loc, Deleted);
        CutAfterKill(w, Some(loc), None, loc, Deleted);
        StillCollecting(cap, base, at, loc, value, t, img);
        SettledStays(cap, img);
        NoneRestores(img, at');
      }
    }
  }

  // ---------- the other writes ----------

  /** Every state while a new key is written: it counts at the end. */
  lemma AddImage(cap: int, base: seq<Sector>, at: map<Name, Loc>, key: Name, value: Value, t: nat, parts: seq<Part>,
        j: nat)
    requires |base| >= 2 && SectorsOk(cap, base) && Index(base, at) && Tidy(base) && key !in at && |key| < NAME_MAX
    requires t < |base| && Fits(cap, base[t], REC_HDR + |key| + |value|)
    requires Empties(base) > if base[t].store == Empty then 1 else 0
    requires forall i | 0 <= i < |parts| :: parts[i] != StatusOnly && parts[i] != Reserved
    requires j < |WriteTrace(base, t, key, value, parts)|
    ensures var trace, m := WriteTrace(base, t, key, value, parts), MapOf(base, at);
            StandsFor(cap, trace[j], if j + 1 < |trace| then m else m[key := value])
  {
    hide SectorsOk, Index, MapOf, Empties, Cut, Append, Size, Settled, WriteTrace, Restored;
    var e := WriteImage(cap, base, t, key, value, parts, j);
    var img := Append(base, t, e);
    var at', p := at, if e.status == PreWrite && e.part != StatusOnly then Some(Loc(t, |base[t].recs|)) else None;
    AppendOk(cap, base, t, e);
    CutAfterAppend(base, None, t, e);
    WritesAppend(base, t, e, Whole, Written);
    if e.status == Written {
      AppendIndexes(base, at, t, e);
      at' := at[key := Loc(t, |base[t].recs|)];
    } else {
      DeadAppendIndexes(base, at, t, e);
    }
    NoneRestores(img, at');
    assert Loadable(cap, img, at', None, p);
  }

  /** The states while a record is deleted: it counts no more from the first on. */
  lemma DeleteImage(cap: int, base: seq<Sector>, at: map<Name, Loc>, loc: Loc, j: nat)
    requires |base| >= 2 && SectorsOk(cap, base) && Index(base, at) && Tidy(base) && Live(base, loc)
    requires Empties(base) > 0 && j < |DelTrace(base, loc, Deleted)|
    ensures StandsFor(cap, DelTrace(base, loc, Deleted)[j], MapOf(base, at) - {Get(base, loc).name})
  {
    hide SectorsOk, Index, MapOf, Empties, Cut, Size, Restored, Loadable, StandsFor;
    var key := Get(base, loc).name;
    LiveIsIndexed(base, at, loc);
    if j == 0 {
      DeletedOk(cap, base, loc);
      KillIndexes(base, at, key, Deleted);
      TidyHolds(cap, Restatus(base, loc, Deleted), at - {key});
    } else {
      KilledOk(cap, base, loc, Deleted);
      KilledIndexes(base, at, loc, Deleted);
      CutAfterKill(base, None, None, loc, Deleted);
      TidyHolds(cap, Killed(base, loc, Deleted), at - {key});
    }
  }

  lemma DeletedOk(cap: int, base: seq<Sector>, loc: Loc)
    requires SectorsOk(cap, base) && Live(base, loc) && Tidy(base)
    ensures var img := Restatus(base, loc, Deleted);
            SectorsOk(cap, img) && Empties(img) == Empties(base) && Tidy(img)
  {
    hide Size, Empties;
    var img := Restatus(base, loc, Deleted);
    SizeOfRestatus(base[loc.s].recs, loc.i, Deleted);
    EmptiesOfUpdate(base, loc.s, img[loc.s]);
    assert SectorOk(cap, base[loc.s]);
    assert SectorOk(cap, img[loc.s]);
    forall s, i | 0 <= s < |img| && 0 <= i < |img[s].recs| && Loc(s, i) != loc
      ensures img[s].recs[i] == base[s].recs[i] && (Visible(img, Loc(s, i)) <==> Visible(base, Loc(s, i))) {
    }
  }

  /** Whenever power goes while a key is set, the flash holds the map before or the map afterwards. */
  lemma SetImage(cap: int, base: seq<Sector>, at: map<Name, Loc>, m: map<Name, Value>, key: Name, value: Value, t: nat,
        j: nat)
    requires SetBase(cap, base, at, m, key, value, t) && t < |base|
    requires var l := if key in at then Some(at[key]) else None;
             (l.Some? ==> At(base, l.value)) && j < |SetTrace(base, l, t, key, value, NewParts())|
    ensures var l := if key in at then Some(at[key]) else None;
            var flash := SetTrace(base, l, t, key, value, NewParts())[j];
            StandsFor(cap, flash, m) || StandsFor(cap, flash, m[key := value])
  {
    hide SectorsOk, Index, MapOf, Empties, Cut, Size, Restored, Loadable, Settled, WriteTrace, DelTrace, Fits;
    CandidateFits(cap, base, false, t, REC_HDR + |key| + |value|);
    if key in at {
      IndexedIsLive(base, at, key);
      var at', l, p := CutImage(cap, base, at, at[key], value, t, NewParts(), j);
    } else {
      AddImage(cap, base, at, key, value, t, NewParts(), j);
    }
  }
}
