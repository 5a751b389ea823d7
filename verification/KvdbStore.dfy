/** The key-value store at record level: what is in the flash sectors, and the map that the live records stand for. */
module KvdbStore {
  import opened Bytes
  import opened Cyclic

  type Name = seq<byte>
  type Value = seq<byte>

  const REC_HDR: nat := 24      // sizeof(struct kv_hdr_data) at write granularity 1
  const SEC_HDR: nat := 16      // sizeof(struct sector_hdr_data)
  const NAME_MAX: nat := 64
  const THRESHOLD: nat := REC_HDR + NAME_MAX
  const PIECE: nat := 32        // the buffer of move_kv
  const MAGIC_OFFSET: nat := 4  // where the copying of a record begins behind its status

  datatype Status = PreWrite | Written | PreDelete | Deleted | ErrHdr

  // How much of a record has reached the flash, in the order in which it is written: a new one in parts, a copied one
  // so many bytes of it. Reserved is the place that a scan keeps for a header where a sector in use begins without one.
  datatype Part = StatusOnly | Reserved | HeaderToo | NameToo | Copied(bytes: nat) | Whole

  datatype Record = Record(status: Status, name: Name, value: Value, part: Part)
  datatype Store = Empty | Using
  datatype Dirty = Clean | Dirtied | Collecting
  datatype Sector = Sector(store: Store, dirty: Dirty, recs: seq<Record>)

  datatype Option<T> = None | Some(value: T)

  // The address of a record: its sector, and its place in it.
  datatype Loc = Loc(s: nat, i: nat)

  const FRESH := Sector(Empty, Clean, [])

  /** The space a record takes: a status byte with nothing behind it is just that byte. */
  function Len(r: Record): nat {
    if r.part == StatusOnly then 1 else if r.part == Reserved then REC_HDR else REC_HDR + |r.name| + |r.value|
  }

  function Size(recs: seq<Record>): nat {
    if recs == [] then 0 else Size(recs[..|recs| - 1]) + Len(recs[|recs| - 1])
  }

  predicate At(secs: seq<Sector>, l: Loc) {
    l.s < |secs| && l.i < |secs[l.s].recs|
  }

  function Get(secs: seq<Sector>, l: Loc): Record
    requires At(secs, l)
  {
    secs[l.s].recs[l.i]
  }

  predicate Live(secs: seq<Sector>, l: Loc) {
    At(secs, l) && Get(secs, l).status == Written
  }

  // ---------- what the flash operations do ----------

  function Append(secs: seq<Sector>, s: nat, r: Record): (secs': seq<Sector>)
    requires s < |secs|
    ensures |secs'| == |secs|
  {
    secs[s := secs[s].(store := Using, recs := secs[s].recs + [r])]
  }

  function Restatus(secs: seq<Sector>, l: Loc, st: Status): (secs': seq<Sector>)
    requires At(secs, l)
    ensures |secs'| == |secs|
  {
    secs[l.s := secs[l.s].(recs := secs[l.s].recs[l.i := Get(secs, l).(status := st)])]
  }

  function Dirtying(secs: seq<Sector>, s: nat, d: Dirty): (secs': seq<Sector>)
    requires s < |secs|
    ensures |secs'| == |secs|
  {
    secs[s := secs[s].(dirty := d)]
  }

  function Formatted(secs: seq<Sector>, s: nat): (secs': seq<Sector>)
    requires s < |secs|
    ensures |secs'| == |secs|
  {
    secs[s := FRESH]
  }

  // ---------- the map ----------

  /** `at` says where every key's one live record is, and there are no others. */
  ghost predicate Index(secs: seq<Sector>, at: map<Name, Loc>) {
    && (forall k | k in at :: Live(secs, at[k]) && Get(secs, at[k]).name == k)
    && (forall s, i | 0 <= s < |secs| && 0 <= i < |secs[s].recs| && secs[s].recs[i].status == Written ::
          secs[s].recs[i].name in at && at[secs[s].recs[i].name] == Loc(s, i))
  }

  ghost function MapOf(secs: seq<Sector>, at: map<Name, Loc>): (m: map<Name, Value>)
    requires Index(secs, at)
    ensures m.Keys == at.Keys
  {
    map k | k in at :: Get(secs, at[k]).value
  }

  /** The index is determined by the flash: two indexes of the same sectors are equal, so the map is as well. */
  lemma IndexIsUnique(secs: seq<Sector>, at: map<Name, Loc>, at': map<Name, Loc>)
    requires Index(secs, at) && Index(secs, at')
    ensures at == at'
  {
    forall k | k in at ensures k in at' && at'[k] == at[k] {
      assert secs[at[k].s].recs[at[k].i].name == k;
    }
    forall k | k in at' ensures k in at {
      assert secs[at'[k].s].recs[at'[k].i].name == k;
    }
  }

  lemma AppendIndexes(secs: seq<Sector>, at: map<Name, Loc>, s: nat, r: Record)
    requires Index(secs, at) && s < |secs| && r.status == Written && r.name !in at
    ensures var l := Loc(s, |secs[s].recs|);
            && Index(Append(secs, s, r), at[r.name := l])
            && MapOf(Append(secs, s, r), at[r.name := l]) == MapOf(secs, at)[r.name := r.value]
  {
    var l := Loc(s, |secs[s].recs|);
    var secs', at' := Append(secs, s, r), at[r.name := l];
    forall k | k in at ensures k != r.name && Live(secs', at[k]) && Get(secs', at[k]) == Get(secs, at[k]) {
    }
    assert Get(secs', l) == r;
    forall s', i | 0 <= s' < |secs'| && 0 <= i < |secs'[s'].recs| && secs'[s'].recs[i].status == Written
      ensures secs'[s'].recs[i].name in at' && at'[secs'[s'].recs[i].name] == Loc(s', i)
    {
      if Loc(s', i) != l { assert secs'[s'].recs[i] == secs[s'].recs[i]; }
    }
  }

  /** A record that is not live does not matter, whatever else becomes of it. */
  lemma DeadRestatusIndexes(secs: seq<Sector>, at: map<Name, Loc>, l: Loc, st: Status)
    requires Index(secs, at) && At(secs, l) && !Live(secs, l) && st != Written
    ensures Index(Restatus(secs, l, st), at) && MapOf(Restatus(secs, l, st), at) == MapOf(secs, at)
  {
    var secs' := Restatus(secs, l, st);
    assert forall k | k in at :: Get(secs', at[k]) == Get(secs, at[k]);
    assert forall s', i | 0 <= s' < |secs'| && 0 <= i < |secs'[s'].recs| ::
        Loc(s', i) == l || secs'[s'].recs[i] == secs[s'].recs[i];
  }

  lemma KillIndexes(secs: seq<Sector>, at: map<Name, Loc>, k: Name, st: Status)
    requires Index(secs, at) && k in at && st != Written
    ensures Index(Restatus(secs, at[k], st), at - {k})
    ensures MapOf(Restatus(secs, at[k], st), at - {k}) == MapOf(secs, at) - {k}
  {
    var l := at[k];
    var secs' := Restatus(secs, l, st);
    forall k' | k' in at && k' != k ensures at[k'] != l && Live(secs', at[k'])
      && Get(secs', at[k']) == Get(secs, at[k']) {
    }
    forall s', i | 0 <= s' < |secs'| && 0 <= i < |secs'[s'].recs| && secs'[s'].recs[i].status == Written
      ensures secs'[s'].recs[i].name in at - {k} && at[secs'[s'].recs[i].name] == Loc(s', i)
    {
      assert Loc(s', i) != l && secs'[s'].recs[i] == secs[s'].recs[i];
    }
  }

  lemma DirtyingIndexes(secs: seq<Sector>, at: map<Name, Loc>, s: nat, d: Dirty)
    requires Index(secs, at) && s < |secs|
    ensures Index(Dirtying(secs, s, d), at) && MapOf(Dirtying(secs, s, d), at) == MapOf(secs, at)
  {
    var secs' := Dirtying(secs, s, d);
    assert forall s' | 0 <= s' < |secs| :: secs'[s'].recs == secs[s'].recs;
    assert forall k | k in at :: Get(secs', at[k]) == Get(secs, at[k]);
  }

  ghost predicate NoneLive(sec: Sector) {
    forall i | 0 <= i < |sec.recs| :: sec.recs[i].status != Written
  }

  lemma FormattedIndexes(secs: seq<Sector>, at: map<Name, Loc>, s: nat)
    requires Index(secs, at) && s < |secs| && NoneLive(secs[s])
    ensures Index(Formatted(secs, s), at) && MapOf(Formatted(secs, s), at) == MapOf(secs, at)
  {
    var secs' := Formatted(secs, s);
    assert forall k | k in at :: at[k].s != s && Get(secs', at[k]) == Get(secs, at[k]);
    assert forall s' | 0 <= s' < |secs| && s' != s :: secs'[s'] == secs[s'];
  }

  /** What the sectors stand for when the record at l, if there is one, lives again unless it has been replaced. */
  ghost function Restored(secs: seq<Sector>, at: map<Name, Loc>, l: Option<Loc>): map<Name, Value>
    requires Index(secs, at) && (l.Some? ==> At(secs, l.value))
  {
    if l.Some? && Get(secs, l.value).name !in at
    then MapOf(secs, at)[Get(secs, l.value).name := Get(secs, l.value).value] else MapOf(secs, at)
  }

  // ---------- space ----------

  lemma {:induction false} SizeOfRestatus(recs: seq<Record>, i: nat, st: Status)
    requires i < |recs|
    ensures Size(recs[i := recs[i].(status := st)]) == Size(recs)
    decreases |recs|
  {
    var recs' := recs[i := recs[i].(status := st)];
    if i == |recs| - 1 {
      assert recs'[..|recs| - 1] == recs[..|recs| - 1];
    } else {
      SizeOfRestatus(recs[..|recs| - 1], i, st);
      assert recs'[..|recs| - 1] == recs[..|recs| - 1][i := recs[i].(status := st)];
    }
  }

  lemma SizeOfAppend(recs: seq<Record>, r: Record)
    ensures Size(recs + [r]) == Size(recs) + Len(r)
  {
    assert (recs + [r])[..|recs|] == recs;
  }

  lemma {:induction false} SizeOfPrefix(recs: seq<Record>, i: nat)
    requires i <= |recs|
    ensures Size(recs[..i]) <= Size(recs)
    decreases |recs| - i
  {
    if i < |recs| {
      SizeOfPrefix(recs, i + 1);
      assert recs[..i + 1][..i] == recs[..i];
    } else {
      assert recs[..i] == recs;
    }
  }

  /** The allocator's slack rule: behind the last record more than the threshold stays free. */
  predicate Slack(cap: int, recs: seq<Record>) {
    recs == [] || Size(recs) + THRESHOLD < cap
  }

  predicate Fits(cap: int, sec: Sector, n: nat) {
    Size(sec.recs) + n + THRESHOLD < cap
  }

  /** Because of the slack every record starts where the scan for the next magic word still looks: that scan reads
      32 bytes at a time and stops short of the last header's length of the sector. */
  lemma ScanReachesEveryRecord(secSize: nat, recs: seq<Record>, i: nat)
    requires secSize >= SEC_HDR && Slack(secSize - SEC_HDR, recs) && i < |recs|
    ensures var start := SEC_HDR + Size(recs[..i]); start + 32 < secSize - SEC_HDR
  {
    SizeOfPrefix(recs, i + 1);
    assert recs[..i + 1][..i] == recs[..i];
  }

  predicate RecordOk(r: Record) {
    r.status in {Written, PreDelete, Deleted} ==> r.part == Whole && |r.name| < NAME_MAX
  }

  predicate SectorOk(cap: int, sec: Sector) {
    && Slack(cap, sec.recs)
    && (sec.store == Empty ==> sec == FRESH) && (sec.store == Using ==> sec.recs != [])
    && (sec.recs != [] ==> sec.recs[0].part != StatusOnly)
    && (forall i | 0 <= i < |sec.recs| :: RecordOk(sec.recs[i]))
  }

  ghost predicate SectorsOk(cap: int, secs: seq<Sector>) {
    forall s | 0 <= s < |secs| :: SectorOk(cap, secs[s])
  }

  function Empties(secs: seq<Sector>): nat {
    if secs == [] then 0 else Empties(secs[..|secs| - 1]) + (if secs[|secs| - 1].store == Empty then 1 else 0)
  }

  lemma {:induction false} EmptiesOfUpdate(secs: seq<Sector>, s: nat, sec: Sector)
    requires s < |secs|
    ensures Empties(secs[s := sec])
            == Empties(secs) - (if secs[s].store == Empty then 1 else 0) + (if sec.store == Empty then 1 else 0)
    decreases |secs|
  {
    if s == |secs| - 1 {
      assert secs[s := sec][..|secs| - 1] == secs[..|secs| - 1];
    } else {
      EmptiesOfUpdate(secs[..|secs| - 1], s, sec);
      assert secs[s := sec][..|secs| - 1] == secs[..|secs| - 1][s := sec];
    }
  }

  lemma EmptiesOfTwo(secs: seq<Sector>)
    requires |secs| == 2
    ensures Empties(secs) == (if secs[0].store == Empty then 1 else 0) + (if secs[1].store == Empty then 1 else 0)
  {
    assert secs[..1][..0] == [];
    assert Empties(secs[..1]) == if secs[0].store == Empty then 1 else 0;
  }

  lemma {:induction false} SomeEmpty(secs: seq<Sector>) returns (x: nat)
    requires Empties(secs) > 0
    ensures x < |secs| && secs[x].store == Empty
    decreases |secs|
  {
    if secs[|secs| - 1].store == Empty {
      x := |secs| - 1;
    } else {
      x := SomeEmpty(secs[..|secs| - 1]);
    }
  }

  lemma {:induction false} EmptyCounts(secs: seq<Sector>, x: nat)
    requires x < |secs| && secs[x].store == Empty
    ensures Empties(secs) > 0
    decreases |secs|
  {
    if x < |secs| - 1 { EmptyCounts(secs[..|secs| - 1], x); }
  }

  // ---------- going round the ring ----------

  function Rotated(secs: seq<Sector>, oldest: nat): (r: seq<Sector>)
    requires oldest < |secs|
    ensures |r| == |secs|
  {
    secs[oldest..] + secs[..oldest]
  }

  lemma {:induction false} EmptiesOfConcat(a: seq<Sector>, b: seq<Sector>)
    ensures Empties(a + b) == Empties(a) + Empties(b)
    decreases |b|
  {
    if b == [] {
      assert a + b == a;
    } else {
      assert (a + b)[..|a + b| - 1] == a + b[..|b| - 1];
      EmptiesOfConcat(a, b[..|b| - 1]);
    }
  }

  lemma EmptiesOfRotation(secs: seq<Sector>, oldest: nat)
    requires oldest < |secs|
    ensures Empties(Rotated(secs, oldest)) == Empties(secs)
  {
    hide Empties;
    EmptiesOfConcat(secs[oldest..], secs[..oldest]);
    EmptiesOfConcat(secs[..oldest], secs[oldest..]);
    assert secs[..oldest] + secs[oldest..] == secs;
  }

  /** alloc_kv_cb: room with slack, and not in a dirty sector while a collection is on. */
  predicate Usable(cap: int, secs: seq<Sector>, gc: bool, s: nat, n: nat) {
    && s < |secs| && Fits(cap, secs[s], n)
    && (secs[s].dirty == Clean || (secs[s].dirty == Dirtied && !gc))
  }

  /** What alloc_kv may choose: a sector in use, or an empty one as long as one more stays empty or a collection
      runs. */
  predicate Candidate(cap: int, secs: seq<Sector>, gc: bool, s: nat, n: nat) {
    Usable(cap, secs, gc, s, n) && (secs[s].store == Empty ==> Empties(secs) > 1 || gc)
  }

  /** In numbers: more than 88 bytes stay free behind the record; a dirty sector takes none while a collection runs,
      and one under collection never. */
  lemma CandidateIs(cap: int, secs: seq<Sector>, gc: bool, s: nat, n: nat)
    ensures Candidate(cap, secs, gc, s, n) <==>
            && s < |secs| && Size(secs[s].recs) + n + 88 < cap
            && if gc then secs[s].dirty == Clean
               else secs[s].dirty != Collecting && (secs[s].store == Using || Empties(secs) > 1)
  {
    hide Size, Empties;
  }

  /** No sector of the same kind in front of t, going round the ring, can be used, and an empty one is only taken if
      none in use can. */
  ghost predicate FirstChoice(cap: int, secs: seq<Sector>, oldest: nat, gc: bool, t: nat, n: nat) {
    && oldest < |secs| && t < |secs|
    && (forall s | 0 <= s < |secs| && Pending(|secs|, oldest, s) < Pending(|secs|, oldest, t)
                    && secs[s].store == secs[t].store :: !Usable(cap, secs, gc, s, n))
    && (secs[t].store == Empty ==>
          forall s | 0 <= s < |secs| && secs[s].store == Using :: !Usable(cap, secs, gc, s, n))
  }

  // ---------- what the operations leave behind ----------

  /** del_kv on the flash: the new status, and the mark that the sector is dirty. */
  function Killed(secs: seq<Sector>, l: Loc, st: Status): (secs': seq<Sector>)
    requires At(secs, l)
    ensures |secs'| == |secs|
  {
    if secs[l.s].dirty == Clean then Dirtying(Restatus(secs, l, st), l.s, Dirtied) else Restatus(secs, l, st)
  }

  lemma KilledOk(cap: int, secs: seq<Sector>, l: Loc, st: Status)
    requires SectorsOk(cap, secs) && At(secs, l) && Get(secs, l).status in {Written, PreDelete}
             && (st == PreDelete || st == Deleted)
    ensures SectorsOk(cap, Killed(secs, l, st)) && Empties(Killed(secs, l, st)) == Empties(secs)
  {
    hide Size;
    var sec := Killed(secs, l, st)[l.s];
    SizeOfRestatus(secs[l.s].recs, l.i, st);
    assert SectorOk(cap, secs[l.s]);
    assert SectorOk(cap, sec);
    EmptiesOfUpdate(secs, l.s, sec);
    assert Killed(secs, l, st) == secs[l.s := sec];
  }

  lemma AppendSectorOk(cap: int, sec: Sector, r: Record)
    requires SectorOk(cap, sec) && Fits(cap, sec, Len(r)) && RecordOk(r)
    requires sec.recs == [] ==> r.part != StatusOnly
    ensures SectorOk(cap, sec.(store := Using, recs := sec.recs + [r]))
  {
    hide Size, Len, RecordOk;
    SizeOfAppend(sec.recs, r);
  }

  lemma AppendOk(cap: int, secs: seq<Sector>, s: nat, r: Record)
    requires SectorsOk(cap, secs) && s < |secs| && Fits(cap, secs[s], Len(r)) && RecordOk(r)
    requires secs[s].recs == [] ==> r.part != StatusOnly
    ensures SectorsOk(cap, Append(secs, s, r))
    ensures Empties(Append(secs, s, r)) == Empties(secs) - (if secs[s].store == Empty then 1 else 0)
  {
    hide Size, Len, Empties;
    var sec := Append(secs, s, r)[s];
    EmptiesOfUpdate(secs, s, sec);
    AppendSectorOk(cap, secs[s], r);
  }

  function Repart(secs: seq<Sector>, l: Loc, p: Part): (secs': seq<Sector>)
    requires At(secs, l)
    ensures |secs'| == |secs|
  {
    secs[l.s := secs[l.s].(recs := secs[l.s].recs[l.i := Get(secs, l).(part := p)])]
  }

  /** The parts in which a new record is written behind its status. */
  function NewParts(): seq<Part> {
    [HeaderToo, NameToo, Whole]
  }

  /** The pieces in which a record of n bytes is copied behind its status. */
  function CopyParts(done: nat, n: nat): (parts: seq<Part>)
    ensures done < n ==> parts != []
    decreases n - done
  {
    if done >= n then []
    else if done + PIECE < n then [Copied(done + PIECE)] + CopyParts(done + PIECE, n)
    else [Whole]
  }

  /** Every single write of a record shows the sectors with one more record, up to the one that makes it count. */
  lemma WritesAppend(secs: seq<Sector>, s: nat, r: Record, p: Part, st: Status)
    requires s < |secs|
    ensures var l := Loc(s, |secs[s].recs|);
            && Append(secs[s := secs[s].(store := Using)], s, r) == Append(secs, s, r)
            && At(Append(secs, s, r), l) && Get(Append(secs, s, r), l) == r
            && Repart(Append(secs, s, r), l, p) == Append(secs, s, r.(part := p))
            && Restatus(Append(secs, s, r), l, st) == Append(secs, s, r.(status := st))
  {
    var recs := secs[s].recs;
    assert (recs + [r])[|recs| := r.(part := p)] == recs + [r.(part := p)];
    assert (recs + [r])[|recs| := r.(status := st)] == recs + [r.(status := st)];
  }

  /** The flash states that del_kv goes through. */
  function DelTrace(secs: seq<Sector>, l: Loc, st: Status): seq<seq<Sector>>
    requires At(secs, l)
  {
    [Restatus(secs, l, st)] + if secs[l.s].dirty == Clean then [Killed(secs, l, st)] else []
  }

  /** The flash states of a record that grows part by part. */
  function Growing(secs: seq<Sector>, s: nat, name: Name, value: Value, parts: seq<Part>): (t: seq<seq<Sector>>)
    requires s < |secs|
    ensures |t| == |parts|
  {
    seq(|parts|, i requires 0 <= i < |parts| => Append(secs, s, Record(PreWrite, name, value, parts[i])))
  }

  /** The flash states that writing a record goes through: sector in use, status, the parts, final status. */
  function WriteTrace(secs: seq<Sector>, s: nat, name: Name, value: Value, parts: seq<Part>): seq<seq<Sector>>
    requires s < |secs|
  {
    (if secs[s].store == Empty then [secs[s := secs[s].(store := Using)]] else [])
    + [Append(secs, s, Record(PreWrite, name, value, StatusOnly))] + Growing(secs, s, name, value, parts)
    + [Append(secs, s, Record(Written, name, value, Whole))]
  }

  lemma KilledParts(secs: seq<Sector>, l: Loc, st: Status)
    requires At(secs, l)
    ensures var r := Restatus(secs, l, st);
            && r[l.s].dirty == secs[l.s].dirty
            && Killed(secs, l, st) == (if secs[l.s].dirty == Clean then Dirtying(r, l.s, Dirtied) else r)
            && DelTrace(secs, l, st) == [r] + (if secs[l.s].dirty == Clean then [Dirtying(r, l.s, Dirtied)] else [])
  {
  }

  /** What moving a record comes to: a copy in sector t, and the original deleted. */
  function Moved(secs: seq<Sector>, l: Loc, t: nat): (secs': seq<Sector>)
    requires At(secs, l) && t < |secs|
    ensures |secs'| == |secs|
  {
    var mid := if Get(secs, l).status == Written then Killed(secs, l, PreDelete) else secs;
    Killed(Append(mid, t, Get(secs, l).(status := Written)), l, Deleted)
  }

  lemma KilledFacts(cap: int, secs: seq<Sector>, l: Loc, st: Status, gc: bool, t: nat, n: nat)
    requires At(secs, l) && t < |secs|
    ensures var secs' := Killed(secs, l, st);
            && At(secs', l) && Get(secs', l) == Get(secs, l).(status := st)
            && (Fits(cap, secs'[t], n) <==> Fits(cap, secs[t], n)) && secs'[t].store == secs[t].store
            && (secs'[t].dirty == Clean ==> secs[t].dirty == Clean)
            && (Usable(cap, secs, gc, t, n) && (gc ==> t != l.s) ==> Usable(cap, secs', gc, t, n))
  {
    hide Size;
    SizeOfRestatus(secs[l.s].recs, l.i, st);
    var secs' := Killed(secs, l, st);
    assert secs'[t].recs == if t == l.s then secs[l.s].recs[l.i := Get(secs, l).(status := st)] else secs[t].recs;
  }

  /** In a sector that is dirty already a record can change its status without any effect on the space. */
  lemma KilledUsable(cap: int, secs: seq<Sector>, l: Loc, st: Status)
    requires At(secs, l) && secs[l.s].dirty != Clean
    ensures var secs' := Killed(secs, l, st);
            forall s: nat, gc, n: nat :: Usable(cap, secs', gc, s, n) <==> Usable(cap, secs, gc, s, n)
    ensures forall s | 0 <= s < |secs| :: Killed(secs, l, st)[s].store == secs[s].store
                                          && Killed(secs, l, st)[s].dirty == secs[s].dirty
                                          && Size(Killed(secs, l, st)[s].recs) == Size(secs[s].recs)
    ensures Empties(Killed(secs, l, st)) == Empties(secs)
  {
    hide Size;
    SizeOfRestatus(secs[l.s].recs, l.i, st);
    EmptiesOfUpdate(secs, l.s, Killed(secs, l, st)[l.s]);
  }

  lemma AppendFacts(secs: seq<Sector>, t: nat, r: Record, l: Loc)
    requires t < |secs| && At(secs, l)
    ensures var secs' := Append(secs, t, r);
            At(secs', l) && Get(secs', l) == Get(secs, l)
  {
  }

  lemma MovedAt(secs: seq<Sector>, l: Loc, t: nat)
    requires At(secs, l) && t < |secs| && t != l.s && secs[l.s].dirty != Clean
    ensures var secs', r := Moved(secs, l, t), Get(secs, l);
            && secs'[l.s] == secs[l.s].(recs := secs[l.s].recs[l.i := r.(status := Deleted)])
            && secs'[t] == secs[t].(store := Using, recs := secs[t].recs + [r.(status := Written)])
            && forall s | 0 <= s < |secs| && s != l.s && s != t :: secs'[s] == secs[s]
  {
    var r := Get(secs, l);
    assert secs[l.s].recs[l.i := r.(status := PreDelete)][l.i := r.(status := Deleted)]
        == secs[l.s].recs[l.i := r.(status := Deleted)];
  }

  /** The spare sector of a collection holds at most what has been moved so far, so the next record fits. */
  lemma SpareHasRoom(cap: int, secs: seq<Sector>, s: nat, recs0: seq<Record>, i: nat, x: nat)
    requires s < |secs| && x < |secs| && i < |recs0|
    requires Slack(cap, recs0) && Size(secs[x].recs) <= Size(recs0[..i]) && secs[x].dirty == Clean
    ensures Candidate(cap, secs, true, x, Len(recs0[i]))
    ensures Size(secs[x].recs) + Len(recs0[i]) <= Size(recs0[..i + 1])
  {
    SizeOfPrefix(recs0, i + 1);
    assert recs0[..i + 1][..i] == recs0[..i];
  }

  // ---------- after a power cut ----------

  /** kv_iterator goes from header to header and does not see a place with nothing but a status byte. */
  predicate Visible(secs: seq<Sector>, l: Loc) {
    At(secs, l) && Get(secs, l).part != StatusOnly
  }

  /** The only record in the middle of a replacement is the one at l, and the only unfinished new one, as far as the
      scan can see, is the one at p. */
  ghost predicate Cut(secs: seq<Sector>, l: Option<Loc>, p: Option<Loc>) {
    forall s, i | 0 <= s < |secs| && 0 <= i < |secs[s].recs| ::
      && (secs[s].recs[i].status == PreDelete <==> l == Some(Loc(s, i)))
      && (secs[s].recs[i].status == PreWrite && Visible(secs, Loc(s, i)) <==> p == Some(Loc(s, i)))
  }

  lemma CutAfterKill(secs: seq<Sector>, l: Option<Loc>, p: Option<Loc>, loc: Loc, st: Status)
    requires Cut(secs, l, p) && At(secs, loc) && p != Some(loc) && (l == None || l == Some(loc))
    requires st == PreDelete || st == Deleted
    ensures Cut(Killed(secs, loc, st), if st == PreDelete then Some(loc) else None, p)
  {
    var secs' := Killed(secs, loc, st);
    forall s, i | 0 <= s < |secs'| && 0 <= i < |secs'[s].recs|
      && Loc(s, i) != loc ensures secs'[s].recs[i] == secs[s].recs[i] {
    }
  }

  lemma CutAfterAppend(secs: seq<Sector>, l: Option<Loc>, t: nat, r: Record)
    requires Cut(secs, l, None) && t < |secs| && r.status != PreDelete && (l.Some? ==> At(secs, l.value))
    ensures var p := Loc(t, |secs[t].recs|);
            Cut(Append(secs, t, r), l, if r.status == PreWrite && r.part != StatusOnly then Some(p) else None)
  {
    var secs', p := Append(secs, t, r), Loc(t, |secs[t].recs|);
    forall s, i | 0 <= s < |secs'| && 0 <= i < |secs'[s].recs|
      && Loc(s, i) != p ensures secs'[s].recs[i] == secs[s].recs[i] {
    }
  }

  /** Nothing is half done. */
  ghost predicate Tidy(secs: seq<Sector>) {
    Cut(secs, None, None)
  }

  /** The scan from the oldest sector on comes to l before it comes to p. */
  predicate Before(n: nat, oldest: nat, l: Loc, p: Loc)
    requires oldest < n && l.s < n && p.s < n
  {
    var dl, dp := Pending(n, oldest, l.s), Pending(n, oldest, p.s);
    dl < dp || (dl == dp && l.i < p.i)
  }
}
