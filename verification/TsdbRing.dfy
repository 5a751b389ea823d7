/** The ring of sectors as a whole: logical order, the records it retains, and what a walk visits. */
module TsdbRing {
  import opened Bytes
  import opened FlashDevice
  import opened TsdbLayout

  /** The physical number of the i-th sector counted from the oldest. */
  function Phys(n: nat, oldest: nat, i: nat): (k: nat)
    requires oldest < n && i < n
    ensures k < n
  {
    if oldest + i < n then oldest + i else oldest + i - n
  }

  /** The position, counted from the oldest, of physical sector k. */
  function Logical(n: nat, oldest: nat, k: nat): (i: nat)
    requires oldest < n && k < n
    ensures i < n && Phys(n, oldest, i) == k
  {
    if k >= oldest then k - oldest else k + n - oldest
  }

  /** The address of physical sector k, that is k * size. */
  function Base(size: nat, k: nat): nat {
    if k == 0 then 0 else Base(size, k - 1) + size
  }

  lemma BaseNext(size: nat, k: nat)
    ensures Base(size, k + 1) == Base(size, k) + size
  {
  }

  lemma {:induction false} BaseMonotone(size: nat, k: nat, n: nat)
    requires k <= n
    ensures Base(size, k) <= Base(size, n)
    decreases n - k
  {
    if k < n {
      BaseNext(size, k);
      BaseMonotone(size, k + 1, n);
    }
  }

  lemma BaseBounds(size: nat, n: nat, k: nat)
    requires k < n
    ensures Base(size, k) + size == Base(size, k + 1) <= Base(size, n)
    ensures size > 0 ==> (Base(size, k) + size < Base(size, n) <==> k + 1 < n)
    ensures size > 0 ==> (Base(size, k) >= size <==> k >= 1)
  {
    BaseNext(size, k);
    BaseMonotone(size, k + 1, n);
    if k + 1 < n {
      BaseNext(size, k + 1);
      BaseMonotone(size, k + 2, n);
    }
    if k >= 1 {
      BaseNext(size, k - 1);
    }
  }

  lemma BasesDisjoint(size: nat, k1: nat, k2: nat)
    requires k1 < k2
    ensures Base(size, k1) + size <= Base(size, k2)
  {
    BaseNext(size, k1);
    BaseMonotone(size, k1 + 1, k2);
  }

  lemma BaseInjective(size: nat, k1: nat, k2: nat)
    requires size > 0
    ensures Base(size, k1) == Base(size, k2) <==> k1 == k2
  {
    if k1 < k2 { BasesDisjoint(size, k1, k2); }
    if k2 < k1 { BasesDisjoint(size, k2, k1); }
  }

  /** get_next_sector_addr and get_last_sector_addr, on the number of sectors already visited. */
  function NextSectorAddr(size: nat, max: nat, addr: nat, traversed: nat): nat {
    if traversed + size <= max then (if addr + size < max then addr + size else 0) else FAILED
  }

  function LastSectorAddr(size: nat, max: nat, addr: nat, traversed: nat): nat
    requires size <= max
  {
    if traversed + size <= max then (if addr >= size then addr - size else max - size) else FAILED
  }

  function NextPhys(n: nat, k: nat): nat
    requires k < n
  {
    if k + 1 < n then k + 1 else 0
  }

  /** The address walks visit every sector once and then stop, forwards and backwards. */
  lemma SectorWalk(size: nat, n: nat, k: nat, t: nat)
    requires size > 0 && k < n && t <= n && Base(size, n) < FAILED
    ensures size <= Base(size, n)
    ensures NextSectorAddr(size, Base(size, n), Base(size, k), Base(size, t)) ==
            if t < n then Base(size, NextPhys(n, k)) else FAILED
    ensures LastSectorAddr(size, Base(size, n), Base(size, k), Base(size, t)) ==
            if t < n then Base(size, if k > 0 then k - 1 else n - 1) else FAILED
    ensures t < n ==> Base(size, t) + size == Base(size, t + 1)
    ensures Base(size, 0) == 0
    ensures Base(size, k) + size <= Base(size, n)
  {
    BaseBounds(size, n, k);
    BaseBounds(size, n, n - 1);
    BaseMonotone(size, 1, n);
    BaseNext(size, 0);
    if t < n { BaseBounds(size, n, t); }
    if k > 0 { BaseNext(size, k - 1); }
  }

  lemma WalkBounds(size: nat, n: nat, k: nat)
    requires size > 0 && k < n
    ensures Base(size, 0) == 0 && Base(size, k) + size <= Base(size, n)
    ensures (if Base(size, k) + size >= Base(size, n) then 0 else Base(size, k) + size) == Base(size, NextPhys(n, k))
  {
    BaseBounds(size, n, k);
  }

  /** `view` lists the contents of all n sectors, oldest first; flash holds exactly that. */
  ghost predicate BytesHold(mem: seq<byte>, size: nat, n: nat, oldest: nat, view: seq<Sector>) {
    && |mem| == Base(size, n) && |view| == n && oldest < n
    && forall i | 0 <= i < n :: Holds(mem, Base(size, Phys(n, oldest, i)), size, view[i])
  }

  /** Rewriting one sector in place replaces one element of the view. */
  lemma BytesHoldAfterWrite(mem: seq<byte>, mem': seq<byte>, size: nat, n: nat, oldest: nat, view: seq<Sector>,
                            i: nat, sec: Sector)
    requires BytesHold(mem, size, n, oldest, view) && i < n
    requires var b := Base(size, Phys(n, oldest, i)); SameExcept(mem, mem', b, b + size) && Holds(mem', b, size, sec)
    ensures BytesHold(mem', size, n, oldest, view[i := sec])
  {
    forall j | 0 <= j < n ensures Holds(mem', Base(size, Phys(n, oldest, j)), size, view[i := sec][j]) {
      if j != i {
        var ki, kj := Phys(n, oldest, i), Phys(n, oldest, j);
        if ki < kj { BasesDisjoint(size, ki, kj); } else { BasesDisjoint(size, kj, ki); }
        HoldsFrame(mem, mem', Base(size, kj), size, view[j]);
      }
    }
  }

  /** The first k sectors of the flash are formatted. */
  ghost predicate EmptyUpTo(mem: seq<byte>, size: nat, k: nat) {
    forall j | 0 <= j < k :: Holds(mem, Base(size, j), size, EMPTY_SECTOR)
  }

  lemma EmptyUpToNext(mem: seq<byte>, mem': seq<byte>, size: nat, k: nat)
    requires EmptyUpTo(mem, size, k)
    requires SameExcept(mem, mem', Base(size, k), Base(size, k) + size)
    requires Holds(mem', Base(size, k), size, EMPTY_SECTOR)
    ensures EmptyUpTo(mem', size, k + 1)
  {
    forall j | 0 <= j < k + 1 ensures Holds(mem', Base(size, j), size, EMPTY_SECTOR) {
      if j < k {
        BasesDisjoint(size, j, k);
        HoldsFrame(mem, mem', Base(size, j), size, EMPTY_SECTOR);
      }
    }
  }

  lemma EmptyFlash(mem: seq<byte>, size: nat, n: nat)
    requires EmptyUpTo(mem, size, n) && |mem| == Base(size, n) && n > 0
    ensures var view := seq(n, i => EMPTY_SECTOR);
            BytesHold(mem, size, n, 0, view) && Shape(n, 0, view, 0) && Settled(view, 0) && Records(view) == []
  {
    var view := seq(n, i => EMPTY_SECTOR);
    forall i | 0 <= i < n ensures Holds(mem, Base(size, Phys(n, 0, i)), size, view[i]) {
      assert Phys(n, 0, i) == i;
    }
    RecordsOfEmpties(view);
  }

  /** Starting the count one sector later rotates the view. */
  lemma BytesHoldRotate(mem: seq<byte>, size: nat, n: nat, oldest: nat, view: seq<Sector>)
    requires BytesHold(mem, size, n, oldest, view) && n > 0
    ensures BytesHold(mem, size, n, if oldest + 1 < n then oldest + 1 else 0, view[1..] + [view[0]])
  {
    var o' := if oldest + 1 < n then oldest + 1 else 0;
    forall j | 0 <= j < n ensures Holds(mem, Base(size, Phys(n, o', j)), size, (view[1..] + [view[0]])[j]) {
      if j + 1 < n {
        assert Phys(n, o', j) == Phys(n, oldest, j + 1);
      } else {
        assert Phys(n, o', j) == Phys(n, oldest, 0);
      }
    }
  }

  /** Full sectors first, then the one being written, then the empty ones; sectors stay empty only
      until the ring has been filled once, and until then the oldest is sector 0. */
  ghost predicate Shape(n: nat, oldest: nat, view: seq<Sector>, live: nat) {
    && |view| == n && oldest < n && live <= n
    && (live < n ==> oldest == 0)
    && (forall i | 0 <= i < live :: view[i].store == (if i == live - 1 then USING else FULL))
    && (forall i | live <= i < n :: view[i] == EMPTY_SECTOR)
  }

  /** Every live sector has entries, and its header carries the time of the first. */
  ghost predicate Settled(view: seq<Sector>, live: nat)
    requires live <= |view|
  {
    forall i | 0 <= i < live :: view[i].entries != [] && view[i].start == view[i].entries[0].rec.time
  }

  function Recs(es: seq<Entry>): (r: seq<Record>)
    ensures |r| == |es| && forall j | 0 <= j < |es| :: r[j] == es[j].rec
  {
    seq(|es|, j requires 0 <= j < |es| => es[j].rec)
  }

  /** Everything the ring retains, oldest first. */
  function Records(view: seq<Sector>): seq<Record> {
    if view == [] then [] else Records(view[..|view| - 1]) + Recs(view[|view| - 1].entries)
  }

  lemma {:induction false} RecordsConcat(a: seq<Sector>, b: seq<Sector>)
    ensures Records(a + b) == Records(a) + Records(b)
    decreases |b|
  {
    if b == [] {
      assert a + b == a;
    } else {
      var b' := b[..|b| - 1];
      assert (a + b)[..|a + b| - 1] == a + b';
      RecordsConcat(a, b');
      assert Records(a) + (Records(b') + Recs(b[|b| - 1].entries))
             == (Records(a) + Records(b')) + Recs(b[|b| - 1].entries);
    }
  }

  lemma RecordsOne(s: Sector)
    ensures Records([s]) == Recs(s.entries)
  {
    assert [s][..0] == [];
    assert Records([]) + Recs(s.entries) == Recs(s.entries);
  }

  lemma {:induction false} RecordsOfEmpties(view: seq<Sector>)
    requires forall i | 0 <= i < |view| :: view[i].entries == []
    ensures Records(view) == []
    decreases |view|
  {
    if view != [] { RecordsOfEmpties(view[..|view| - 1]); }
  }

  /** The records split at sector i. */
  lemma RecordsSplit(view: seq<Sector>, i: nat)
    requires i < |view|
    ensures Records(view) == Records(view[..i]) + Recs(view[i].entries) + Records(view[i + 1..])
  {
    RecordsConcat3(view[..i], view[i], view[i + 1..]);
    SplitAt(view, i);
  }

  lemma RecordsConcat3(a: seq<Sector>, s: Sector, c: seq<Sector>)
    ensures Records(a + [s] + c) == Records(a) + Recs(s.entries) + Records(c)
  {
    RecordsConcat(a + [s], c);
    RecordsConcat(a, [s]);
    RecordsOne(s);
  }

  lemma SplitAt<T>(s: seq<T>, i: nat)
    requires i < |s|
    ensures s[..i] + [s[i]] + s[i + 1..] == s
  {
  }

  ghost predicate Increasing(rs: seq<Record>) {
    && (forall i | 0 <= i < |rs| :: GoodTime(rs[i].time))
    && forall i, j | 0 <= i < j < |rs| :: rs[i].time < rs[j].time
  }

  /** Adding an entry to the last live sector adds one record at the end. */
  lemma RecordsAfterAppend(view: seq<Sector>, live: nat, e: Entry)
    requires 0 < live <= |view| && forall i | live <= i < |view| :: view[i].entries == []
    ensures Records(view[live - 1 := view[live - 1].(entries := view[live - 1].entries + [e])])
            == Records(view) + [e.rec]
    ensures Records(view) == Records(view[..live - 1]) + Recs(view[live - 1].entries)
  {
    var s := view[live - 1];
    var s' := s.(entries := s.entries + [e]);
    var view' := view[live - 1 := s'];
    RecordsSplit(view, live - 1);
    RecordsSplit(view', live - 1);
    RecordsOfEmpties(view[live..]);
    assert view'[live..] == view[live..] && view'[..live - 1] == view[..live - 1];
    assert Recs(s'.entries) == Recs(s.entries) + [e.rec];
  }

  /** The newest record is the last entry of the last live sector. */
  lemma NewestRecord(view: seq<Sector>, live: nat)
    requires 0 < live <= |view| && forall i | live <= i < |view| :: view[i].entries == []
    requires view[live - 1].entries != []
    ensures Records(view) != []
    ensures var es := view[live - 1].entries; Records(view)[|Records(view)| - 1] == es[|es| - 1].rec
  {
    RecordsSplit(view, live - 1);
    RecordsOfEmpties(view[live..]);
    var es := view[live - 1].entries;
    var front := Records(view[..live - 1]);
    assert front + Recs(es) + [] == front + Recs(es);
    assert (front + Recs(es))[|front| + |es| - 1] == Recs(es)[|es| - 1];
  }

  /** Changing how a sector is marked does not change what it retains. */
  lemma {:induction false} RecordsIgnoreMarks(view: seq<Sector>, view': seq<Sector>)
    requires |view| == |view'|
    requires forall i | 0 <= i < |view| :: Recs(view[i].entries) == Recs(view'[i].entries)
    ensures Records(view) == Records(view')
    decreases |view|
  {
    if view != [] { RecordsIgnoreMarks(view[..|view| - 1], view'[..|view'| - 1]); }
  }
}
