/** What the iterators of the time-series database visit, sector by sector, and what they ought to visit. */
module TsdbQuery {
  import opened Bytes
  import opened TsdbLayout
  import opened TsdbRing
  import opened TsdbState

  ghost predicate Fits(size: nat, view: seq<Sector>) {
    forall i | 0 <= i < |view| :: Used(view[i].entries) <= size
  }

  /** The log objects of one sector, in index order. */
  function Tsls(base: nat, size: nat, es: seq<Entry>): (r: seq<Tsl>)
    requires Used(es) <= size
    ensures |r| == |es| && forall j | 0 <= j < |es| :: r[j] == TslOf(base, size, es, j)
  {
    seq(|es|, j requires 0 <= j < |es| => TslOf(base, size, es, j))
  }

  function Visit(size: nat, n: nat, im: Image, i: nat): seq<Tsl>
    requires im.oldest < n == |im.view| && i < n && Used(im.view[i].entries) <= size
  {
    Tsls(Base(size, Phys(n, im.oldest, i)), size, im.view[i].entries)
  }

  /** The log objects of the m oldest sectors, oldest first. */
  ghost function Visits(size: nat, n: nat, im: Image, m: nat): seq<Tsl>
    requires im.oldest < n == |im.view| && Fits(size, im.view) && m <= n
  {
    if m == 0 then [] else Visits(size, n, im, m - 1) + Visit(size, n, im, m - 1)
  }

  function Reverse<T>(s: seq<T>): (r: seq<T>)
    ensures |r| == |s| && forall k | 0 <= k < |s| :: r[k] == s[|s| - 1 - k]
  {
    seq(|s|, k requires 0 <= k < |s| => s[|s| - 1 - k])
  }

  lemma ReverseConcat<T>(a: seq<T>, b: seq<T>)
    ensures Reverse(a + b) == Reverse(b) + Reverse(a)
  {
  }

  /** The t-th sector of a walk: upwards from the oldest, or downwards from the one being written. */
  function Stop(n: nat, im: Image, up: bool, t: nat): (i: nat)
    requires im.live <= n && t < n
    ensures i < n
  {
    var c := if im.live > 0 then im.live - 1 else 0;
    if up then t else if t <= c then c - t else c - t + n
  }

  ghost function VisitDir(size: nat, n: nat, im: Image, up: bool, t: nat): seq<Tsl>
    requires im.oldest < n == |im.view| && Fits(size, im.view) && im.live <= n && t < n
  {
    var v := Visit(size, n, im, Stop(n, im, up, t));
    if up then v else Reverse(v)
  }

  /** Everything a walk passes in its first t sectors. */
  ghost function Walk(size: nat, n: nat, im: Image, up: bool, t: nat): seq<Tsl>
    requires im.oldest < n == |im.view| && Fits(size, im.view) && im.live <= n && t <= n
  {
    if t == 0 then [] else Walk(size, n, im, up, t - 1) + VisitDir(size, n, im, up, t - 1)
  }

  lemma {:induction false} UpWalkIsVisits(size: nat, n: nat, im: Image, t: nat)
    requires im.oldest < n == |im.view| && Fits(size, im.view) && im.live <= n && t <= n
    ensures Walk(size, n, im, true, t) == Visits(size, n, im, t)
  {
    if t > 0 { UpWalkIsVisits(size, n, im, t - 1); }
  }

  lemma {:induction false} DownWalkBuilds(size: nat, n: nat, im: Image, t: nat)
    requires im.oldest < n == |im.view| && Fits(size, im.view) && im.live <= n
    requires t <= im.live
    ensures Walk(size, n, im, false, t) + Reverse(Visits(size, n, im, im.live - t))
            == Reverse(Visits(size, n, im, im.live))
  {
    hide Used, Tsls, TslOf, Visit, Reverse;
    if t > 0 {
      DownWalkBuilds(size, n, im, t - 1);
      assert Stop(n, im, false, t - 1) == im.live - t;
      ReverseConcat(Visits(size, n, im, im.live - t), Visit(size, n, im, im.live - t));
      ConcatAssoc(Walk(size, n, im, false, t - 1), Reverse(Visit(size, n, im, im.live - t)),
                  Reverse(Visits(size, n, im, im.live - t)));
    }
  }

  lemma ConcatAssoc<T>(a: seq<T>, b: seq<T>, c: seq<T>)
    ensures a + (b + c) == (a + b) + c
  {
  }

  lemma {:induction false} WalkPastLive(size: nat, n: nat, im: Image, up: bool, t: nat)
    requires im.oldest < n == |im.view| && Fits(size, im.view) && im.live <= t <= n
    requires forall i | im.live <= i < n :: im.view[i] == EMPTY_SECTOR
    ensures Walk(size, n, im, up, t) == Walk(size, n, im, up, im.live)
  {
    hide Used, Fits, TslOf;
    if t > im.live {
      WalkPastLive(size, n, im, up, t - 1);
      assert im.view[Stop(n, im, up, t - 1)] == EMPTY_SECTOR;
      assert VisitDir(size, n, im, up, t - 1) == [];
    }
  }

  /** A walk down the whole ring passes exactly the reverse of what a walk up passes. */
  lemma DownIsReverseOfUp(size: nat, n: nat, im: Image)
    requires im.oldest < n == |im.view| && Fits(size, im.view) && im.live <= n
    requires forall i | im.live <= i < n :: im.view[i] == EMPTY_SECTOR
    ensures Walk(size, n, im, false, n) == Reverse(Walk(size, n, im, true, n))
    ensures Walk(size, n, im, true, n) == Visits(size, n, im, n)
  {
    WalkPastLive(size, n, im, true, n);
    WalkPastLive(size, n, im, false, n);
    UpWalkIsVisits(size, n, im, im.live);
    UpWalkIsVisits(size, n, im, n);
    DownWalkBuilds(size, n, im, im.live);
    assert Reverse(Visits(size, n, im, 0)) == [];
  }

  /** The k-th visited log object stands for the k-th retained record: same time, and its data address and
      length locate exactly the record's bytes in flash. */
  ghost predicate Represents(mem: seq<byte>, t: Tsl, r: Record) {
    t.time == r.time && t.log + t.logLen <= |mem| && mem[t.log..t.log + t.logLen] == r.blob
  }

  lemma {:induction false} VisitsMatchRecords(mem: seq<byte>, size: nat, n: nat, im: Image, m: nat)
    requires BytesHold(mem, size, n, im.oldest, im.view) && Fits(size, im.view) && m <= n
    ensures |Visits(size, n, im, m)| == |Records(im.view[..m])|
    ensures forall k | 0 <= k < |Visits(size, n, im, m)| ::
              Represents(mem, Visits(size, n, im, m)[k], Records(im.view[..m])[k])
  {
    hide Holds, Represents;
    if m > 0 {
      VisitsMatchRecords(mem, size, n, im, m - 1);
      assert im.view[..m][..m - 1] == im.view[..m - 1];
      var a, b := Visits(size, n, im, m - 1), Visit(size, n, im, m - 1);
      forall k | 0 <= k < |a + b|
        ensures Represents(mem, (a + b)[k], (Records(im.view[..m - 1]) + Recs(im.view[m - 1].entries))[k])
      {
        if k >= |a| {
          SectorRepresents(mem, Base(size, Phys(n, im.oldest, m - 1)), size, im.view[m - 1], k - |a|);
        }
      }
    }
  }

  lemma SectorRepresents(mem: seq<byte>, base: nat, size: nat, sec: Sector, j: nat)
    requires Holds(mem, base, size, sec) && j < |sec.entries|
    ensures Represents(mem, TslOf(base, size, sec.entries, j), sec.entries[j].rec)
  {
    EntryReadsBack(mem, base, size, sec, j, 0);
  }

  /** A whole forward iteration visits the retained suffix of the log, each record once and in order. */
  lemma IterationIsLogSuffix(mem: seq<byte>, size: nat, n: nat, im: Image)
    requires Quiet(mem, size, n, im)
    ensures Fits(size, im.view)
    ensures var v := Visits(size, n, im, n);
            && |v| == |im.log| - im.dropped
            && (forall k | 0 <= k < |v| :: Represents(mem, v[k], im.log[im.dropped + k]))
            && (forall k, l | 0 <= k < l < |v| :: v[k].time < v[l].time)
  {
    hide Holds;
    FitsFromBytes(mem, size, n, im);
    VisitsMatchRecords(mem, size, n, im, n);
    assert im.view[..n] == im.view;
    var v := Visits(size, n, im, n);
    forall k | 0 <= k < |v| ensures Represents(mem, v[k], im.log[im.dropped + k]) {
      assert im.log[im.dropped..][k] == im.log[im.dropped + k];
    }
  }

  lemma FitsFromBytes(mem: seq<byte>, size: nat, n: nat, im: Image)
    requires BytesHold(mem, size, n, im.oldest, im.view)
    ensures Fits(size, im.view)
  {
    forall i | 0 <= i < n ensures Used(im.view[i].entries) <= size {
      assert Holds(mem, Base(size, Phys(n, im.oldest, i)), size, im.view[i]);
    }
  }

  // Callbacks

  /** What a callback sees of s when returning true interrupts the iteration. */
  function Until(cb: Tsl -> bool, s: seq<Tsl>): seq<Tsl> {
    if s == [] then [] else if cb(s[0]) then [s[0]] else [s[0]] + Until(cb, s[1..])
  }

  ghost predicate NoneStops(cb: Tsl -> bool, s: seq<Tsl>) {
    forall x | x in s :: !cb(x)
  }

  lemma {:induction false} UntilPasses(cb: Tsl -> bool, a: seq<Tsl>, b: seq<Tsl>)
    requires NoneStops(cb, a)
    ensures Until(cb, a + b) == a + Until(cb, b)
  {
    if a == [] {
      assert a + b == b;
    } else {
      assert (a + b)[1..] == a[1..] + b;
      UntilPasses(cb, a[1..], b);
    }
  }

  lemma UntilStops(cb: Tsl -> bool, a: seq<Tsl>, x: Tsl, b: seq<Tsl>)
    requires NoneStops(cb, a) && cb(x)
    ensures Until(cb, a + [x] + b) == a + [x]
  {
    assert a + [x] + b == a + ([x] + b);
    UntilPasses(cb, a, [x] + b);
  }

  lemma UntilAll(cb: Tsl -> bool, a: seq<Tsl>)
    requires NoneStops(cb, a)
    ensures Until(cb, a) == a
  {
    UntilPasses(cb, a, []);
    assert a + [] == a;
  }

  /** Once the callback stops inside b, nothing behind b matters. */
  lemma {:induction false} UntilStopsWithin(cb: Tsl -> bool, a: seq<Tsl>, b: seq<Tsl>, rest: seq<Tsl>)
    requires NoneStops(cb, a) && !NoneStops(cb, b)
    ensures Until(cb, a + b + rest) == a + Until(cb, b)
    decreases |b|
  {
    if cb(b[0]) {
      assert a + b + rest == a + [b[0]] + (b[1..] + rest);
      UntilStops(cb, a, b[0], b[1..] + rest);
    } else {
      assert a + b + rest == (a + [b[0]]) + b[1..] + rest;
      UntilStopsWithin(cb, a + [b[0]], b[1..], rest);
      assert (a + [b[0]]) + Until(cb, b[1..]) == a + ([b[0]] + Until(cb, b[1..]));
    }
  }

  /** Where the t-th stop of a walk lies, and how the address walks get to the next one. */
  lemma StopAddr(size: nat, n: nat, im: Image, up: bool, t: nat)
    requires 0 < size && im.oldest < n && im.live <= n && t < n && Base(size, n) < FAILED
    ensures var a := Base(size, Phys(n, im.oldest, Stop(n, im, up, t)));
            var next := if up then NextSectorAddr(size, Base(size, n), a, Base(size, t + 1))
                        else LastSectorAddr(size, Base(size, n), a, Base(size, t + 1));
            && size <= Base(size, n) && a + size <= Base(size, n)
            && Base(size, t) + size == Base(size, t + 1)
            && next == if t + 1 < n then Base(size, Phys(n, im.oldest, Stop(n, im, up, t + 1))) else FAILED
  {
    var k := Phys(n, im.oldest, Stop(n, im, up, t));
    SectorWalk(size, n, k, t);
    SectorWalk(size, n, k, t + 1);
  }

  // Queries by time

  function Lo(from: int, to: int): int { if from <= to then from else to }
  function Hi(from: int, to: int): int { if from <= to then to else from }

  function InWindow(s: seq<Tsl>, lo: int, hi: int): seq<Tsl> {
    if s == [] then [] else (if lo <= s[0].time <= hi then [s[0]] else []) + InWindow(s[1..], lo, hi)
  }

  lemma {:induction false} WindowHolds(s: seq<Tsl>, lo: int, hi: int)
    ensures forall x :: x in InWindow(s, lo, hi) <==> x in s && lo <= x.time <= hi
  {
    if s != [] {
      WindowHolds(s[1..], lo, hi);
      assert s == [s[0]] + s[1..];
    }
  }

  /** The number of leading entries earlier than `from`. */
  function FirstAtLeast(es: seq<Entry>, from: int): (p: nat)
    ensures p <= |es|
    ensures forall j | 0 <= j < p :: es[j].rec.time < from
    ensures p < |es| ==> es[p].rec.time >= from
  {
    if es == [] || es[0].rec.time >= from then 0 else 1 + FirstAtLeast(es[1..], from)
  }

  lemma {:induction false} FirstUnique(es: seq<Entry>, a: nat, from: int)
    requires a <= |es|
    requires forall j | 0 <= j < a :: es[j].rec.time < from
    requires a < |es| ==> es[a].rec.time >= from
    ensures FirstAtLeast(es, from) == a
  {
    if a > 0 { FirstUnique(es[1..], a - 1, from); }
  }

  // What the sixteen bytes of an index entry hold when reading them fails and leaves the buffer as it was.
  type Noise = b: seq<byte> | |b| == IDX witness seq(IDX, i => ERASED)

  const BLANK: Noise := seq(IDX, i => ERASED)

  /** What read_tsl makes of an address that may lie behind the end of the flash. */
  function ReadAs(mem: seq<byte>, a: nat, maxLen: nat, noise: Noise): Tsl {
    if a + IDX <= |mem| then TslAt(mem, a, maxLen) else TslAt(noise, 0, maxLen).(index := a)
  }

  /** What the index position behind the last entry of a sector reads as: the time that the search sees there, and what
      is read when the position is examined. The two differ only if the reading fails. */
  datatype Past = Past(sought: int, seen: Tsl)

  /** The log objects a query examines in one sector, in order: upwards from the first that is not too early;
      downwards from the last that is not too late. A downward query for a time after the whole sector starts
      one index position behind the last entry, at `past`, unless what it reads there is even later. */
  function Candidates(base: nat, size: nat, es: seq<Entry>, past: Past, from: int, to: int): seq<Tsl>
    requires Used(es) <= size
  {
    var all := Tsls(base, size, es);
    if from <= to then all[FirstAtLeast(es, from)..]
    else
      var p := FirstAtLeast(es, from + 1);
      if p < |es| || (es != [] && es[|es| - 1].rec.time == from) || past.sought > from then Reverse(all[..p])
      else [past.seen] + Reverse(all[..p])
  }

  /** Where in the index a query starts in one sector: the index position search_start_tsl_addr returns. */
  function StartIndex(es: seq<Entry>, past: Past, from: int, to: int): int {
    if from <= to then FirstAtLeast(es, from)
    else
      var p := FirstAtLeast(es, from + 1);
      if p < |es| || (es != [] && es[|es| - 1].rec.time == from) || past.sought > from then p - 1 else p
  }

  /** The index position i of a sector, which may be the one behind the last entry. */
  function Item(base: nat, size: nat, es: seq<Entry>, past: Past, i: nat): Tsl
    requires Used(es) <= size && i <= |es|
  {
    if i < |es| then TslOf(base, size, es, i) else past.seen
  }

  /** Candidates, position by position. */
  lemma CandidatesByIndex(base: nat, size: nat, es: seq<Entry>, past: Past, from: int, to: int)
    requires Used(es) <= size && es != []
    requires if from <= to then FirstAtLeast(es, from) < |es| else FirstAtLeast(es, from + 1) > 0
    ensures var c, q := Candidates(base, size, es, past, from, to), StartIndex(es, past, from, to);
            && 0 <= q <= |es| && c != []
            && |c| == (if from <= to then |es| - q else q + 1)
            && forall k | 0 <= k < |c| :: c[k] == Item(base, size, es, past, if from <= to then q + k else q - k)
  {
  }

  /** The same for every sector. A query passes each sector once, so one failing search and one failing look are all
      there can be. */
  ghost function PastOf(mem: seq<byte>, size: nat, n: nat, im: Image, maxLen: nat, search: Noise, look: Noise)
    : (r: seq<Past>)
    requires im.oldest < n == |im.view|
    ensures |r| == n
  {
    seq(n, i requires 0 <= i < n =>
      var a := IndexAddr(Base(size, Phys(n, im.oldest, i)), |im.view[i].entries|);
      Past(ReadAs(mem, a, maxLen, search).time, ReadAs(mem, a, maxLen, look)))
  }

  /** Handing candidates to the callback: unused ones are skipped, the first one outside the window ends the query. */
  function Emit(cb: Tsl -> bool, s: seq<Tsl>, lo: int, hi: int): (seq<Tsl>, bool) {
    if s == [] then ([], false)
    else if s[0].status == UNUSED then Emit(cb, s[1..], lo, hi)
    else if !(lo <= s[0].time <= hi) then ([], true)
    else if cb(s[0]) then ([s[0]], true)
    else var r := Emit(cb, s[1..], lo, hi); ([s[0]] + r.0, r.1)
  }

  /** What has been handed over before position k, then what happens from k on. */
  ghost predicate EmitsFrom(cb: Tsl -> bool, c: seq<Tsl>, lo: int, hi: int, visited: seq<Tsl>, k: nat)
    requires k <= |c|
  {
    var e, r := Emit(cb, c, lo, hi), Emit(cb, c[k..], lo, hi);
    e.0 == visited + r.0 && e.1 == r.1
  }

  lemma EmitStep(cb: Tsl -> bool, c: seq<Tsl>, lo: int, hi: int, visited: seq<Tsl>, k: nat)
    requires k < |c| && EmitsFrom(cb, c, lo, hi, visited, k)
    ensures c[k].status == UNUSED ==> EmitsFrom(cb, c, lo, hi, visited, k + 1)
    ensures c[k].status != UNUSED && !(lo <= c[k].time <= hi) ==> Emit(cb, c, lo, hi) == (visited, true)
    ensures c[k].status != UNUSED && lo <= c[k].time <= hi && cb(c[k])
            ==> Emit(cb, c, lo, hi) == (visited + [c[k]], true)
    ensures c[k].status != UNUSED && lo <= c[k].time <= hi && !cb(c[k])
            ==> EmitsFrom(cb, c, lo, hi, visited + [c[k]], k + 1)
  {
    assert c[k..][1..] == c[k + 1..] && visited + [] == visited;
    var r := Emit(cb, c[k + 1..], lo, hi).0;
    assert visited + ([c[k]] + r) == visited + [c[k]] + r;
  }

  lemma EmitStart(cb: Tsl -> bool, c: seq<Tsl>, lo: int, hi: int)
    ensures EmitsFrom(cb, c, lo, hi, [], 0)
  {
    assert c[0..] == c;
  }

  lemma EmitEnd(cb: Tsl -> bool, c: seq<Tsl>, lo: int, hi: int, visited: seq<Tsl>)
    requires EmitsFrom(cb, c, lo, hi, visited, |c|)
    ensures Emit(cb, c, lo, hi) == (visited, false)
  {
    assert c[|c|..] == [] && visited + [] == visited;
  }

  /** Whether a sector can contain the start of the window. */
  predicate MayStart(sec: Sector, first: bool, from: int, to: int)
    requires sec.entries != []
  {
    var last := sec.entries[|sec.entries| - 1].rec.time;
    if from <= to then (first && from <= sec.start) || from <= last
    else (first && from >= last) || from >= sec.start
  }

  /** What fdb_tsl_iter_by_time hands to the callback from the t-th sector of its walk on. `past(i)` is what the
      index position behind the last entry of sector i reads as. */
  ghost function Query(cb: Tsl -> bool, size: nat, n: nat, im: Image, past: seq<Past>, from: int, to: int, t: nat,
        found: bool): seq<Tsl>
    requires im.oldest < n == |im.view| == |past| && Fits(size, im.view) && im.live <= n && t <= n
    decreases n - t
  {
    if t == n then []
    else
      var i := Stop(n, im, from <= to, t);
      var sec := im.view[i];
      if sec.entries == [] then []
      else if found || MayStart(sec, t == 0, from, to) then
        var e := Emit(cb, Candidates(Base(size, Phys(n, im.oldest, i)), size, sec.entries, past[i], from, to),
              Lo(from, to), Hi(from, to));
        if e.1 then e.0 else e.0 + Query(cb, size, n, im, past, from, to, t + 1, true)
      else Query(cb, size, n, im, past, from, to, t + 1, false)
  }
}
