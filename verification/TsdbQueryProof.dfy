/** A query by time visits exactly the entries of its closed interval. */
module TsdbQueryProof {
  import opened Bytes
  import opened TsdbLayout
  import opened TsdbRing
  import opened TsdbState
  import opened TsdbQuery

  /** Times seen in walking direction: a downward walk is an upward one on negated times. */
  function Key(up: bool, t: int): int { if up then t else -t }

  ghost predicate KeySorted(up: bool, s: seq<Tsl>) {
    forall k, l | 0 <= k < l < |s| :: Key(up, s[k].time) < Key(up, s[l].time)
  }

  ghost predicate SortedEntries(es: seq<Entry>) {
    forall j, k | 0 <= j < k < |es| :: es[j].rec.time < es[k].rec.time
  }

  predicate Inside(t: Tsl, lo: int, hi: int) { lo <= t.time <= hi }

  ghost predicate NotBefore(up: bool, from: int, s: seq<Tsl>) {
    forall k | 0 <= k < |s| :: Key(up, s[k].time) >= Key(up, from)
  }

  ghost predicate AllBefore(up: bool, from: int, s: seq<Tsl>) {
    forall k | 0 <= k < |s| :: Key(up, s[k].time) < Key(up, from)
  }

  lemma {:induction false} InWindowConcat(a: seq<Tsl>, b: seq<Tsl>, lo: int, hi: int)
    ensures InWindow(a + b, lo, hi) == InWindow(a, lo, hi) + InWindow(b, lo, hi)
  {
    if a == [] {
      assert a + b == b;
    } else {
      assert (a + b)[1..] == a[1..] + b;
      InWindowConcat(a[1..], b, lo, hi);
    }
  }

  lemma {:induction false} InWindowNone(s: seq<Tsl>, lo: int, hi: int)
    requires forall k | 0 <= k < |s| :: !Inside(s[k], lo, hi)
    ensures InWindow(s, lo, hi) == []
  {
    if s != [] {
      assert !Inside(s[0], lo, hi);
      forall k | 0 <= k < |s[1..]| ensures !Inside(s[1..][k], lo, hi) { assert s[1..][k] == s[k + 1]; }
      InWindowNone(s[1..], lo, hi);
    }
  }

  ghost predicate OnceOutStaysOut(s: seq<Tsl>, lo: int, hi: int) {
    forall k, l | 0 <= k < l < |s| :: !Inside(s[k], lo, hi) ==> !Inside(s[l], lo, hi)
  }

  ghost predicate AllUsed(s: seq<Tsl>) {
    forall k | 0 <= k < |s| :: s[k].status != UNUSED
  }

  /** Handing over a run of candidates and then the rest, stopping at the first outsider, equals filtering
      everything, provided nothing after an outsider is inside. */
  lemma {:induction false} EmitThenRest(cb: Tsl -> bool, a: seq<Tsl>, rest: seq<Tsl>, lo: int, hi: int)
    requires AllUsed(a) && OnceOutStaysOut(a + rest, lo, hi)
    ensures var e := Emit(cb, a, lo, hi);
            Until(cb, InWindow(a + rest, lo, hi)) == if e.1 then e.0 else e.0 + Until(cb, InWindow(rest, lo, hi))
    decreases |a|
  {
    if a == [] {
      assert a + rest == rest;
    } else {
      var s := a + rest;
      assert s[1..] == a[1..] + rest;
      assert s[0] == a[0];
      if !Inside(a[0], lo, hi) {
        forall k | 0 <= k < |s| ensures !Inside(s[k], lo, hi) {}
        InWindowNone(s, lo, hi);
      } else {
        forall k, l | 0 <= k < l < |s[1..]| && !Inside(s[1..][k], lo, hi) ensures !Inside(s[1..][l], lo, hi) {
          assert s[1..][k] == s[k + 1] && s[1..][l] == s[l + 1];
        }
        EmitThenRest(cb, a[1..], rest, lo, hi);
        var w := InWindow(s[1..], lo, hi);
        assert InWindow(s, lo, hi) == [s[0]] + w;
        assert ([s[0]] + w)[1..] == w;
      }
    }
  }

  /** Sorted and never before the window: once out, always out. */
  lemma SortedStaysOut(up: bool, from: int, to: int, s: seq<Tsl>)
    requires up == (from <= to) && KeySorted(up, s) && NotBefore(up, from, s)
    ensures OnceOutStaysOut(s, Lo(from, to), Hi(from, to))
  {
  }

  /** The tail of a walk from its t-th sector on. */
  ghost function Rest(size: nat, n: nat, im: Image, up: bool, t: nat): seq<Tsl>
    requires im.oldest < n == |im.view| && Fits(size, im.view) && im.live <= n && t <= n
    decreases n - t
  {
    if t == n then [] else VisitDir(size, n, im, up, t) + Rest(size, n, im, up, t + 1)
  }

  lemma {:induction false} WalkPlusRest(size: nat, n: nat, im: Image, up: bool, t: nat)
    requires im.oldest < n == |im.view| && Fits(size, im.view) && im.live <= n && t <= n
    ensures Walk(size, n, im, up, t) + Rest(size, n, im, up, t) == Walk(size, n, im, up, n)
    decreases n - t
  {
    if t == n {
      assert Walk(size, n, im, up, n) + [] == Walk(size, n, im, up, n);
    } else {
      WalkPlusRest(size, n, im, up, t + 1);
      ConcatAssoc(Walk(size, n, im, up, t), VisitDir(size, n, im, up, t), Rest(size, n, im, up, t + 1));
    }
  }

  /** From an empty sector on, a walk meets only empty sectors. */
  lemma {:induction false} RestOfEmpties(size: nat, n: nat, im: Image, up: bool, t: nat)
    requires im.oldest < n == |im.view| && Fits(size, im.view) && im.live <= t <= n
    requires forall i | im.live <= i < n :: im.view[i] == EMPTY_SECTOR
    ensures Rest(size, n, im, up, t) == []
    decreases n - t
  {
    if t < n {
      RestOfEmpties(size, n, im, up, t + 1);
      assert im.view[Stop(n, im, up, t)] == EMPTY_SECTOR;
    }
  }

  /** How many entries of a sector, in walking direction, lie before the window. */
  function Skipped(up: bool, es: seq<Entry>, from: int): (m: nat)
    ensures m <= |es|
  {
    if up then FirstAtLeast(es, from) else |es| - FirstAtLeast(es, from + 1)
  }

  /** The candidates of a sector are its entries from the first that is not before the window on,
      possibly with the unused position behind the last entry in front. */
  lemma CandidatesAreTail(base: nat, size: nat, es: seq<Entry>, past: Past, from: int, to: int)
    requires Used(es) <= size && SortedEntries(es)
    ensures var up := from <= to;
            var v := if up then Tsls(base, size, es) else Reverse(Tsls(base, size, es));
            var m := Skipped(up, es, from);
            && AllBefore(up, from, v[..m]) && NotBefore(up, from, v[m..])
            && (Candidates(base, size, es, past, from, to) == v[m..]
              || Candidates(base, size, es, past, from, to) == [past.seen] + v[m..])
  {
    if from <= to {
      UpTail(base, size, es, from);
    } else {
      DownTail(base, size, es, from);
      TakeReversed(Tsls(base, size, es), FirstAtLeast(es, from + 1));
    }
  }

  lemma TakeReversed<T>(s: seq<T>, p: nat)
    requires p <= |s|
    ensures Reverse(s[..p]) == Reverse(s)[|s| - p..]
  {
  }

  lemma UpTail(base: nat, size: nat, es: seq<Entry>, from: int)
    requires Used(es) <= size && SortedEntries(es)
    ensures var v, m := Tsls(base, size, es), FirstAtLeast(es, from);
            AllBefore(true, from, v[..m]) && NotBefore(true, from, v[m..])
  {
    hide Used;
    var v, m := Tsls(base, size, es), FirstAtLeast(es, from);
    forall k | 0 <= k < |v[m..]| ensures v[m..][k].time >= from {
      assert v[m..][k].time == es[m + k].rec.time;
    }
  }

  lemma DownTail(base: nat, size: nat, es: seq<Entry>, from: int)
    requires Used(es) <= size && SortedEntries(es)
    ensures var v, p := Reverse(Tsls(base, size, es)), FirstAtLeast(es, from + 1);
            AllBefore(false, from, v[..|es| - p]) && NotBefore(false, from, v[|es| - p..])
  {
    hide Used, Tsls;
    var v, p := Reverse(Tsls(base, size, es)), FirstAtLeast(es, from + 1);
    forall k | 0 <= k < |es| ensures v[k].time == es[|es| - 1 - k].rec.time {}
    var b, a := v[..|es| - p], v[|es| - p..];
    forall k | 0 <= k < |b| ensures b[k].time > from { assert b[k] == v[k]; }
    forall k | 0 <= k < |a| ensures a[k].time <= from { assert a[k] == v[|es| - p + k]; }
  }

  /** One processed sector: what is handed over from it and from the rest. */
  lemma SectorEmits(cb: Tsl -> bool, base: nat, size: nat, es: seq<Entry>, past: Past, from: int, to: int,
        rest: seq<Tsl>)
    requires Used(es) <= size && SortedEntries(es) && past.seen.status == UNUSED
    requires forall j | 0 <= j < |es| :: es[j].status != UNUSED
    requires var up := from <= to;
             var v := if up then Tsls(base, size, es) else Reverse(Tsls(base, size, es));
             KeySorted(up, v + rest) && NotBefore(up, from, rest)
    ensures var up := from <= to;
            var v := if up then Tsls(base, size, es) else Reverse(Tsls(base, size, es));
            var e := Emit(cb, Candidates(base, size, es, past, from, to), Lo(from, to), Hi(from, to));
            Until(cb, InWindow(v + rest, Lo(from, to), Hi(from, to))) ==
            if e.1 then e.0 else e.0 + Until(cb, InWindow(rest, Lo(from, to), Hi(from, to)))
  {
    hide Emit, Until, InWindow, Candidates, TslOf, Used, FirstAtLeast;
    var up := from <= to;
    var v := if up then Tsls(base, size, es) else Reverse(Tsls(base, size, es));
    var m := Skipped(up, es, from);
    CandidatesAreTail(base, size, es, past, from, to);
    assert v[..m] + v[m..] == v;
    assert AllUsed(v[m..]) by { TslsUsed(base, size, es, up, m); }
    TailEmits(cb, v[..m], v[m..], rest, from, to);
    EmitSkipsUnused(cb, past.seen, v[m..], Lo(from, to), Hi(from, to));
  }

  lemma TslsUsed(base: nat, size: nat, es: seq<Entry>, up: bool, m: nat)
    requires Used(es) <= size && m <= |es| && forall j | 0 <= j < |es| :: es[j].status != UNUSED
    ensures AllUsed((if up then Tsls(base, size, es) else Reverse(Tsls(base, size, es)))[m..])
  {
    var all := Tsls(base, size, es);
    forall j | 0 <= j < |es| ensures all[j].status != UNUSED {}
  }

  lemma EmitSkipsUnused(cb: Tsl -> bool, past: Tsl, a: seq<Tsl>, lo: int, hi: int)
    requires past.status == UNUSED
    ensures Emit(cb, [past] + a, lo, hi) == Emit(cb, a, lo, hi)
  {
    assert ([past] + a)[1..] == a;
  }

  /** A stretch before the window, then a sorted one that is not: only the latter and the rest matter. */
  lemma TailEmits(cb: Tsl -> bool, b: seq<Tsl>, a: seq<Tsl>, rest: seq<Tsl>, from: int, to: int)
    requires AllUsed(a)
    requires var up := from <= to;
             AllBefore(up, from, b) && NotBefore(up, from, a) && NotBefore(up, from, rest)
               && KeySorted(up, b + a + rest)
    ensures var lo, hi := Lo(from, to), Hi(from, to);
            var e := Emit(cb, a, lo, hi);
            Until(cb, InWindow(b + a + rest, lo, hi)) == if e.1 then e.0 else e.0 + Until(cb, InWindow(rest, lo, hi))
  {
    hide Emit, Until;
    var up, lo, hi := from <= to, Lo(from, to), Hi(from, to);
    ConcatAssoc(b, a, rest);
    InWindowConcat(b, a + rest, lo, hi);
    forall k | 0 <= k < |b| ensures !Inside(b[k], lo, hi) {}
    InWindowNone(b, lo, hi);
    SuffixSorted(up, b, a + rest);
    forall k | 0 <= k < |a + rest| ensures Key(up, (a + rest)[k].time) >= Key(up, from) {}
    SortedStaysOut(up, from, to, a + rest);
    EmitThenRest(cb, a, rest, lo, hi);
    assert [] + InWindow(a + rest, lo, hi) == InWindow(a + rest, lo, hi);
  }

  lemma SuffixSorted(up: bool, a: seq<Tsl>, b: seq<Tsl>)
    requires KeySorted(up, a + b)
    ensures KeySorted(up, b)
    ensures forall k, l | 0 <= k < |a| && 0 <= l < |b| :: Key(up, a[k].time) < Key(up, b[l].time)
  {
    forall k, l | 0 <= k < l < |b| ensures Key(up, b[k].time) < Key(up, b[l].time) {
      assert (a + b)[|a| + k] == b[k] && (a + b)[|a| + l] == b[l];
    }
    forall k, l | 0 <= k < |a| && 0 <= l < |b| ensures Key(up, a[k].time) < Key(up, b[l].time) {
      assert (a + b)[k] == a[k] && (a + b)[|a| + l] == b[l];
    }
  }

  /** What the query proof needs to know about an image. */
  ghost predicate Queryable(size: nat, n: nat, im: Image) {
    && im.oldest < n == |im.view| && Fits(size, im.view) && im.live <= n && Settled(im.view, im.live)
    && (forall i | im.live <= i < n :: im.view[i] == EMPTY_SECTOR)
    && (forall i | 0 <= i < n :: SortedEntries(im.view[i].entries))
    && (forall i, j | 0 <= i < n && 0 <= j < |im.view[i].entries| :: im.view[i].entries[j].status != UNUSED)
  }

  lemma {:induction false} QueryFilters(cb: Tsl -> bool, size: nat, n: nat, im: Image, past: seq<Past>, from: int,
        to: int, t: nat, found: bool)
    requires Queryable(size, n, im) && |past| == n && t <= n
    requires from > to ==> forall i | 0 <= i < n && im.view[i].entries != [] :: past[i].seen.status == UNUSED
    requires KeySorted(from <= to, Rest(size, n, im, from <= to, t))
    requires found ==> NotBefore(from <= to, from, Rest(size, n, im, from <= to, t))
    ensures Query(cb, size, n, im, past, from, to, t, found) ==
            Until(cb, InWindow(Rest(size, n, im, from <= to, t), Lo(from, to), Hi(from, to)))
    decreases n - t
  {
    hide Emit, Until, InWindow, Candidates, Used, VisitDir, Fits, FirstAtLeast, KeySorted, NotBefore, SortedEntries,
         Settled, Base, Phys, TslOf;
    var up := from <= to;
    if t < n {
      var i := Stop(n, im, up, t);
      var sec := im.view[i];
      var v, rest := VisitDir(size, n, im, up, t), Rest(size, n, im, up, t + 1);
      if sec.entries == [] {
        EmptyFromHere(size, n, im, up, t);
        assert InWindow([], Lo(from, to), Hi(from, to)) == []
               && Until(cb, []) == [] by { NothingToVisit(cb, Lo(from, to), Hi(from, to)); }
      } else {
        SuffixSorted(up, v, rest);
        EndsOf(size, n, im, up, t);
        if found || MayStart(sec, t == 0, from, to) {
          RestNotBefore(up, from, v, rest, found);
          QueryFilters(cb, size, n, im, past, from, to, t + 1, true);
          SectorOfWalkEmits(cb, size, n, im, past, from, to, t);
        } else {
          QueryFilters(cb, size, n, im, past, from, to, t + 1, false);
          SectorSkipped(v, rest, from, to);
        }
      }
    } else {
      NothingToVisit(cb, Lo(from, to), Hi(from, to));
    }
  }

  lemma NothingToVisit(cb: Tsl -> bool, lo: int, hi: int)
    ensures Until(cb, InWindow([], lo, hi)) == [] && InWindow([], lo, hi) == [] && Until(cb, []) == []
  {
  }

  lemma EmptyFromHere(size: nat, n: nat, im: Image, up: bool, t: nat)
    requires Queryable(size, n, im) && t < n && im.view[Stop(n, im, up, t)].entries == []
    ensures Rest(size, n, im, up, t) == []
  {
    assert t >= im.live;
    RestOfEmpties(size, n, im, up, t);
  }

  lemma RestNotBefore(up: bool, from: int, v: seq<Tsl>, rest: seq<Tsl>, found: bool)
    requires v != [] && KeySorted(up, v + rest)
    requires found ==> NotBefore(up, from, v + rest)
    requires !found ==> Key(up, v[|v| - 1].time) >= Key(up, from)
    ensures NotBefore(up, from, rest)
  {
    SuffixSorted(up, v, rest);
    forall k | 0 <= k < |rest| ensures Key(up, rest[k].time) >= Key(up, from) {
      if found { assert (v + rest)[|v| + k] == rest[k]; }
    }
  }

  lemma SectorSkipped(v: seq<Tsl>, rest: seq<Tsl>, from: int, to: int)
    requires v != [] && KeySorted(from <= to, v + rest) && Key(from <= to, v[|v| - 1].time) < Key(from <= to, from)
    ensures InWindow(v + rest, Lo(from, to), Hi(from, to)) == InWindow(rest, Lo(from, to), Hi(from, to))
  {
    var up, lo, hi := from <= to, Lo(from, to), Hi(from, to);
    InWindowConcat(v, rest, lo, hi);
    forall k | 0 <= k < |v| ensures !Inside(v[k], lo, hi) {
      assert (v + rest)[k] == v[k] && (v + rest)[|v| - 1] == v[|v| - 1];
    }
    InWindowNone(v, lo, hi);
    assert [] + InWindow(rest, lo, hi) == InWindow(rest, lo, hi);
  }

  lemma SectorOfWalkEmits(cb: Tsl -> bool, size: nat, n: nat, im: Image, past: seq<Past>, from: int, to: int, t: nat)
    requires Queryable(size, n, im) && |past| == n && t < n
    requires var i := Stop(n, im, from <= to, t);
             im.view[i].entries != [] && (from > to ==> past[i].seen.status == UNUSED)
    requires KeySorted(from <= to, Rest(size, n, im, from <= to, t))
    requires NotBefore(from <= to, from, Rest(size, n, im, from <= to, t + 1))
    ensures var i := Stop(n, im, from <= to, t);
            var lo, hi := Lo(from, to), Hi(from, to);
            var e := Emit(cb, Candidates(Base(size, Phys(n, im.oldest, i)), size, im.view[i].entries, past[i], from,
                  to), lo, hi);
            Until(cb, InWindow(Rest(size, n, im, from <= to, t), lo, hi)) ==
            if e.1 then e.0 else e.0 + Until(cb, InWindow(Rest(size, n, im, from <= to, t + 1), lo, hi))
  {
    hide Emit, Until, InWindow, Used, FirstAtLeast, TslOf;
    var i := Stop(n, im, from <= to, t);
    var base, es := Base(size, Phys(n, im.oldest, i)), im.view[i].entries;
    var p := if from <= to then Past(0, Tsl(UNUSED, 0, 0, 0, 0)) else past[i];
    assert Candidates(base, size, es, past[i], from, to) == Candidates(base, size, es, p, from, to);
    SectorEmits(cb, base, size, es, p, from, to, Rest(size, n, im, from <= to, t + 1));
  }

  /** The last log object a walk meets in a sector is the newest going up and the oldest going down. */
  lemma EndsOf(size: nat, n: nat, im: Image, up: bool, t: nat)
    requires Queryable(size, n, im) && t < n && im.view[Stop(n, im, up, t)].entries != []
    ensures var sec := im.view[Stop(n, im, up, t)];
            var v := VisitDir(size, n, im, up, t);
            && |v| == |sec.entries|
            && v[|v| - 1].time == (if up then sec.entries[|sec.entries| - 1].rec.time else sec.start)
            && v[0].time == (if up then sec.start else sec.entries[|sec.entries| - 1].rec.time)
            && sec.start <= sec.entries[|sec.entries| - 1].rec.time
  {
    var i := Stop(n, im, up, t);
    assert i < im.live;
  }

  /** A query visits, in walking order, exactly the retained entries whose time lies in the closed interval,
      up to and including the first at which the callback asks to stop. Downward queries need every unused
      position behind a sector's last entry to read as unused. */
  lemma QueryIsWindow(cb: Tsl -> bool, mem: seq<byte>, size: nat, n: nat, im: Image, past: seq<Past>, from: int,
        to: int)
    requires Quiet(mem, size, n, im) && |past| == n
    requires from > to ==> forall i | 0 <= i < n && im.view[i].entries != [] :: past[i].seen.status == UNUSED
    ensures Fits(size, im.view)
    ensures var all := Visits(size, n, im, n);
            Query(cb, size, n, im, past, from, to, 0, false) ==
            Until(cb, InWindow(if from <= to then all else Reverse(all), Lo(from, to), Hi(from, to)))
  {
    hide Holds, Query, InWindow, Until, Records, Settled, Increasing, KeySorted, Reverse, Visits, Fits, Quiet;
    var up := from <= to;
    QuietIsQueryable(mem, size, n, im);
    WholeRest(size, n, im, up);
    SortedRest(mem, size, n, im, up, 0);
    QueryFilters(cb, size, n, im, past, from, to, 0, false);
  }

  /** A whole walk passes everything the ring retains, in its direction. */
  lemma WholeRest(size: nat, n: nat, im: Image, up: bool)
    requires Queryable(size, n, im)
    ensures Rest(size, n, im, up, 0) == if up then Visits(size, n, im, n) else Reverse(Visits(size, n, im, n))
  {
    hide Fits, Reverse, Visits, Rest, VisitDir, Stop;
    DownIsReverseOfUp(size, n, im);
    WalkPlusRest(size, n, im, up, 0);
    assert [] + Rest(size, n, im, up, 0) == Rest(size, n, im, up, 0);
  }

  lemma SortedRest(mem: seq<byte>, size: nat, n: nat, im: Image, up: bool, t: nat)
    requires Quiet(mem, size, n, im) && Fits(size, im.view) && im.live <= n && t <= n
    ensures KeySorted(up, Rest(size, n, im, up, t))
  {
    hide Holds, Records, Fits, Settled, Represents;
    DownIsReverseOfUp(size, n, im);
    IterationIsLogSuffix(mem, size, n, im);
    VisitsSorted(up, Visits(size, n, im, n));
    WalkPlusRest(size, n, im, up, t);
    SuffixSorted(up, Walk(size, n, im, up, t), Rest(size, n, im, up, t));
  }

  lemma VisitsSorted(up: bool, v: seq<Tsl>)
    requires forall k, l | 0 <= k < l < |v| :: v[k].time < v[l].time
    ensures KeySorted(up, if up then v else Reverse(v))
  {
  }

  lemma QuietIsQueryable(mem: seq<byte>, size: nat, n: nat, im: Image)
    requires Quiet(mem, size, n, im)
    ensures Queryable(size, n, im)
  {
    FitsFromBytes(mem, size, n, im);
    forall i | 0 <= i < n
      ensures SortedEntries(im.view[i].entries)
      ensures forall j | 0 <= j < |im.view[i].entries| :: im.view[i].entries[j].status != UNUSED
    {
      SectorSorted(mem, size, n, im, i);
    }
  }

  lemma SectorSorted(mem: seq<byte>, size: nat, n: nat, im: Image, i: nat)
    requires Quiet(mem, size, n, im) && i < n
    ensures SortedEntries(im.view[i].entries)
    ensures forall j | 0 <= j < |im.view[i].entries| :: im.view[i].entries[j].status != UNUSED
  {
    var es := im.view[i].entries;
    forall j | 0 <= j < |es| ensures es[j].status != UNUSED {
      assert Holds(mem, Base(size, Phys(n, im.oldest, i)), size, im.view[i]);
      assert EntryAt(mem, Base(size, Phys(n, im.oldest, i)), size, es, j);
    }
    SortedInRecords(im.view, i, im.log, im.dropped);
  }

  lemma SortedInRecords(view: seq<Sector>, i: nat, log: seq<Record>, dropped: nat)
    requires i < |view| && Increasing(log) && dropped <= |log| && Records(view) == log[dropped..]
    ensures SortedEntries(view[i].entries)
  {
    hide Records;
    RecordsSplit(view, i);
    var a, es := Records(view[..i]), view[i].entries;
    forall j, k | 0 <= j < k < |es| ensures es[j].rec.time < es[k].rec.time {
      var all := log[dropped..];
      assert all[|a| + j] == Recs(es)[j] && all[|a| + k] == Recs(es)[k];
      assert all[|a| + j] == log[dropped + (|a| + j)] && all[|a| + k] == log[dropped + (|a| + k)];
    }
  }
}
