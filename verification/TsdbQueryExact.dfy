/** Exactly when a downward query is right although it reads one index position behind each sector's entries. */
module TsdbQueryExact {
  import opened Bytes
  import opened TsdbLayout
  import opened TsdbRing
  import opened TsdbState
  import opened TsdbQuery
  import opened TsdbQueryProof

  /** A callback that never interrupts, as that of fdb_tsl_query_count. */
  predicate Never(t: Tsl) { false }

  /** The search for `from` in this sector ends on the position behind the last entry, and what is read there
      passes for an entry. Only a sector filled to its last byte can do this. */
  predicate Misled(sec: Sector, past: Past, from: int) {
    && sec.entries != [] && sec.entries[|sec.entries| - 1].rec.time < from
    && past.sought <= from && past.seen.status != UNUSED
  }

  /** Sector i is reached, its search is misled, and that matters: the bogus entry is handed over itself,
      or it ends the query before an entry that should have been visited. */
  ghost predicate Harmful(im: Image, past: seq<Past>, from: int, to: int, i: nat)
    requires im.live <= |im.view| == |past|
  {
    && i < im.live && Misled(im.view[i], past[i], from)
    && (to <= past[i].seen.time <= from || im.view[i].entries[|im.view[i].entries| - 1].rec.time >= to)
    && (i + 1 < im.live ==> im.view[i + 1].start >= to)
  }

  lemma {:induction false} UntilNever(s: seq<Tsl>)
    ensures Until(Never, s) == s
  {
    if s != [] {
      UntilNever(s[1..]);
      assert [s[0]] + s[1..] == s;
    }
  }

  lemma {:induction false} EmitNever(a: seq<Tsl>, lo: int, hi: int)
    requires AllUsed(a)
    ensures Emit(Never, a, lo, hi).1 <==> exists k | 0 <= k < |a| :: !Inside(a[k], lo, hi)
  {
    if a != [] {
      EmitNever(a[1..], lo, hi);
      if Inside(a[0], lo, hi) {
        if Emit(Never, a[1..], lo, hi).1 {
          var k :| 0 <= k < |a[1..]| && !Inside(a[1..][k], lo, hi);
          assert !Inside(a[k + 1], lo, hi);
        } else {
          forall k | 0 <= k < |a| ensures Inside(a[k], lo, hi) {
            if k > 0 { assert a[1..][k - 1] == a[k]; }
          }
        }
      }
    }
  }

  /** Candidates of a sector whose search is not misled are harmless: they equal those with an unused position. */
  lemma HarmlessPast(base: nat, size: nat, sec: Sector, past: Past, from: int, to: int) returns (p: Past)
    requires Used(sec.entries) <= size && sec.entries != [] && SortedEntries(sec.entries) && from > to
    requires !Misled(sec, past, from)
    ensures p.seen.status == UNUSED
    ensures Candidates(base, size, sec.entries, past, from, to) == Candidates(base, size, sec.entries, p, from, to)
  {
    var es := sec.entries;
    if past.seen.status == UNUSED {
      p := past;
    } else {
      p := Past(from + 1, Tsl(UNUSED, 0, 0, 0, 0));
      var k := FirstAtLeast(es, from + 1);
      assert k == |es| ==> es[|es| - 1].rec.time < from + 1;
    }
  }

  /** A processed sector that does not mislead: the query leaves it exactly if it reaches below `to`, and hands
      over its entries inside the window. */
  lemma SectorRight(base: nat, size: nat, sec: Sector, past: Past, from: int, to: int, rest: seq<Tsl>)
    requires Used(sec.entries) <= size && SortedEntries(sec.entries) && sec.entries != [] && from > to
    requires !Misled(sec, past, from) && forall j | 0 <= j < |sec.entries| :: sec.entries[j].status != UNUSED
    requires sec.entries[0].rec.time <= from
    requires var v := Reverse(Tsls(base, size, sec.entries)); KeySorted(false, v + rest) && NotBefore(false, from, rest)
    ensures var v := Reverse(Tsls(base, size, sec.entries));
            var e := Emit(Never, Candidates(base, size, sec.entries, past, from, to), to, from);
            && InWindow(v + rest, to, from) == (if e.1 then e.0 else e.0 + InWindow(rest, to, from))
            && (e.1 <==> sec.entries[0].rec.time < to)
  {
    hide Emit, InWindow, Until, Used, Candidates;
    var es := sec.entries;
    var p := HarmlessPast(base, size, sec, past, from, to);
    SectorEmits(Never, base, size, es, p, from, to, rest);
    var v := Reverse(Tsls(base, size, es));
    UntilNever(InWindow(v + rest, to, from));
    UntilNever(InWindow(rest, to, from));
    LeavesBelow(base, size, es, p, from, to);
  }

  lemma LeavesBelow(base: nat, size: nat, es: seq<Entry>, p: Past, from: int, to: int)
    requires Used(es) <= size && SortedEntries(es) && es != [] && from > to && p.seen.status == UNUSED
    requires es[0].rec.time <= from && forall j | 0 <= j < |es| :: es[j].status != UNUSED
    ensures Emit(Never, Candidates(base, size, es, p, from, to), to, from).1 <==> es[0].rec.time < to
  {
    hide Emit, Candidates, Tsls, Reverse, AllUsed, Used, AllBefore, NotBefore, TslOf;
    CandidatesAreTail(base, size, es, p, from, to);
    var v, m := Reverse(Tsls(base, size, es)), Skipped(false, es, from);
    var a := v[m..];
    EmitSkipsUnused(Never, p.seen, a, to, from);
    TslsUsed(base, size, es, false, m);
    EmitNever(a, to, from);
    TailTimes(base, size, es, m);
    assert m < |es|;
    assert a[|a| - 1].time == es[0].rec.time;
    assert NotBefore(false, from, a);
    InsideTail(a, from, to);
  }

  lemma TailTimes(base: nat, size: nat, es: seq<Entry>, m: nat)
    requires Used(es) <= size && m <= |es|
    ensures var a := Reverse(Tsls(base, size, es))[m..];
            |a| == |es| - m && (forall k | 0 <= k < |a| :: a[k].time == es[|es| - 1 - (m + k)].rec.time)
    ensures SortedEntries(es) ==> KeySorted(false, Reverse(Tsls(base, size, es))[m..])
  {
    hide Used;
  }

  lemma InsideTail(a: seq<Tsl>, from: int, to: int)
    requires a != [] && KeySorted(false, a) && NotBefore(false, from, a)
    ensures (exists k | 0 <= k < |a| :: !Inside(a[k], to, from)) <==> a[|a| - 1].time < to
  {
    if a[|a| - 1].time < to {
      assert !Inside(a[|a| - 1], to, from);
    } else {
      forall k | 0 <= k < |a| ensures Inside(a[k], to, from) {}
    }
  }

  /** Nothing of a sorted downward stretch that starts below `to` is inside the window. */
  lemma AllBelow(s: seq<Tsl>, from: int, to: int)
    requires KeySorted(false, s) && from > to && (s != [] ==> s[0].time < to)
    ensures InWindow(s, to, from) == []
  {
    forall k | 0 <= k < |s| ensures !Inside(s[k], to, from) {}
    InWindowNone(s, to, from);
  }

  /** What a misled sector hands over: the bogus entry and what follows it, or nothing at all. */
  lemma MisledEmits(base: nat, size: nat, sec: Sector, past: Past, from: int, to: int)
    requires Used(sec.entries) <= size && SortedEntries(sec.entries) && from > to && Misled(sec, past, from)
    ensures var e := Emit(Never, Candidates(base, size, sec.entries, past, from, to), to, from);
            if to <= past.seen.time <= from then e.0 != [] && e.0[0] == past.seen else e == ([], true)
  {
    var es := sec.entries;
    FirstUnique(es, |es|, from + 1);
  }

  ghost predicate NotAmong(x: Tsl, s: seq<Tsl>) {
    forall k | 0 <= k < |s| :: s[k] != x
  }

  /** From sector t of a downward walk on: the query is right exactly if no harmful sector is left. */
  lemma {:induction false} RightIffHarmless(size: nat, n: nat, im: Image, past: seq<Past>, from: int, to: int, t: nat,
        found: bool)
    requires Queryable(size, n, im) && StartsIncrease(im) && |past| == n && t <= n && from > to && size > 0
    requires forall i | 0 <= i < n :: NotAmong(past[i].seen, Rest(size, n, im, false, t))
    requires KeySorted(false, Rest(size, n, im, false, t))
    requires found ==> NotBefore(false, from, Rest(size, n, im, false, t))
    requires 0 < t < im.live ==> im.view[im.live - t].start >= to
    ensures Query(Never, size, n, im, past, from, to, t, found) == InWindow(Rest(size, n, im, false, t), to, from)
       <==> forall i | 0 <= i < im.live - t :: !Harmful(im, past, from, to, i)
    decreases n - t, 1
  {
    hide Emit, Until, InWindow, Candidates, Used, VisitDir, Fits, FirstAtLeast, TslOf, Harmful, NotAmong, SortedEntries;
    if t >= im.live {
      RestOfEmpties(size, n, im, false, t);
      NothingToVisit(Never, to, from);
      assert t < n ==> im.view[Stop(n, im, false, t)] == EMPTY_SECTOR;
    } else {
      var i := im.live - 1 - t;
      assert Stop(n, im, false, t) == i;
      var sec := im.view[i];
      var v, rest := VisitDir(size, n, im, false, t), Rest(size, n, im, false, t + 1);
      EndsOf(size, n, im, false, t);
      SuffixSorted(false, v, rest);
      NotAmongTail(past, n, v, rest);
      if found || MayStart(sec, t == 0, from, to) {
        assert !found ==> sec.start <= from;
        RestNotBefore(false, from, v, rest, found);
        assert sec.start <= from by { if found { assert (v + rest)[|v| - 1] == v[|v| - 1]; } }
        if Misled(sec, past[i], from) {
          MisledCase(size, n, im, past, from, to, t, found);
        } else {
          RightCase(size, n, im, past, from, to, t, found);
        }
      } else {
        SectorSkipped(v, rest, from, to);
        NotHarmfulHere(im, past, from, to, i);
        RightIffHarmless(size, n, im, past, from, to, t + 1, false);
      }
    }
  }

  /** A processed sector that does not mislead passes the question on to the older sectors, or settles it. */
  lemma RightCase(size: nat, n: nat, im: Image, past: seq<Past>, from: int, to: int, t: nat, found: bool)
    requires Queryable(size, n, im) && StartsIncrease(im) && |past| == n && t < im.live && from > to && size > 0
    requires forall i | 0 <= i < n :: NotAmong(past[i].seen, Rest(size, n, im, false, t + 1))
    requires KeySorted(false, Rest(size, n, im, false, t)) && NotBefore(false, from, Rest(size, n, im, false, t + 1))
    requires KeySorted(false, Rest(size, n, im, false, t + 1))
    requires var sec := im.view[im.live - 1 - t];
             && !Misled(sec, past[im.live - 1 - t], from) && sec.entries != [] && sec.start <= from
             && (found || MayStart(sec, t == 0, from, to))
    ensures Query(Never, size, n, im, past, from, to, t, found) == InWindow(Rest(size, n, im, false, t), to, from)
       <==> forall i | 0 <= i < im.live - t :: !Harmful(im, past, from, to, i)
    decreases n - t, 0
  {
    hide Emit, Until, InWindow, Candidates, Used, FirstAtLeast, TslOf, Harmful, NotAmong, SortedEntries, Base, Phys,
         KeySorted, NotBefore;
    var i := im.live - 1 - t;
    var sec, rest := im.view[i], Rest(size, n, im, false, t + 1);
    var base := Base(size, Phys(n, im.oldest, i));
    assert Stop(n, im, false, t) == i;
    SectorRight(base, size, sec, past[i], from, to, rest);
    NotHarmfulHere(im, past, from, to, i);
    var e := Emit(Never, Candidates(base, size, sec.entries, past[i], from, to), to, from);
    if sec.start >= to {
      Cancel(e.0, Query(Never, size, n, im, past, from, to, t + 1, true), InWindow(rest, to, from));
      RightIffHarmless(size, n, im, past, from, to, t + 1, true);
    } else {
      NoneHarmfulBelow(size, n, im, past, from, to, i);
    }
  }

  /** A misled sector is either harmful, and then the query is wrong, or nothing remains to be visited. */
  lemma MisledCase(size: nat, n: nat, im: Image, past: seq<Past>, from: int, to: int, t: nat, found: bool)
    requires Queryable(size, n, im) && StartsIncrease(im) && |past| == n && t < im.live && from > to && size > 0
    requires forall i | 0 <= i < n :: NotAmong(past[i].seen, Rest(size, n, im, false, t))
    requires KeySorted(false, Rest(size, n, im, false, t))
    requires 0 < t ==> im.view[im.live - t].start >= to
    requires var sec := im.view[im.live - 1 - t];
             Misled(sec, past[im.live - 1 - t], from) && (found || MayStart(sec, t == 0, from, to))
    ensures Query(Never, size, n, im, past, from, to, t, found) == InWindow(Rest(size, n, im, false, t), to, from)
       <==> forall i | 0 <= i < im.live - t :: !Harmful(im, past, from, to, i)
  {
    hide Emit, Until, InWindow, Candidates, Used, FirstAtLeast, TslOf, NotAmong, SortedEntries, Base, Phys,
         KeySorted, NotBefore, VisitDir;
    var i := im.live - 1 - t;
    var sec := im.view[i];
    var last := sec.entries[|sec.entries| - 1].rec.time;
    var base := Base(size, Phys(n, im.oldest, i));
    assert Stop(n, im, false, t) == i;
    var v, rest := VisitDir(size, n, im, false, t), Rest(size, n, im, false, t + 1);
    EndsOf(size, n, im, false, t);
    MisledEmits(base, size, sec, past[i], from, to);
    if to <= past[i].seen.time <= from {
      assert Harmful(im, past, from, to, i);
      InWindowFrom(v + rest, to, from, past[i].seen);
    } else if last >= to {
      assert Harmful(im, past, from, to, i);
      assert (v + rest)[0] == v[0];
      FirstInside(v + rest, to, from);
    } else {
      assert (v + rest)[0] == v[0];
      AllBelow(v + rest, from, to);
      NoneHarmfulBelow(size, n, im, past, from, to, i);
    }
  }

  lemma {:induction false} InWindowFrom(s: seq<Tsl>, lo: int, hi: int, x: Tsl)
    requires NotAmong(x, s)
    ensures InWindow(s, lo, hi) != [] ==> InWindow(s, lo, hi)[0] != x
  {
    if s != [] {
      assert s[0] != x;
      forall k | 0 <= k < |s[1..]| ensures s[1..][k] != x { assert s[1..][k] == s[k + 1]; }
      InWindowFrom(s[1..], lo, hi, x);
    }
  }

  lemma FirstInside(s: seq<Tsl>, lo: int, hi: int)
    requires s != [] && Inside(s[0], lo, hi)
    ensures InWindow(s, lo, hi) != []
  {
  }

  /** Below a sector that reaches under `to`, no sector is reached. */
  lemma NoneHarmfulBelow(size: nat, n: nat, im: Image, past: seq<Past>, from: int, to: int, i: nat)
    requires Queryable(size, n, im) && |past| == n && i < im.live && im.view[i].start < to
    requires StartsIncrease(im)
    ensures forall k | 0 <= k < i :: !Harmful(im, past, from, to, k)
  {
    forall k | 0 <= k < i ensures !Harmful(im, past, from, to, k) {
      assert im.view[k + 1].start <= im.view[i].start;
    }
  }

  /** Older sectors start earlier. */
  ghost predicate StartsIncrease(im: Image)
    requires im.live <= |im.view|
  {
    forall j, k | 0 <= j < k < im.live :: im.view[j].start < im.view[k].start
  }

  lemma Cancel<T>(a: seq<T>, b: seq<T>, c: seq<T>)
    ensures a + b == a + c <==> b == c
  {
    assert (a + b)[|a|..] == b && (a + c)[|a|..] == c;
  }

  lemma NotAmongTail(past: seq<Past>, n: nat, v: seq<Tsl>, rest: seq<Tsl>)
    requires |past| == n && forall i | 0 <= i < n :: NotAmong(past[i].seen, v + rest)
    ensures forall i | 0 <= i < n :: NotAmong(past[i].seen, rest)
  {
    forall i | 0 <= i < n ensures NotAmong(past[i].seen, rest) {
      forall k | 0 <= k < |rest| ensures rest[k] != past[i].seen { assert (v + rest)[|v| + k] == rest[k]; }
    }
  }

  lemma NotHarmfulHere(im: Image, past: seq<Past>, from: int, to: int, i: nat)
    requires im.live <= |im.view| == |past| && i < im.live && !Misled(im.view[i], past[i], from)
    ensures !Harmful(im, past, from, to, i)
  {
  }

  /** Every sector's start is the time of some log object among the visits so far, and starts increase. */
  lemma {:induction false} StartsAmongVisits(size: nat, n: nat, im: Image, m: nat)
    requires Queryable(size, n, im) && m <= im.live && KeySorted(true, Visits(size, n, im, m))
    ensures forall j | 0 <= j < m :: exists k | 0 <= k < |Visits(size, n, im, m)| ::
            Visits(size, n, im, m)[k].time == im.view[j].start
    ensures forall j, k | 0 <= j < k < m :: im.view[j].start < im.view[k].start
  {
    hide Used, TslOf, Visit, SortedEntries;
    if m > 0 {
      var a, b := Visits(size, n, im, m - 1), Visit(size, n, im, m - 1);
      PrefixSorted(a, b);
      StartsAmongVisits(size, n, im, m - 1);
      FirstOfVisit(size, n, im, m - 1);
      assert (a + b)[|a|] == b[0];
      forall j | 0 <= j < m - 1
        ensures im.view[j].start < im.view[m - 1].start
        ensures exists k | 0 <= k < |a + b| :: (a + b)[k].time == im.view[j].start
      {
        var k :| 0 <= k < |a| && a[k].time == im.view[j].start;
        assert (a + b)[k] == a[k];
      }
    }
  }

  lemma FirstOfVisit(size: nat, n: nat, im: Image, i: nat)
    requires Queryable(size, n, im) && i < im.live
    ensures Visit(size, n, im, i) != [] && Visit(size, n, im, i)[0].time == im.view[i].start
  {
  }

  lemma PrefixSorted(a: seq<Tsl>, b: seq<Tsl>)
    requires KeySorted(true, a + b)
    ensures KeySorted(true, a)
  {
    forall k, l | 0 <= k < l < |a| ensures a[k].time < a[l].time {
      assert (a + b)[k] == a[k] && (a + b)[l] == a[l];
    }
  }

  lemma {:induction false} VisitsPrefixSorted(size: nat, n: nat, im: Image, m: nat)
    requires Queryable(size, n, im) && m <= n && KeySorted(true, Visits(size, n, im, n))
    ensures KeySorted(true, Visits(size, n, im, m))
    decreases n - m
  {
    hide Used, TslOf, KeySorted;
    if m < n {
      VisitsPrefixSorted(size, n, im, m + 1);
      PrefixSorted(Visits(size, n, im, m), Visit(size, n, im, m));
    }
  }

  /** The position behind the last entry of one sector is no entry of any sector. */
  lemma PastIsNoEntry(mem: seq<byte>, size: nat, n: nat, im: Image, maxLen: nat, search: Noise,
        look: Noise, i: nat, j: nat)
    requires Queryable(size, n, im) && size > 0 && i < n && j < n
    ensures NotAmong(PastOf(mem, size, n, im, maxLen, search, look)[i].seen, Visit(size, n, im, j))
  {
    hide Used, Base, Size;
    var x := PastOf(mem, size, n, im, maxLen, search, look)[i].seen;
    var ki, kj := Phys(n, im.oldest, i), Phys(n, im.oldest, j);
    assert x.index == IndexAddr(Base(size, ki), |im.view[i].entries|);
    if ki < kj { BasesDisjoint(size, ki, kj); }
    if kj < ki { BasesDisjoint(size, kj, ki); }
    IndexInside(size, im, i);
    IndexInside(size, im, j);
    forall k | 0 <= k < |im.view[j].entries| ensures Visit(size, n, im, j)[k] != x {
      assert Visit(size, n, im, j)[k].index == IndexAddr(Base(size, kj), k);
    }
  }

  lemma IndexInside(size: nat, im: Image, i: nat)
    requires i < |im.view| && Used(im.view[i].entries) <= size
    ensures HDR + IDX * |im.view[i].entries| <= size
  {
  }

  lemma {:induction false} PastNotInRest(mem: seq<byte>, size: nat, n: nat, im: Image, maxLen: nat, search: Noise,
        look: Noise, i: nat, t: nat)
    requires Queryable(size, n, im) && size > 0 && i < n && t <= n
    ensures NotAmong(PastOf(mem, size, n, im, maxLen, search, look)[i].seen, Rest(size, n, im, false, t))
    decreases n - t
  {
    hide Used, Visit, TslAt, PastOf;
    if t < n {
      PastNotInRest(mem, size, n, im, maxLen, search, look, i, t + 1);
      PastIsNoEntry(mem, size, n, im, maxLen, search, look, i, Stop(n, im, false, t));
    }
  }

  /** A downward query visits exactly the entries of its interval, newest first, if and only if no sector on its
      way is harmful. What decides is the sixteen bytes behind the index of each sector. */
  lemma DownQueryRightExactly(mem: seq<byte>, size: nat, n: nat, im: Image, maxLen: nat, search: Noise, look: Noise,
        from: int, to: int)
    requires Quiet(mem, size, n, im) && from > to && size > 0
    ensures Fits(size, im.view) && im.live <= n
    ensures var past := PastOf(mem, size, n, im, maxLen, search, look);
            (Query(Never, size, n, im, past, from, to, 0, false) == InWindow(Reverse(Visits(size, n, im, n)), to, from)
             <==> (forall i | 0 <= i < im.live :: !Harmful(im, past, from, to, i)))
  {
    hide Holds, Query, InWindow, Until, Records, Settled, Increasing, Shape, Represents, PastOf, Harmful, Visits;
    QuietIsQueryable(mem, size, n, im);
    var past := PastOf(mem, size, n, im, maxLen, search, look);
    WholeRest(size, n, im, false);
    SortedRest(mem, size, n, im, false, 0);
    IterationIsLogSuffix(mem, size, n, im);
    VisitsSorted(true, Visits(size, n, im, n));
    VisitsPrefixSorted(size, n, im, im.live);
    StartsAmongVisits(size, n, im, im.live);
    forall i | 0 <= i < n ensures NotAmong(past[i].seen, Rest(size, n, im, false, 0)) {
      PastNotInRest(mem, size, n, im, maxLen, search, look, i, 0);
    }
    RightIffHarmless(size, n, im, past, from, to, 0, false);
  }
}
