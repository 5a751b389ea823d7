/** What single steps of the key-value database do to flash, map and tables: the facts its methods rest on. */
module KvdbSteps {
  import opened Cyclic
  import opened KvdbImage
  import opened KvdbStore
  import opened KvdbTables

  /** What n collected sectors give. */
  function Freed(n: nat, cap: int): int {
    if n == 0 then 0 else Freed(n - 1, cap) + cap
  }

  lemma FreedNone(cap: int)
    ensures Freed(0, cap) == 0
  {
  }

  lemma {:induction false} FreedIs(n: nat, cap: int)
    ensures Freed(n, cap) == n * cap
  {
    if n > 0 {
      FreedIs(n - 1, cap);
      assert n * cap == (n - 1) * cap + cap;
    }
  }

  /** A collection that is to give as much as the whole database goes all the way round. */
  lemma FreedIsLess(n: nat, size: nat, cap: int)
    requires n <= size && cap >= 0 && size > 0
    ensures 0 <= Freed(n, cap) < size * (cap + SEC_HDR)
  {
    FreedIs(n, cap);
    assert size * (cap + SEC_HDR) == n * cap + (size - n) * cap + size * SEC_HDR;
  }

  lemma FreedMore(n: nat, cap: int)
    ensures n > 0 ==> Freed(n, cap) == Freed(n - 1, cap) + cap
  {
  }

  /** Wherever they lie, no record can shadow the key: none whose name has the same CRC and, with its value, starts with
      the key or is started by it. */
  ghost predicate Unmistakable(hash: Name -> nat, m: map<Name, Value>, key: Name) {
    forall k | k in m && k != key && hash(k) == hash(key) :: !(key <= k + m[k]) && !(k + m[k] <= key)
  }

  /** Cut, outside of one sector. */
  ghost predicate CutBut(secs: seq<Sector>, but: nat, l: Option<Loc>, p: Option<Loc>) {
    forall s, i | 0 <= s < |secs| && s != but && 0 <= i < |secs[s].recs| ::
      && (secs[s].recs[i].status == PreDelete <==> l == Some(Loc(s, i)))
      && (secs[s].recs[i].status == PreWrite && Visible(secs, Loc(s, i)) <==> p == Some(Loc(s, i)))
  }

  /** In the sector being collected none of the first i records is live any more, and the rest is as it was. */
  ghost predicate Swept(secs: seq<Sector>, s: nat, recs0: seq<Record>, i: nat, l: Option<Loc>, p: Option<Loc>) {
    && s < |secs| && i <= |recs0| == |secs[s].recs| && secs[s].dirty == Collecting
    && (forall j | 0 <= j < i :: secs[s].recs[j].status != Written)
    && (forall j | i <= j < |recs0| :: secs[s].recs[j] == recs0[j])
    && CutBut(secs, s, l, p)
  }

  /** All that the first i records needed is at most in the spare sector. */
  ghost predicate Spare(secs: seq<Sector>, s: nat, recs0: seq<Record>, i: nat, x: nat) {
    x < |secs| && x != s && i <= |recs0| && secs[x].dirty == Clean && Size(secs[x].recs) <= Size(recs0[..i])
  }

  lemma SweepBegins(cap: int, secs: seq<Sector>, s: nat, l: Option<Loc>, p: Option<Loc>)
    requires SectorsOk(cap, secs) && s < |secs| && secs[s].dirty != Clean && Cut(secs, l, p)
    ensures Swept(Dirtying(secs, s, Collecting), s, secs[s].recs, 0, l, p) && Slack(cap, secs[s].recs)
    ensures forall x | 0 <= x < |secs| && secs[x].store == Empty ::
              Spare(Dirtying(secs, s, Collecting), s, secs[s].recs, 0, x)
  {
    assert SectorOk(cap, secs[s]);
    var secs' := Dirtying(secs, s, Collecting);
    forall t, i | 0 <= t < |secs| && t != s && 0 <= i < |secs[t].recs|
      ensures secs'[t].recs[i] == secs[t].recs[i] && (Visible(secs', Loc(t, i)) <==> Visible(secs, Loc(t, i)))
    {
    }
    forall x | 0 <= x < |secs| && secs[x].store == Empty ensures secs[x] == FRESH {
      assert SectorOk(cap, secs[x]);
    }
  }

  lemma SweepSkips(secs: seq<Sector>, s: nat, recs0: seq<Record>, i: nat, l: Option<Loc>, p: Option<Loc>)
    requires Swept(secs, s, recs0, i, l, p) && i < |recs0| && recs0[i].status != Written
    ensures Swept(secs, s, recs0, i + 1, l, p)
    ensures forall x | Spare(secs, s, recs0, i, x) :: Spare(secs, s, recs0, i + 1, x)
  {
    hide Size, CutBut;
    SizeOfPrefix(recs0[..i + 1], i);
    assert recs0[..i + 1][..i] == recs0[..i];
  }

  /** A record has lost its life, and a copy may have been made in another sector. */
  lemma SweepSteps(was: seq<Sector>, secs: seq<Sector>, s: nat, recs0: seq<Record>, i: nat, t: nat, st: Status,
        l: Option<Loc>, p: Option<Loc>)
    requires Swept(was, s, recs0, i, l, p) && i < |recs0| && (st == PreDelete || st == Deleted)
    requires secs == Killed(was, Loc(s, i), st) || (t < |was| && t != s && secs == Moved(was, Loc(s, i), t))
    requires (l.Some? ==> At(was, l.value)) && (p.Some? ==> At(was, p.value))
    ensures |secs| == |was| && Swept(secs, s, recs0, i + 1, l, p)
    ensures forall u | 0 <= u < |secs| && u != s :: secs[u].dirty == was[u].dirty
    ensures forall x: nat | Spare(was, s, recs0, i, x)
              && Size(was[x].recs) + Len(recs0[i]) <= Size(recs0[..i + 1]) :: Spare(secs, s, recs0, i + 1, x)
  {
    hide Size, Len, Moved, CutBut;
    var here := Loc(s, i);
    if secs != Killed(was, here, st) {
      MovedAt(was, here, t);
      SizeOfAppend(was[t].recs, recs0[i].(status := Written));
      SameLen(recs0[i], Written);
      OneMoreElsewhere(was, secs, s, t, recs0[i].(status := Written), l, p);
    } else {
      OtherSectorsStay(was, secs, s, l, p);
    }
  }

  lemma SameLen(r: Record, st: Status)
    ensures Len(r.(status := st)) == Len(r)
  {
  }

  lemma OtherSectorsStay(was: seq<Sector>, secs: seq<Sector>, s: nat, l: Option<Loc>, p: Option<Loc>)
    requires CutBut(was, s, l, p) && |secs| == |was| && forall u | 0 <= u < |was| && u != s :: secs[u] == was[u]
    ensures CutBut(secs, s, l, p)
  {
    forall u, j | 0 <= u < |secs| && u != s && 0 <= j < |secs[u].recs|
      ensures secs[u].recs[j] == was[u].recs[j] && (Visible(secs, Loc(u, j)) <==> Visible(was, Loc(u, j)))
    {
    }
  }

  lemma OneMoreElsewhere(was: seq<Sector>, secs: seq<Sector>, s: nat, t: nat, r: Record, l: Option<Loc>, p: Option<Loc>)
    requires CutBut(was, s, l, p) && |secs| == |was| && t < |was| && t != s && r.status == Written
    requires secs[t].recs == was[t].recs + [r] && forall u | 0 <= u < |was| && u != s && u != t :: secs[u] == was[u]
    requires (l.Some? ==> At(was, l.value)) && (p.Some? ==> At(was, p.value))
    ensures CutBut(secs, s, l, p)
  {
    forall u, j | 0 <= u < |was| && u != s && 0 <= j < |was[u].recs|
      ensures secs[u].recs[j] == was[u].recs[j] && (Visible(secs, Loc(u, j)) <==> Visible(was, Loc(u, j)))
    {
    }
  }

  /** What is not in this sector. */
  function Outside(l: Option<Loc>, s: nat): Option<Loc> {
    if l.Some? && l.value.s == s then None else l
  }

  lemma SweepEnds(secs: seq<Sector>, s: nat, recs0: seq<Record>, l: Option<Loc>, p: Option<Loc>)
    requires Swept(secs, s, recs0, |recs0|, l, p)
    ensures NoneLive(secs[s]) && Cut(Formatted(secs, s), Outside(l, s), Outside(p, s))
  {
    var secs' := Formatted(secs, s);
    forall u, j | 0 <= u < |secs'| && 0 <= j < |secs'[u].recs|
      ensures u != s && secs'[u].recs[j] == secs[u].recs[j]
              && (Visible(secs', Loc(u, j)) <==> Visible(secs, Loc(u, j)))
    {
    }
  }

  lemma FormattedOk(cap: int, secs: seq<Sector>, s: nat)
    requires SectorsOk(cap, secs) && s < |secs|
    ensures SectorsOk(cap, Formatted(secs, s)) && Empties(Formatted(secs, s)) > 0
  {
    EmptyCounts(Formatted(secs, s), s);
  }

  lemma {:induction false} CollectingOk(cap: int, secs: seq<Sector>, s: nat)
    requires SectorsOk(cap, secs) && s < |secs| && secs[s].dirty != Clean
    ensures SectorsOk(cap, Dirtying(secs, s, Collecting)) && Empties(Dirtying(secs, s, Collecting)) == Empties(secs)
  {
    hide Size, Empties;
    var sec := secs[s].(dirty := Collecting);
    assert SectorOk(cap, secs[s]);
    assert sec.store != Empty;
    EmptiesOfUpdate(secs, s, sec);
  }

  lemma DirtyingKeeps(secs: seq<Sector>, s: nat, d: Dirty)
    requires s < |secs|
    ensures forall u | 0 <= u < |secs| :: Dirtying(secs, s, d)[u].recs == secs[u].recs
                                          && (u != s ==> Dirtying(secs, s, d)[u].dirty == secs[u].dirty)
  {
  }

  lemma FormattedKeeps(secs: seq<Sector>, s: nat)
    requires s < |secs|
    ensures Formatted(secs, s)[s] == FRESH && forall u | 0 <= u < |secs| && u != s :: Formatted(secs, s)[u] == secs[u]
  {
  }

  ghost function SomeEmptyAt(secs: seq<Sector>): (x: nat)
    requires Empties(secs) > 0
    ensures x < |secs| && secs[x].store == Empty
  {
    SomeEmptyExists(secs);
    var x :| 0 <= x < |secs| && secs[x].store == Empty;
    x
  }

  lemma SomeEmptyExists(secs: seq<Sector>)
    requires Empties(secs) > 0
    ensures exists x :: 0 <= x < |secs| && secs[x].store == Empty
  {
    var x := SomeEmpty(secs);
  }

  lemma LiveValue(secs: seq<Sector>, at: map<Name, Loc>, l: Loc)
    requires Index(secs, at) && Live(secs, l)
    ensures MapOf(secs, at)[Get(secs, l).name := Get(secs, l).value] == MapOf(secs, at)
  {
    LiveIsIndexed(secs, at, l);
  }

  lemma NotIndexedNow(m: map<Name, Value>, key: Name, value: Value)
    ensures (m - {key})[key := value] == m[key := value]
    ensures key !in m ==> m - {key} == m
  {
  }

  lemma WithoutOne(m: map<Name, Value>, key: Name, of: Name)
    requires of in m || of == key
    ensures m - {of} == m - {key} <==> of == key
  {
    if m - {of} == m - {key} {
      assert of !in m - {key};
    }
  }

  lemma OneStartsTheOther(key: Name, k: Name, v: Value)
    ensures key <= k + v || k + v <= key ==> key <= k || k <= key
  {
    var n := if |key| <= |k| then |key| else |k|;
    assert (k + v)[..n] == k[..n];
    assert key <= k + v || k + v <= key ==> key[..n] == (k + v)[..n];
  }

  lemma CandidateInRange(cap: int, secs: seq<Sector>, gc: bool, n: nat)
    ensures forall s: nat | Candidate(cap, secs, gc, s, n) :: s < |secs|
  {
  }

  lemma CandidatesAre(cap: int, secs: seq<Sector>, gc: bool, n: nat)
    ensures forall s: nat :: Candidate(cap, secs, gc, s, n) <==>
              && s < |secs| && Size(secs[s].recs) + n + 88 < cap
              && if gc then secs[s].dirty == Clean
                 else secs[s].dirty != Collecting && (secs[s].store == Using || Empties(secs) > 1)
  {
    forall s: nat
      ensures Candidate(cap, secs, gc, s, n) <==>
                && s < |secs| && Size(secs[s].recs) + n + 88 < cap
                && if gc then secs[s].dirty == Clean
                   else secs[s].dirty != Collecting && (secs[s].store == Using || Empties(secs) > 1)
    {
      CandidateIs(cap, secs, gc, s, n);
    }
  }

  lemma CandidateFits(cap: int, secs: seq<Sector>, gc: bool, s: nat, n: nat)
    requires Candidate(cap, secs, gc, s, n)
    ensures s < |secs| && Fits(cap, secs[s], n) && Usable(cap, secs, gc, s, n)
    ensures secs[s].store == Empty ==> Empties(secs) > 1 || gc
  {
  }

  /** A hit comes from an active entry. */
  lemma HitsAnActiveEntry(table: seq<Entry>, hash: Name -> nat, secs: seq<Sector>, key: Name, l: Loc)
    requires Hit(table, hash, secs, key, l)
    ensures exists i :: 0 <= i < |table| && table[i].addr.Some? && table[i].addr.value == l
  {
    hide FromName;
  }

  lemma DeleteLeavesTidy(was: seq<Sector>, l: Loc)
    requires Tidy(was) && At(was, l)
    ensures Tidy(Killed(was, l, Deleted))
  {
  }

  lemma SetLeavesTidy(was: seq<Sector>, t: nat, r: Record, found: Option<Loc>)
    requires Tidy(was) && t < |was| && r.status == Written
    requires found.Some? ==> At(was, found.value)
    ensures var s1 := if found.Some? then Killed(was, found.value, PreDelete) else was;
            var s2 := Append(s1, t, r);
            && (found.Some? ==> At(s2, found.value))
            && var s3 := if found.Some? then Killed(s2, found.value, Deleted) else s2;
               Tidy(s3)
  {
    hide Cut, Killed, Append;
    if found.Some? {
      var l := found.value;
      KilledFacts(0, was, l, PreDelete, false, t, 0);
      CutAfterKill(was, None, None, l, PreDelete);
      var s1 := Killed(was, l, PreDelete);
      AppendFacts(s1, t, r, l);
      CutAfterAppend(s1, found, t, r);
      CutAfterKill(Append(s1, t, r), found, None, l, Deleted);
    } else {
      CutAfterAppend(was, None, t, r);
    }
  }

  function PartsOf(moved: bool, name: Name, value: Value): seq<Part> {
    if moved then CopyParts(MAGIC_OFFSET, REC_HDR + |name| + |value|) else NewParts()
  }

  lemma GrowsByOne(base: seq<Sector>, s: nat, name: Name, value: Value, part: Part, rest: seq<Part>)
    requires s < |base|
    ensures Growing(base, s, name, value, [part] + rest)
            == [Append(base, s, Record(PreWrite, name, value, part))] + Growing(base, s, name, value, rest)
  {
    hide Append;
  }

  lemma GrowsOn(trace: seq<seq<Sector>>, base: seq<Sector>, s: nat, name: Name, value: Value, done: nat, n: nat,
        part: Part)
    requires s < |base| && done < n
    requires part == if done + PIECE < n then Copied(done + PIECE) else Whole
    ensures var t := Append(base, s, Record(PreWrite, name, value, part));
            var next := if done + PIECE < n then done + PIECE else n;
            trace + Growing(base, s, name, value, CopyParts(done, n))
              == (trace + [t]) + Growing(base, s, name, value, CopyParts(next, n))
  {
    hide Append, Growing;
    var next := if done + PIECE < n then done + PIECE else n;
    assert CopyParts(done, n) == [part] + CopyParts(next, n);
    GrowsByOne(base, s, name, value, part, CopyParts(next, n));
  }

  lemma GrowsNoMore(base: seq<Sector>, s: nat, name: Name, value: Value, n: nat)
    requires s < |base|
    ensures Growing(base, s, name, value, CopyParts(n, n)) == []
  {
  }

  /** The flash states while a record is replaced: the old one is marked, the new one written, the old one deleted. */
  function SetTrace(secs: seq<Sector>, l: Option<Loc>, t: nat, key: Name, value: Value, parts: seq<Part>):
    seq<seq<Sector>>
    requires t < |secs| && (l.Some? ==> At(secs, l.value))
  {
    match l
    case None => WriteTrace(secs, t, key, value, parts)
    case Some(loc) =>
      var d := Killed(secs, loc, PreDelete);
      var w := Append(d, t, Record(Written, key, value, Whole));
      assert At(w, loc);
      DelTrace(secs, loc, PreDelete) + WriteTrace(d, t, key, value, parts) + DelTrace(w, loc, Deleted)
  }

  /** Moving a live record replaces it by itself, in pieces. */
  function MoveTrace(secs: seq<Sector>, l: Loc, t: nat): seq<seq<Sector>>
    requires t < |secs| && At(secs, l)
  {
    var r := Get(secs, l);
    SetTrace(secs, Some(l), t, r.name, r.value, CopyParts(MAGIC_OFFSET, Len(r)))
  }

  /** The state in which those writes begin: the map is m and sector t has room. */
  ghost predicate SetBase(cap: int, secs: seq<Sector>, at: map<Name, Loc>, m: map<Name, Value>, key: Name,
        value: Value, t: nat) {
    && SectorsOk(cap, secs) && Index(secs, at) && MapOf(secs, at) == m && |secs| >= 2
    && Empties(secs) > 0 && Tidy(secs)
    && |key| < NAME_MAX && Candidate(cap, secs, false, t, REC_HDR + |key| + |value|)
  }

  lemma SetBegins(cap: int, secs: seq<Sector>, at: map<Name, Loc>, m: map<Name, Value>, key: Name, value: Value, t: nat)
    requires SectorsOk(cap, secs) && Index(secs, at) && MapOf(secs, at) == m && |secs| >= 2
    requires Empties(secs) > 0 && Tidy(secs)
    requires |key| < NAME_MAX && Candidate(cap, secs, false, t, REC_HDR + |key| + |value|)
    ensures SetBase(cap, secs, at, m, key, value, t)
  {
  }

  lemma SetTraceIs(trace: seq<seq<Sector>>, secs: seq<Sector>, l: Option<Loc>, t: nat, key: Name, value: Value,
        parts: seq<Part>)
    requires t < |secs| && (l.Some? ==> At(secs, l.value))
    ensures l == None ==>
              trace + WriteTrace(secs, t, key, value, parts) == trace + SetTrace(secs, l, t, key, value, parts)
    ensures l.Some? ==>
              var d := Killed(secs, l.value, PreDelete);
              var w := Append(d, t, Record(Written, key, value, Whole));
              && At(w, l.value)
              && trace + SetTrace(secs, l, t, key, value, parts)
                 == trace + DelTrace(secs, l.value, PreDelete) + WriteTrace(d, t, key, value, parts)
                    + DelTrace(w, l.value, Deleted)
  {
    hide DelTrace, WriteTrace;
  }

  /** What replacing comes to: the record at l, if any, gives way to a new one at the end of sector t. */
  function Replaced(secs: seq<Sector>, l: Option<Loc>, t: nat, r: Record): seq<Sector>
    requires t < |secs| && (l.Some? ==> At(secs, l.value))
  {
    if l == None then Append(secs, t, r)
    else
      var w := Append(Killed(secs, l.value, PreDelete), t, r);
      assert At(w, l.value);
      Killed(w, l.value, Deleted)
  }

  /** On the way there. */
  lemma ReplacingFacts(cap: int, secs: seq<Sector>, l: Loc, t: nat, r: Record, n: nat)
    requires Live(secs, l) && t < |secs| && Fits(cap, secs[t], n)
    ensures var d := Killed(secs, l, PreDelete);
            var w := Append(d, t, r);
            && |d| == |secs| && |d[t].recs| == |secs[t].recs| && d[t].store == secs[t].store && Fits(cap, d[t], n)
            && At(d, l) && At(w, l) && Get(w, l) == Get(secs, l).(status := PreDelete)
            && Replaced(secs, Some(l), t, r) == Killed(w, l, Deleted)
  {
    hide Size, Append, Killed;
    KilledFacts(cap, secs, l, PreDelete, false, t, n);
    SameNumber(secs, l, PreDelete);
    AppendFacts(Killed(secs, l, PreDelete), t, r, l);
  }

  /** If what gives way is the old record of the key, or there is none, the map has the key set. */
  lemma ReplacedIndexes(secs: seq<Sector>, at: map<Name, Loc>, of: Name, t: nat, key: Name, value: Value)
    requires Index(secs, at) && t < |secs| && (of == key || (of in at && key !in at))
    ensures var l := if of in at then Some(at[of]) else None;
            var at' := (at - {of})[key := Loc(t, |secs[t].recs|)];
            && (l.Some? ==> At(secs, l.value))
            && var secs' := Replaced(secs, l, t, Record(Written, key, value, Whole));
               Index(secs', at') && MapOf(secs', at') == (MapOf(secs, at) - {of})[key := value]
  {
    hide Index, MapOf, Append, Killed;
    IndexedIsLive(secs, at, of);
    var r := Record(Written, key, value, Whole);
    if of in at {
      var l := at[of];
      var d := Killed(secs, l, PreDelete);
      KilledIndexes(secs, at, l, PreDelete);
      SameNumber(secs, l, PreDelete);
      MarkedIsDead(secs, l, t, r);
      AppendIndexes(d, at - {of}, t, r);
      KilledIndexes(Append(d, t, r), (at - {of})[key := Loc(t, |secs[t].recs|)], l, Deleted);
    } else {
      assert at - {of} == at && MapOf(secs, at) - {of} == MapOf(secs, at);
      AppendIndexes(secs, at, t, r);
    }
  }

  lemma MarkedIsDead(secs: seq<Sector>, l: Loc, t: nat, r: Record)
    requires Live(secs, l) && t < |secs|
    ensures var d := Killed(secs, l, PreDelete);
            At(Append(d, t, r), l) && !Live(Append(d, t, r), l)
  {
  }

  /** If it is the record of another name, and the key is stored, the old record of the key stays live beside the new
      one, and the sectors stand for no map any more. */
  lemma SetBehindShadowDoubles(secs: seq<Sector>, at: map<Name, Loc>, key: Name, value: Value, l: Loc, t: nat,
        at': map<Name, Loc>)
    requires Index(secs, at) && key in at && Live(secs, l) && Get(secs, l).name != key && t < |secs|
    ensures !Index(Replaced(secs, Some(l), t, Record(Written, key, value, Whole)), at')
  {
    var secs' := Replaced(secs, Some(l), t, Record(Written, key, value, Whole));
    var old', new' := at[key], Loc(t, |secs[t].recs|);
    assert secs'[old'.s].recs[old'.i] == Get(secs, old') && secs'[new'.s].recs[new'.i].status == Written;
    assert secs'[new'.s].recs[new'.i].name == key && old' != new';
  }

  lemma StandsForNothing(secs: seq<Sector>, at: map<Name, Loc>, key: Name, value: Value, l: Loc, t: nat)
    requires Index(secs, at) && key in at && Live(secs, l) && Get(secs, l).name != key && t < |secs|
    ensures forall at' :: !Index(Replaced(secs, Some(l), t, Record(Written, key, value, Whole)), at')
  {
    hide Index;
    forall at' ensures !Index(Replaced(secs, Some(l), t, Record(Written, key, value, Whole)), at') {
      SetBehindShadowDoubles(secs, at, key, value, l, t, at');
    }
  }

  lemma SameNumber(secs: seq<Sector>, l: Loc, st: Status)
    requires At(secs, l)
    ensures forall s | 0 <= s < |secs| :: |Killed(secs, l, st)[s].recs| == |secs[s].recs|
  {
  }

  lemma MoveTraceIs(trace: seq<seq<Sector>>, secs: seq<Sector>, l: Loc, t: nat)
    requires t < |secs| && At(secs, l) && Get(secs, l).part == Whole
    ensures var r, d := Get(secs, l), Killed(secs, l, PreDelete);
            var w := Append(d, t, r.(status := Written));
            var w' := Append(secs, t, r.(status := Written));
            && At(w, l) && At(w', l) && Moved(secs, l, t) == Killed(if r.status == Written then w else w', l, Deleted)
            && trace + MoveTrace(secs, l, t)
               == trace + DelTrace(secs, l, PreDelete)
                  + WriteTrace(d, t, r.name, r.value, PartsOf(true, r.name, r.value)) + DelTrace(w, l, Deleted)
  {
    hide DelTrace, WriteTrace, CopyParts;
    var r := Get(secs, l);
    SetTraceIs(trace, secs, Some(l), t, r.name, r.value, PartsOf(true, r.name, r.value));
    assert r.(status := Written) == Record(Written, r.name, r.value, Whole);
  }

  lemma FreshFlash(n: nat, cap: int)
    requires n >= 2
    ensures var secs := seq(n, i => FRESH);
            && SectorsOk(cap, secs) && Index(secs, map[]) && MapOf(secs, map[]) == map[]
            && Empties(secs) > 0 && Tidy(secs)
  {
    EmptyCounts(seq(n, i => FRESH), 0);
  }

  /** What get_kv_from_cache accepts: an entry for this address with the key's CRC where the flash, read from the
      record's name on, starts with the key. */
  ghost predicate Hit(table: seq<Entry>, hash: Name -> nat, secs: seq<Sector>, key: Name, l: Loc) {
    At(secs, l) && key <= FromName(secs, l) && Remembers(table, hash(key), l)
  }

  /** Some active entry answers for the key with the record of another name. */
  ghost predicate SomeAnswers(table: seq<Entry>, hash: Name -> nat, secs: seq<Sector>, key: Name) {
    exists i :: 0 <= i < |table| && table[i].addr.Some? && Hit(table, hash, secs, key, table[i].addr.value)
                && Get(secs, table[i].addr.value).name != key
  }

  lemma HitIsUnique(table: seq<Entry>, hash: Name -> nat, secs: seq<Sector>, key: Name)
    requires Distinct(table)
    ensures forall l, l' :: Hit(table, hash, secs, key, l) && Hit(table, hash, secs, key, l') ==> l == l'
  {
    hide FromName;
  }

  /** Distinct CRCs, or names that with their values do not start each other, keep every key from being shadowed. */
  lemma NeverShadowed(cap: int, table: seq<Entry>, hash: Name -> nat, secs: seq<Sector>, at: map<Name, Loc>, key: Name,
        l: Loc)
    requires Distinct(table) && Points(table, hash, secs, -1) && SectorsOk(cap, secs) && Index(secs, at)
    requires Unmistakable(hash, MapOf(secs, at), key) && Hit(table, hash, secs, key, l)
    ensures Live(secs, l) && Get(secs, l).name == key
  {
    hide FromName, Size;
    var j :| 0 <= j < |table| && table[j] == Entry(Some(l), hash(key), table[j].active);
    LiveIsIndexed(secs, at, l);
    RecordIsOk(cap, secs, l);
    PrefixOfRead(secs, l, key);
    assert MapOf(secs, at)[Get(secs, l).name] == Get(secs, l).value;
  }

  // ---------- the scan after a power cut ----------

  /** The allocator finds room for the marked record without a collection. */
  ghost predicate HasRoom(cap: int, secs: seq<Sector>, l: Option<Loc>) {
    l.Some? && At(secs, l.value) && exists x: nat :: Candidate(cap, secs, false, x, Len(Get(secs, l.value)))
  }

  /** An empty sector takes every record that stands in another one, and one more has to stay empty. */
  lemma RoomInEmpty(cap: int, secs: seq<Sector>, l: Loc)
    requires SectorsOk(cap, secs) && At(secs, l) && Empties(secs) > 1
    ensures HasRoom(cap, secs, Some(l))
  {
    hide Len;
    SomeEmptyExists(secs);
    var x :| 0 <= x < |secs| && secs[x].store == Empty;
    assert SectorOk(cap, secs[x]) && SectorOk(cap, secs[l.s]);
    var recs := secs[l.s].recs;
    SizeOfPrefix(recs, l.i + 1);
    assert recs[..l.i + 1][..l.i] == recs[..l.i];
    assert Candidate(cap, secs, false, x, Len(Get(secs, l)));
  }

  lemma MovedElsewhere(cap: int, secs: seq<Sector>, l: Loc, t: nat, n: nat)
    requires At(secs, l) && n == Len(Get(secs, l))
    ensures Candidate(cap, secs, false, t, n) ==>
              t < |secs| && HasRoom(cap, secs, Some(l)) && (secs[t].store == Empty ==> Empties(secs) > 1)
  {
    hide Size, Empties;
  }

  ghost predicate Passed(n: nat, oldest: nat, k: nat, i: nat, l: Loc)
    requires oldest < n && l.s < n
  {
    Pending(n, oldest, l.s) < k || (Pending(n, oldest, l.s) == k && l.i < i)
  }

  /** How far the scan has come: whether l is still to be repaired, whether p has stopped it. */
  ghost predicate Scanned(img: seq<Sector>, secs: seq<Sector>, l: Option<Loc>, p: Option<Loc>, pend: bool, stop: bool,
                          oldest: nat, k: nat, i: nat) {
    && |secs| == |img| && oldest < |img| && Cut(img, l, p)
    && (l.Some? ==> At(img, l.value)) && (p.Some? ==> At(img, p.value) && At(secs, p.value))
    && (forall s, j | 0 <= s < |secs| && 0 <= j < |secs[s].recs| && secs[s].recs[j].status == PreWrite
      && Visible(secs, Loc(s, j)) ::
          p == Some(Loc(s, j)))
    && (!stop && p.Some? ==> !Passed(|img|, oldest, k, i, p.value)
                             && Get(secs, p.value).status == PreWrite && Visible(secs, p.value))
    && (stop ==> p.Some? && Get(secs, p.value).status == ErrHdr)
    && (pend ==> l.Some? && if stop then !Before(|img|, oldest, l.value, p.value)
      && secs == Restatus(img, p.value, ErrHdr)
                            else secs == img && !Passed(|img|, oldest, k, i, l.value))
    && (!pend && l.Some? && p.Some? ==> Before(|img|, oldest, l.value, p.value))
    && (forall s, j | 0 <= s < |secs| && 0 <= j < |secs[s].recs| ::
          secs[s].recs[j].status == PreDelete <==> pend && l == Some(Loc(s, j)))
  }

  lemma ScanBegins(img: seq<Sector>, l: Option<Loc>, p: Option<Loc>, oldest: nat)
    requires oldest < |img| && Cut(img, l, p) && (l.Some? ==> At(img, l.value)) && (p.Some? ==> At(img, p.value))
    ensures Scanned(img, img, l, p, l.Some?, false, oldest, 0, 0)
  {
  }

  lemma ScanHere(img: seq<Sector>, secs: seq<Sector>, l: Option<Loc>, p: Option<Loc>, pend: bool, oldest: nat,
        k: nat, here: Loc)
    requires Scanned(img, secs, l, p, pend, false, oldest, k, here.i) && At(secs, here)
    ensures Get(secs, here).status == PreDelete ==> pend && l == Some(here) && secs == img
    ensures Get(secs, here).status == PreWrite && Visible(secs, here) ==> p == Some(here)
    ensures pend && Get(secs, here).status != PreDelete ==> l != Some(here)
  {
    assert secs[here.s].recs[here.i] == Get(secs, here);
    if pend { CutAt(img, l, p); }
  }

  /** What a scan that has not been stopped knows when it comes to the marked record. */
  lemma ScanMeets(img: seq<Sector>, secs: seq<Sector>, l: Option<Loc>, p: Option<Loc>, pend: bool, oldest: nat,
        k: nat, here: Loc)
    requires Scanned(img, secs, l, p, pend, false, oldest, k, here.i) && At(secs, here)
             && Pending(|img|, oldest, here.s) == k && Get(secs, here).status == PreDelete
    ensures pend && l == Some(here) && secs == img
    ensures p.Some? ==> p.value.s < |img| && Before(|img|, oldest, here, p.value)
  {
    hide Visible;
    assert secs[here.s].recs[here.i] == Get(secs, here);
    SameDistance(|img|, oldest);
    if p.Some? { assert Get(secs, p.value).status == PreWrite; }
  }

  lemma ScanNext(img: seq<Sector>, secs: seq<Sector>, l: Option<Loc>, p: Option<Loc>, pend: bool, oldest: nat,
        k: nat, here: Loc)
    requires Scanned(img, secs, l, p, pend, false, oldest, k, here.i) && At(secs, here)
             && Pending(|img|, oldest, here.s) == k
    requires Get(secs, here).status != PreDelete && !(Get(secs, here).status == PreWrite && Visible(secs, here))
    ensures Scanned(img, secs, l, p, pend, false, oldest, k, here.i + 1)
  {
    hide Cut;
    if pend { CutAt(img, l, p); }
    SameDistance(|img|, oldest);
  }

  lemma CutAt(img: seq<Sector>, l: Option<Loc>, p: Option<Loc>)
    requires Cut(img, l, p)
    ensures l.Some? && At(img, l.value) ==> Get(img, l.value).status == PreDelete
  {
    if l.Some? && At(img, l.value) { assert img[l.value.s].recs[l.value.i] == Get(img, l.value); }
  }

  lemma CutApart(img: seq<Sector>, l: Option<Loc>, p: Option<Loc>)
    requires Cut(img, l, p)
    ensures l.Some? && At(img, l.value) ==> l != p
  {
    if l.Some? && At(img, l.value) { assert img[l.value.s].recs[l.value.i] == Get(img, l.value); }
  }

  lemma WrapDistance(n: nat, oldest: nat, k: nat)
    requires oldest < n && k < n
    ensures Pending(n, oldest, Wrap(n, oldest + k)) == k
  {
  }

  lemma SameDistance(n: nat, oldest: nat)
    requires oldest < n
    ensures forall s, s' | 0 <= s < n && 0 <= s' < n :: Pending(n, oldest, s) == Pending(n, oldest, s') ==> s == s'
  {
  }

  lemma ScanMoved(img: seq<Sector>, secs: seq<Sector>, l: Option<Loc>, p: Option<Loc>, oldest: nat, k: nat,
        here: Loc, t: nat)
    requires Scanned(img, img, l, p, true, false, oldest, k, here.i) && l == Some(here)
             && Pending(|img|, oldest, here.s) == k
    requires secs == Killed(img, here, Deleted) || (t < |img| && secs == Moved(img, here, t))
    ensures Scanned(img, secs, l, p, false, false, oldest, k, here.i + 1)
  {
    CutAt(img, l, p);
    SameDistance(|img|, oldest);
    MovedRecords(img, secs, here, t);
    forall s, j | 0 <= s < |secs| && 0 <= j < |secs[s].recs| && secs[s].recs[j].status == PreWrite
      && Visible(secs, Loc(s, j))
      ensures p == Some(Loc(s, j))
    {
      assert secs[s].recs[j] == img[s].recs[j];
    }
    if p.Some? { assert Get(secs, p.value) == Get(img, p.value); }
  }

  lemma MovedRecords(img: seq<Sector>, secs: seq<Sector>, l: Loc, t: nat)
    requires At(img, l) && Get(img, l).status == PreDelete
    requires secs == Killed(img, l, Deleted) || (t < |img| && secs == Moved(img, l, t))
    ensures |secs| == |img|
    ensures forall s, j | 0 <= s < |secs| && 0 <= j < |secs[s].recs| ::
              if Loc(s, j) == l then secs[s].recs[j].status == Deleted
              else if j < |img[s].recs| then secs[s].recs[j] == img[s].recs[j] else secs[s].recs[j].status == Written
    ensures forall s | 0 <= s < |secs| :: |img[s].recs| <= |secs[s].recs|
  {
  }

  lemma ScanSpoiled(img: seq<Sector>, was: seq<Sector>, l: Option<Loc>, p: Option<Loc>, pend: bool, oldest: nat,
        k: nat, here: Loc)
    requires Scanned(img, was, l, p, pend, false, oldest, k, here.i) && p == Some(here)
             && Pending(|img|, oldest, here.s) == k
    ensures Scanned(img, Restatus(was, here, ErrHdr), l, p, pend, true, oldest, k, here.i + 1)
  {
    if pend { CutAt(img, l, p); }
    SameDistance(|img|, oldest);
    var secs := Restatus(was, here, ErrHdr);
    assert forall s, j | 0 <= s < |secs| && 0 <= j < |secs[s].recs|
           && Loc(s, j) != here :: secs[s].recs[j] == was[s].recs[j];
  }

  lemma ScanSector(cap: int, img: seq<Sector>, secs: seq<Sector>, l: Option<Loc>, p: Option<Loc>, pend: bool,
        oldest: nat,
                   k: nat, i: nat, a: nat)
    requires Scanned(img, secs, l, p, pend, false, oldest, k, i) && a < |img| && Pending(|img|, oldest, a) == k
    requires SectorsOk(cap, secs) && (secs[a].store == Using ==> i == |secs[a].recs|)
    ensures Scanned(img, secs, l, p, pend, false, oldest, k + 1, 0)
  {
    hide Cut, Size;
    assert SectorOk(cap, secs[a]);
    SameDistance(|img|, oldest);
  }

  lemma StoppedScan(img: seq<Sector>, secs: seq<Sector>, l: Option<Loc>, p: Option<Loc>, pend: bool, oldest: nat,
        k: nat, i: nat)
    requires Scanned(img, secs, l, p, pend, true, oldest, k, i)
    ensures Scanned(img, secs, l, p, pend, true, oldest, k + 1, 0)
  {
  }

  lemma ScanEnds(img: seq<Sector>, secs: seq<Sector>, l: Option<Loc>, p: Option<Loc>, pend: bool, stop: bool,
        oldest: nat, k: nat)
    requires Scanned(img, secs, l, p, pend, stop, oldest, k, 0) && (stop || k == |img|)
    ensures if pend then l.Some? && p.Some? && !Before(|img|, oldest, l.value, p.value)
            && secs == Restatus(img, p.value, ErrHdr)
            else l.Some? && p.Some? ==> Before(|img|, oldest, l.value, p.value)
    ensures Cut(secs, if pend then l else None, None)
  {
  }

  lemma SpoiledOk(cap: int, secs: seq<Sector>, l: Loc)
    requires SectorsOk(cap, secs) && At(secs, l) && Get(secs, l).status == PreWrite
    ensures SectorsOk(cap, Restatus(secs, l, ErrHdr)) && Empties(Restatus(secs, l, ErrHdr)) == Empties(secs)
  {
    hide Size, Empties;
    SizeOfRestatus(secs[l.s].recs, l.i, ErrHdr);
    assert SectorOk(cap, secs[l.s]);
    EmptiesOfUpdate(secs, l.s, Restatus(secs, l, ErrHdr)[l.s]);
    assert SectorOk(cap, Restatus(secs, l, ErrHdr)[l.s]);
  }

  lemma RestatusKeeps(img: seq<Sector>, p: Loc, loc: Loc)
    requires At(img, p) && At(img, loc) && p != loc
    ensures var img' := Restatus(img, p, ErrHdr); At(img', loc) && Get(img', loc) == Get(img, loc)
  {
  }

  lemma RecordIsOk(cap: int, secs: seq<Sector>, l: Loc)
    requires SectorsOk(cap, secs) && At(secs, l)
    ensures RecordOk(Get(secs, l))
  {
    assert SectorOk(cap, secs[l.s]);
  }

  lemma RecordIsWhole(cap: int, secs: seq<Sector>, l: Loc)
    requires SectorsOk(cap, secs) && At(secs, l) && Get(secs, l).status in {Written, PreDelete, Deleted}
    ensures var r := Get(secs, l);
            && r.part == Whole && |r.name| < NAME_MAX
            && forall st :: Len(r.(status := st)) == Len(r) == REC_HDR + |r.name| + |r.value|
  {
    hide Size;
    RecordIsOk(cap, secs, l);
  }

  lemma RestoredIs(secs: seq<Sector>, at: map<Name, Loc>, l: Loc)
    requires Index(secs, at) && At(secs, l)
    ensures var r := Get(secs, l);
            Restored(secs, at, Some(l)) == if r.name in at then MapOf(secs, at) else MapOf(secs, at)[r.name := r.value]
  {
  }

  /** Marking a live record changes nothing if the marked one counts. */
  lemma MovedMeaning(secs: seq<Sector>, at: map<Name, Loc>, l: Loc)
    requires Index(secs, at) && Live(secs, l)
    ensures var r, secs' := Get(secs, l), Killed(secs, l, PreDelete);
            && Index(secs', at - {r.name}) && At(secs', l)
            && Restored(secs', at - {r.name}, Some(l)) == Restored(secs, at, Some(l)) == MapOf(secs, at)
  {
    hide Index, MapOf;
    var r := Get(secs, l);
    LiveIsIndexed(secs, at, l);
    LiveValue(secs, at, l);
    KilledIndexes(secs, at, l, PreDelete);
    assert (MapOf(secs, at) - {r.name})[r.name := r.value] == MapOf(secs, at)[r.name := r.value];
  }

  predicate Misses(recs: seq<Record>, n: nat, key: Name)
    requires n <= |recs|
  {
    forall i | 0 <= i < n :: !(recs[i].name == key && recs[i].status == Written)
  }

  lemma IndexedIsNotMissed(secs: seq<Sector>, at: map<Name, Loc>, k: Name)
    requires Index(secs, at)
    ensures k in at ==> at[k].s < |secs| && !Misses(secs[at[k].s].recs, |secs[at[k].s].recs|, k)
  {
  }

  /** No stored name fills the buffer for names. */
  lemma LongNames(cap: int, secs: seq<Sector>, at: map<Name, Loc>, key: Name)
    requires SectorsOk(cap, secs) && Index(secs, at)
    ensures |key| >= NAME_MAX ==> key !in at
  {
    hide Size;
    if key in at { RecordIsOk(cap, secs, at[key]); }
  }

  lemma IndexedIsLive(secs: seq<Sector>, at: map<Name, Loc>, k: Name)
    requires Index(secs, at)
    ensures k in at ==> Live(secs, at[k]) && Get(secs, at[k]).name == k
  {
  }

  /** A sector already in use has its store status in the table already. */
  lemma StoreUnchanged(was: seq<Slot>, mid: seq<Slot>, cap: int, secs: seq<Sector>, cur: int, s: nat)
    requires Mirrors(was, cap, secs, cur) && s < |secs|
    requires Changed(was, mid, s, (info: SecInfo) => info.(store := Using)) || (mid == was && secs[s].store == Using)
    ensures Changed(was, mid, s, (info: SecInfo) => info.(store := Using))
  {
  }

  lemma PointsWider(table: seq<Entry>, hash: Name -> nat, secs: seq<Sector>, stale: int, stale': int)
    requires Points(table, hash, secs, stale) && (stale == -1 || stale == stale')
    ensures Points(table, hash, secs, stale')
  {
  }

  lemma LiveIsIndexed(secs: seq<Sector>, at: map<Name, Loc>, l: Loc)
    requires Index(secs, at) && At(secs, l)
    ensures Live(secs, l) ==> Get(secs, l).name in at && at[Get(secs, l).name] == l
  {
    assert secs[l.s].recs[l.i] == Get(secs, l);
  }

  lemma KilledIndexes(secs: seq<Sector>, at: map<Name, Loc>, l: Loc, st: Status)
    requires Index(secs, at) && At(secs, l) && st != Written
    ensures var at' := if Live(secs, l) then at - {Get(secs, l).name} else at;
            && Index(Killed(secs, l, st), at')
            && MapOf(Killed(secs, l, st), at')
               == if Live(secs, l) then MapOf(secs, at) - {Get(secs, l).name} else MapOf(secs, at)
  {
    hide Index, MapOf;
    LiveIsIndexed(secs, at, l);
    var name := Get(secs, l).name;
    var mid := Restatus(secs, l, st);
    if Live(secs, l) {
      KillIndexes(secs, at, name, st);
      DirtyingIndexes(mid, at - {name}, l.s, Dirtied);
    } else {
      DeadRestatusIndexes(secs, at, l, st);
      DirtyingIndexes(mid, at, l.s, Dirtied);
    }
  }

  lemma NoneEmpty(secs: seq<Sector>)
    ensures Empties(secs) == 0 ==> forall s | 0 <= s < |secs| :: secs[s].store != Empty
  {
    forall s | 0 <= s < |secs| && secs[s].store == Empty ensures Empties(secs) > 0 {
      EmptyCounts(secs, s);
    }
  }

  lemma InRing(secs: seq<Sector>, oldest: nat)
    requires oldest < |secs|
    ensures (exists s :: 0 <= s < |secs| && Rotated(secs, oldest)[s].store == Using)
            <==> exists s :: 0 <= s < |secs| && secs[s].store == Using
  {
    var ring := Rotated(secs, oldest);
    forall s | 0 <= s < |secs| ensures ring[if s >= oldest then s - oldest else s + |secs| - oldest] == secs[s] {
    }
    forall j | 0 <= j < |secs| ensures ring[j] == secs[Wrap(|secs|, oldest + j)] {
    }
  }
}
