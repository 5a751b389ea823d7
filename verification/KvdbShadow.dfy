/** When a name is mistaken for another: the lookup through the table compares no more than the key's length. */
module KvdbShadow {
  import opened Kvdb
  import opened KvdbImage
  import opened KvdbSteps
  import opened KvdbStore
  import opened KvdbTables
  import Crc

  lemma FreshRoom(cap: int, n: nat)
    requires n + THRESHOLD < cap
    ensures var secs := seq(2, i => FRESH);
            SectorsOk(cap, secs) && Index(secs, map[]) && MapOf(secs, map[]) == map[] && Empties(secs) == 2
            && Tidy(secs) && Candidate(cap, secs, false, 0, n)
  {
    var secs := seq(2, i => FRESH);
    assert secs[..1][..0] == [];
    assert Empties(secs[..1]) == 1;
  }

  /** The record that a first set leaves behind is read with nothing but erased flash after it. */
  lemma FirstRecord(secs: seq<Sector>, l: Loc, b: Name, v: Value)
    requires At(secs, l) && l.i == 0 && secs[l.s].recs == [Record(Written, b, v, Whole)]
    ensures FromName(secs, l) == (b + v + Erased(NAME_MAX))[..NAME_MAX]
  {
    hide FromName;
    ErasedBehindLast(secs, l);
  }

  lemma NothingToMistake(hash: Name -> nat, key: Name)
    ensures Unmistakable(hash, map[], key)
  {
  }

  lemma HitShadows(db: Db, key: Name, l: Loc)
    requires At(db.secs, l) && key <= FromName(db.secs, l) && Get(db.secs, l).name != key
    requires Remembers(db.kvTable, db.hash(key), l)
    ensures db.Shadowed(key)
  {
    hide FromName;
    HitsAnActiveEntry(db.kvTable, db.hash, db.secs, key, l);
  }

  /** On fresh flash one name is set. Its record is remembered, and a lookup reads name, value and erased flash. */
  method SetFirst(b: Name, v: Value, cap: int, kvFound: seq<Entry>, found: seq<Found>) returns (db: Db, ghost l: Loc)
    requires |b| < NAME_MAX && 0 < |kvFound| <= MAX_ACTIVE && REC_HDR + |b| + |v| + THRESHOLD < cap
    ensures fresh(db) && db.Valid() && db.hash == NameCrc && db.Contents() == map[b := v]
    ensures Remembers(db.kvTable, NameCrc(b), l) && At(db.secs, l) && Get(db.secs, l).name == b
    ensures FromName(db.secs, l) == (b + v + Erased(NAME_MAX))[..NAME_MAX]
    ensures db.cap == cap && db.kvSize > 0 && |db.secs| == 2 && l.i == 0
    ensures db.secs[l.s] == Sector(Using, Clean, [Record(Written, b, v, Whole)]) && db.secs[1 - l.s] == FRESH
  {
    hide SectorsOk, Index, Distinct, Points, OneEach, Mirrors, MapOf, Empties, Tidy, Unmistakable,
         SetBase, SetTrace, Candidate, FromName, NameCrc, Erased, Remembers;
    var flash := seq(2, i => FRESH);
    FreshRoom(cap, REC_HDR + |b| + |v|);
    db := new Db(cap, flash, kvFound, found, map[]);
    NothingToMistake(db.hash, b);
    var q, of, base, _, t, _ := db.SetKv(b, v);
    l := db.at[b];
    assert base == flash && flash[t] == FRESH;
    FirstRecord(db.secs, l, b, v);
  }

  /** Every other key with its hash that those bytes start with, and be it with erased ones, then gets its value, and
      deleting that key removes it. */
  method AnswersForAnother(b: Name, v: Value, key: Name, cap: int, kvFound: seq<Entry>, found: seq<Found>)
    returns (db: Db, ghost m: map<Name, Value>, data: Value, r: Result)
    requires key != b && NameCrc(key) == NameCrc(b) && |b| < NAME_MAX
    requires key <= (b + v + Erased(NAME_MAX))[..NAME_MAX]
    requires 0 < |kvFound| <= MAX_ACTIVE && REC_HDR + |b| + |v| + THRESHOLD < cap
    ensures m == map[b := v] && data == v && r == Ok
    ensures fresh(db) && db.Valid() && db.Contents() == map[]
  {
    hide SectorsOk, Index, Distinct, Points, OneEach, Mirrors, MapOf, Empties, Tidy, Unmistakable,
         FromName, NameCrc, Erased, Remembers;
    var store, l := SetFirst(b, v, cap, kvFound, found);
    db := store;
    m := db.Contents();
    HitShadows(db, key, l);
    var d, _, of := db.GetKv(key, |v|);
    data := d;
    assert of == b;
    var q, _ := db.DeleteKv(key);
    r := q;
  }

  /** Names of which one starts the other, with equal hashes, do not go together: setting the longer one and deleting
      the shorter leaves nothing, although the shorter was never set. */
  method RunNeedsApart(a: Name, b: Name, v: Value, cap: int, kvFound: seq<Entry>, found: seq<Found>)
    returns (db: Db, ops: seq<Op>, rs: seq<Result>)
    requires a <= b && a != b && NameCrc(a) == NameCrc(b) && |b| < NAME_MAX
    requires 0 < |kvFound| <= MAX_ACTIVE && REC_HDR + |b| + |v| + THRESHOLD < cap
    ensures ops == [Set(b, v), Delete(a)] && rs == [Ok, Ok]
    ensures db.Valid() && db.Contents() == map[] && ApplyAll(map[], ops, rs) == map[b := v]
  {
    hide SectorsOk, Index, Distinct, Points, OneEach, Mirrors, MapOf, Empties, Tidy, NameCrc, Erased;
    StartsThere(a, b, v);
    var q, _, _, r := AnswersForAnother(b, v, a, cap, kvFound, found);
    db, ops, rs := q, [Set(b, v), Delete(a)], [Ok, r];
    assert ops[..1][..0] == [] && rs[..1][..0] == [];
    assert ApplyAll(map[], ops[..1], rs[..1]) == map[b := v];
  }

  lemma StartsThere(a: Name, b: Name, v: Value)
    requires a <= b && |b| < NAME_MAX
    ensures a <= (b + v + Erased(NAME_MAX))[..NAME_MAX]
  {
    var bytes := (b + v + Erased(NAME_MAX))[..NAME_MAX];
    assert bytes[..|a|] == b[..|a|] == a;
  }

  /** Two sectors of which one is in use: every record that has room goes there. */
  lemma OneInUse(cap: int, secs: seq<Sector>, t: nat, recs: seq<Record>, n: nat)
    requires |secs| == 2 && t < 2 && secs[t] == Sector(Using, Clean, recs) && secs[1 - t] == FRESH
    requires Size(recs) + n + THRESHOLD < cap
    ensures Candidate(cap, secs, false, t, n)
    ensures forall s: nat | Candidate(cap, secs, false, s, n) :: s == t
  {
    hide Size, Empties;
    EmptiesOfTwo(secs);
  }

  lemma SizesOfTwo(r: Record, r': Record)
    ensures Size([]) == 0 && Size([r]) == Len(r) && Size([r, r']) == Len(r) + Len(r')
  {
    assert [r][..0] == [] && [r, r'][..1] == [r];
  }

  /** A short name and then a longer one that it starts, with equal hashes: both are stored, and the one entry for the
      hash is the longer one's. */
  method SetTwo(a: Name, b: Name, v: Value, w: Value, cap: int, kvFound: seq<Entry>, found: seq<Found>)
    returns (db: Db, ghost t: nat)
    requires a <= b && a != b && NameCrc(a) == NameCrc(b) && |b| < NAME_MAX && !(b <= a + v) && !(a + v <= b)
    requires 0 < |kvFound| <= MAX_ACTIVE && 2 * REC_HDR + |a| + |v| + |b| + |w| + THRESHOLD < cap
    ensures fresh(db) && db.Valid() && db.cap == cap && db.hash == NameCrc && db.kvSize > 0
    ensures a in db.Contents() && |db.secs| == 2 && t < 2 && db.secs[1 - t] == FRESH
    ensures db.secs[t] == Sector(Using, Clean, [Record(Written, a, v, Whole), Record(Written, b, w, Whole)])
    ensures Remembers(db.kvTable, NameCrc(a), Loc(t, 1))
  {
    hide SectorsOk, Index, Distinct, Points, OneEach, Mirrors, MapOf, Empties, Tidy, Unmistakable, Size,
         SetBase, SetTrace, Candidate, FromName, NameCrc, Remembers, SomeAnswers;
    ghost var ra, rb := Record(Written, a, v, Whole), Record(Written, b, w, Whole);
    var store, l := SetFirst(a, v, cap, kvFound, found);
    db, t := store, l.s;
    SizesOfTwo(ra, rb);
    OneInUse(cap, db.secs, t, [ra], REC_HDR + |b| + |w|);
    OnlyThis(db.hash, a, v, b);
    ghost var m := db.Contents();
    var _, of, base, at0, t2, _ := db.SetKv(b, w);
    SetHasRoom(cap, base, at0, m, b, w, t2);
    assert [ra] + [rb] == [ra, rb];
  }

  /** Then a set of the short one takes the record of the longer one for its own. The old record of the short name
      stays, and the sectors stand for no map. */
  method SetDoubles(a: Name, b: Name, v: Value, w: Value, x: Value, cap: int, kvFound: seq<Entry>, found: seq<Found>)
    returns (db: Db, r: Result)
    requires a <= b && a != b && NameCrc(a) == NameCrc(b) && |b| < NAME_MAX && !(b <= a + v) && !(a + v <= b)
    requires 0 < |kvFound| <= MAX_ACTIVE
    requires 3 * REC_HDR + |a| + |v| + |b| + |w| + |a| + |x| + THRESHOLD < cap
    ensures r == Ok && db.Tables(-1) && forall at :: !Index(db.secs, at)
  {
    hide SectorsOk, Index, Distinct, Points, OneEach, Mirrors, MapOf, Empties, Tidy, Unmistakable, Size,
         SetBase, SetTrace, Candidate, FromName, NameCrc, Remembers, SomeAnswers;
    var store, t := SetTwo(a, b, v, w, cap, kvFound, found);
    db := store;
    ghost var ra, rb := Record(Written, a, v, Whole), Record(Written, b, w, Whole);
    SizesOfTwo(ra, rb);
    OneInUse(cap, db.secs, t, [ra, rb], REC_HDR + |a| + |x|);
    PrefixOfRead(db.secs, Loc(t, 1), a);
    assert a <= b + w by { assert (b + w)[..|a|] == b[..|a|]; }
    HitShadows(db, a, Loc(t, 1));
    var q, _, _, _, _, _ := db.SetKv(a, x);
    r := q;
  }

  lemma SetHasRoom(cap: int, secs: seq<Sector>, at: map<Name, Loc>, m: map<Name, Value>, key: Name, value: Value,
        t: nat)
    requires SetBase(cap, secs, at, m, key, value, t)
    ensures Candidate(cap, secs, false, t, REC_HDR + |key| + |value|) && at.Keys == m.Keys
  {
  }

  lemma OnlyThis(hash: Name -> nat, k: Name, v: Value, key: Name)
    requires !(key <= k + v) && !(k + v <= key)
    ensures Unmistakable(hash, map[k := v], key)
  {
  }

  // ---------- two pairs of names ----------

  lemma StepsOfCash()
    ensures Crc.Step(Crc.START, 0x63) == 0xF9462090 && Crc.Step(0xF9462090, 0x61) == 0xCA4384AA
    ensures Crc.Step(0xCA4384AA, 0x73) == 0xFFC529F4 && Crc.Step(0xFFC529F4, 0x68) == 0xF9461A46
  {
  }

  lemma StepsOfBduj()
    ensures Crc.Step(Crc.START, 0x62) == 0x8E411006 && Crc.Step(0x8E411006, 0x64) == 0xA3324164
    ensures Crc.Step(0xA3324164, 0x75) == 0x6A1312B3 && Crc.Step(0x6A1312B3, 0x6A) == 0xFF657962
    ensures Crc.Step(0xFF657962, 0xFF) == 0x8E418A80
  {
  }

  lemma Halves()
    ensures Crc.Not(0) == Crc.START
    ensures Upper(Crc.Not(0xF9462090)) == Upper(Crc.Not(0xF9461A46))
    ensures Upper(Crc.Not(0x8E411006)) == Upper(Crc.Not(0x8E418A80))
  {
  }

  lemma BitsOfNames()
    ensures Bits([0x63]) == [0x63] && Bits([0x63, 0x61, 0x73, 0x68]) == [0x63, 0x61, 0x73, 0x68]
    ensures Bits([0x62]) == [0x62] && Bits([0x62, 0x64, 0x75, 0x6A, 0xFF]) == [0x62, 0x64, 0x75, 0x6A, 0xFF]
  {
  }

  /** "c" and "cash". */
  lemma CashHashesAsC()
    ensures NameCrc([0x63]) == NameCrc([0x63, 0x61, 0x73, 0x68])
  {
    StepsOfCash();
    BitsOfNames();
    Halves();
    hide Crc.Step, Crc.Not, Bits, Upper;
    var d1: seq<bv8>, d2: seq<bv8>, d3: seq<bv8> := [0x63], [0x63, 0x61], [0x63, 0x61, 0x73];
    var d4: seq<bv8> := [0x63, 0x61, 0x73, 0x68];
    Crc.StepsNext([], d1, 0x63, Crc.START, 0xF9462090);
    hide Crc.Steps;
    Crc.StepsNext(d1, d2, 0x61, 0xF9462090, 0xCA4384AA);
    Crc.StepsNext(d2, d3, 0x73, 0xCA4384AA, 0xFFC529F4);
    Crc.StepsNext(d3, d4, 0x68, 0xFFC529F4, 0xF9461A46);
  }

  /** "b" and "bduj" with an erased byte behind it. */
  lemma BdujHashesAsB()
    ensures NameCrc([0x62]) == NameCrc([0x62, 0x64, 0x75, 0x6A, 0xFF])
  {
    StepsOfBduj();
    BitsOfNames();
    Halves();
    hide Crc.Step, Crc.Not, Bits, Upper;
    var d1: seq<bv8>, d2: seq<bv8>, d3: seq<bv8> := [0x62], [0x62, 0x64], [0x62, 0x64, 0x75];
    var d4: seq<bv8>, d5: seq<bv8> := [0x62, 0x64, 0x75, 0x6A], [0x62, 0x64, 0x75, 0x6A, 0xFF];
    Crc.StepsNext([], d1, 0x62, Crc.START, 0x8E411006);
    hide Crc.Steps;
    Crc.StepsNext(d1, d2, 0x64, 0x8E411006, 0xA3324164);
    Crc.StepsNext(d2, d3, 0x75, 0xA3324164, 0x6A1312B3);
    Crc.StepsNext(d3, d4, 0x6A, 0x6A1312B3, 0xFF657962);
    Crc.StepsNext(d4, d5, 0xFF, 0xFF657962, 0x8E418A80);
  }

  /** The cache answers for "c" with the record of "cash", whatever its value. */
  method CashAnswersForC(v: Value, cap: int)
    returns (db: Db, ghost m: map<Name, Value>, data: Value, r: Result)
    requires REC_HDR + 4 + |v| + THRESHOLD < cap
    ensures m == map[[0x63, 0x61, 0x73, 0x68] := v] && data == v && r == Ok
    ensures db.Valid() && db.Contents() == map[]
  {
    hide NameCrc, Erased;
    CashHashesAsC();
    StartsThere([0x63], [0x63, 0x61, 0x73, 0x68], v);
    var table := seq(64, i => Entry(None, 0, 0));
    db, m, data, r := AnswersForAnother([0x63, 0x61, 0x73, 0x68], v, [0x63], cap, table, seq(8, i => Zeroed));
  }

  /** It answers for "bduj" and an erased byte with the record of "b" when its value is "duj". */
  method BAnswersForBduj(cap: int)
    returns (db: Db, ghost m: map<Name, Value>, data: Value, r: Result)
    requires REC_HDR + 4 + THRESHOLD < cap
    ensures m == map[[0x62] := [0x64, 0x75, 0x6A]] && data == [0x64, 0x75, 0x6A] && r == Ok
    ensures db.Valid() && db.Contents() == map[]
  {
    hide NameCrc;
    BdujHashesAsB();
    var b: Name, v: Value, key: Name := [0x62], [0x64, 0x75, 0x6A], [0x62, 0x64, 0x75, 0x6A, 0xFF];
    assert key == (b + v + Erased(NAME_MAX))[..NAME_MAX][..5];
    db, m, data, r := AnswersForAnother(b, v, key, cap, seq(64, i => Entry(None, 0, 0)), seq(8, i => Zeroed));
  }
}
