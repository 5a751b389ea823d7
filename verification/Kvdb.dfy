/** The key-value database: a handle whose methods change flash sectors and RAM tables step by step. */
module Kvdb {
  import opened KvdbCuts
  import opened KvdbImage
  import opened KvdbPacking
  import opened KvdbRoom
  import opened KvdbStore
  import opened KvdbSteps
  import opened KvdbSweep
  import opened KvdbTables
  import opened Cyclic

  datatype Result = Ok | NameErr | SavedFull

  class Db {
    const hash: Name -> nat      // the upper 16 bits of the CRC of a name
    const kvSize: nat            // the size of the record table
    const cap: int               // the bytes of a sector behind its header; a multiple of the erase size less 16
    var secs: seq<Sector>
    var oldest: nat
    var gcRequest: bool
    var lastIsCompleteDel: bool
    var inRecovery: bool
    var kvTable: seq<Entry>
    var secTable: seq<Slot>
    ghost var at: map<Name, Loc>
    ghost var cur: int                  // the sector that is being collected, or -1
    ghost var trace: seq<seq<Sector>>   // the flash after every write so far
    ghost var collected: seq<nat>   // the sectors that garbage collection has emptied so far

    /** fdb_kvdb_init up to the check of the flash. The oldest sector is looked for through the sector table as it is
        found, and only then are the tables emptied. What the search itself would add to the table is about sectors that
        it has passed. */
    constructor (cap: int, image: seq<Sector>, kvFound: seq<Entry>, found: seq<Found>, ghost at: map<Name, Loc>)
      requires |image| >= 2 && SectorsOk(cap, image) && Index(image, at) && |kvFound| <= MAX_ACTIVE
      ensures secs == image && this.at == at && hash == NameCrc && this.cap == cap && Core(-1) && cur == -1
      ensures oldest == StartOf(found, image) && !gcRequest && !lastIsCompleteDel && !inRecovery && trace == []
      ensures kvSize == |kvFound| && forall i | 0 <= i < kvSize :: kvTable[i] == kvFound[i].(addr := None)
    {
      hash, kvSize, this.cap, secs, this.at := NameCrc, |kvFound|, cap, image, at;
      gcRequest, lastIsCompleteDel, inRecovery, cur := false, false, false, -1;
      kvTable := seq(|kvFound|, i requires 0 <= i < |kvFound| => kvFound[i].(addr := None));
      secTable := seq(|found|, i => Unused);
      trace, collected := [], [];
      oldest := 0;
      new;
      oldest := FindOldest(found);
    }

    /** The search of fdb_kvdb_init for the oldest sector. */
    method FindOldest(found: seq<Found>) returns (first: nat)
      requires |secs| > 0
      ensures first == StartOf(found, secs)
    {
      hide Seen, FirstFor, OldestOf;
      var a, k, last, more := 0, 0, Option.None, true;
      first := 0;
      OldestNext(Seen(found, secs), 0);
      while more
        invariant a < |secs| && (if more then k <= |secs| else k <= |secs| + 1)
        invariant if ZeroFirst(found) then a == first == 0 && last == None
                  else k <= |secs| && first == OldestOf(Seen(found, secs), k) && (if more then a == k else k == |secs|)
                       && last == if k == 0 then None else Some(Seen(found, secs)[k - 1].store)
        decreases more, |secs| + 1 - k
      {
        SeenAt(found, secs, a);
        if k < |secs| { OldestNext(Seen(found, secs), k); }
        k := k + 1;
        var store, size := Some(secs[a].store), 1;
        match FirstFor(found, a) {
          case Some(Zeroed) => store, size := None, 0;
          case Some(Left(info)) => store := Some(info.store);
          case _ =>
        }
        if last == Some(Empty) && store == Some(Using) { first := a; }
        last := store;
        if k + size <= |secs| {
          a := if a + size < |secs| then a + size else 0;
        } else {
          more := false;
        }
      }
    }

    // ---------- the record table ----------

    /** update_kv_cache. */
    method UpdateKvCache(crc: nat, addr: Option<Loc>) returns (ghost slot: nat)
      requires Distinct(kvTable)
      modifies this`kvTable
      ensures |kvTable| == |old(kvTable)| && Distinct(kvTable) && Stored(old(kvTable), kvTable, crc, addr)
      ensures Updated(old(kvTable), kvTable, crc, addr, slot)
      ensures addr.Some? && |kvTable| > 0 ==> Remembers(kvTable, crc, addr.value)
    {
      hide Distinct, Stored, Updated, Remembers, FirstWith;
      ghost var was := kvTable;
      TableSize(was);
      var emptyIndex: nat, minIndex: nat, minActivity := |kvTable|, |kvTable|, MAX_ACTIVE;
      var i := 0;
      while i < |kvTable|
        invariant 0 <= i <= |was| && kvTable == if addr == None then was else Aged(was, i)
        invariant forall j | 0 <= j < i :: was[j].crc != crc
        invariant addr == None ==> emptyIndex == minIndex == |was|
        invariant addr.Some? && emptyIndex == |was| ==> forall j | 0 <= j < i :: was[j].addr != None
        invariant emptyIndex < |was| ==> was[emptyIndex].addr == None
        invariant emptyIndex < |was| ==> forall j | 0 <= j < emptyIndex :: was[j].addr != None
        invariant minIndex < |was| ==> minIndex < i && was[minIndex].addr != None
        invariant minIndex < |was| ==> kvTable[minIndex].active == minActivity
        invariant minIndex < |was| ==> forall j | 0 <= j < i && was[j].addr != None ::
                    minActivity <= kvTable[j].active && (j < minIndex ==> minActivity < kvTable[j].active)
        invariant minIndex == |was| ==> minActivity == MAX_ACTIVE
        invariant addr.Some? && minIndex == |was| ==> forall j | 0 <= j < i :: was[j].addr == None
        invariant addr.Some? && i > 0 ==> emptyIndex < |was| || minIndex < |was|
        invariant emptyIndex <= |was| && minIndex <= |was|
      {
        if addr != None {
          if kvTable[i].crc == crc {
            kvTable := kvTable[i := kvTable[i].(addr := addr)];
            FoundThere(was, kvTable, crc, addr, i);
            return i;
          } else if kvTable[i].addr == None && emptyIndex == |kvTable| {
            emptyIndex := i;
          } else if kvTable[i].addr != None {
            if kvTable[i].active > 0 {
              kvTable := kvTable[i := kvTable[i].(active := kvTable[i].active - 1)];
            }
            if kvTable[i].active < minActivity {
              minIndex := i;
              minActivity := kvTable[i].active;
            }
          }
        } else if kvTable[i].crc == crc {
          kvTable := kvTable[i := kvTable[i].(addr := None, active := 0)];
          FoundThere(was, kvTable, crc, addr, i);
          return i;
        }
        i := i + 1;
      }
      slot := |kvTable|;
      ghost var aged := kvTable;
      if emptyIndex < |kvTable| {
        slot := emptyIndex;
        assert GivesWay(aged, slot);
        kvTable := kvTable[emptyIndex := Entry(addr, crc, |kvTable|)];
      } else if minIndex < |kvTable| {
        slot := minIndex;
        assert GivesWay(aged, slot);
        kvTable := kvTable[minIndex := Entry(addr, crc, |kvTable|)];
      }
      NotFound(was, kvTable, crc, addr, slot);
    }

    /** get_kv_from_cache: the entry whose CRC fits and where the flash, as far as the key is long, reads as the key. */
    method GetKvFromCache(key: Name) returns (addr: Option<Loc>)
      requires Points(kvTable, hash, secs, -1) && Distinct(kvTable)
      modifies this`kvTable
      ensures |kvTable| == |old(kvTable)| && Distinct(kvTable) && Points(kvTable, hash, secs, -1)
      ensures addr == None ==> kvTable == old(kvTable)
      ensures addr.Some? ==> exists i :: 0 <= i < |old(kvTable)| && Hits(old(kvTable), kvTable, hash(key), addr, i)
      ensures addr.Some? ==> Live(secs, addr.value)
                             && hash(Get(secs, addr.value).name) == hash(key)
                             && Hit(old(kvTable), hash, secs, key, addr.value)
      ensures addr == None ==> forall i | 0 <= i < |old(kvTable)| && old(kvTable)[i].addr.Some? ::
                !Hit(old(kvTable), hash, secs, key, old(kvTable)[i].addr.value)
    {
      hide FromName;
      ghost var was := kvTable;
      var i := 0;
      while i < |kvTable|
        invariant 0 <= i <= |kvTable| && kvTable == was
        invariant forall j | 0 <= j < i && was[j].addr.Some?
                  && was[j].crc == hash(key) :: !(key <= FromName(secs, was[j].addr.value))
      {
        if kvTable[i].addr != None && kvTable[i].crc == hash(key) {
          var l := kvTable[i].addr.value;
          if key <= FromName(secs, l) {
            assert was[i] == Entry(Some(l), hash(key), was[i].active);
            var n := kvTable[i].active;
            kvTable := kvTable[i := kvTable[i].(active := if n + |kvTable| >= MAX_ACTIVE then MAX_ACTIVE
              else n + |kvTable|)];
            assert Hits(was, kvTable, hash(key), Some(l), i);
            return Some(l);
          }
        }
        i := i + 1;
      }
      addr := None;
    }

    // ---------- the sector table ----------

    /** get_sector_from_cache: the slot of this sector, or the size of the table. */
    method GetSectorFromCache(s: nat) returns (i: nat)
      ensures i <= |secTable|
      ensures i < |secTable| ==> secTable[i].Holds? && secTable[i].info.addr == s
      ensures i == |secTable| ==> forall j | 0 <= j < |secTable| && secTable[j].Holds? :: secTable[j].info.addr != s
    {
      i := 0;
      while i < |secTable|
        invariant i <= |secTable|
        invariant forall j | 0 <= j < i && secTable[j].Holds? :: secTable[j].info.addr != s
      {
        if secTable[i].Holds? && secTable[i].info.addr == s { return; }
        i := i + 1;
      }
    }

    /** update_sector_cache for a sector whose header is good. */
    method UpdateSectorCache(info: SecInfo)
      requires OneEach(secTable) && Mirrors(secTable, cap, secs, cur) && Mirror(info, cap, secs, cur)
      modifies this`secTable
      ensures OneEach(secTable) && Mirrors(secTable, cap, secs, cur) && |secTable| == |old(secTable)|
      ensures forall i | 0 <= i < |secTable| :: secTable[i] == old(secTable)[i]
                || (secTable[i] == Holds(info) && FreeFor(old(secTable)[i], info.addr))
      ensures (exists i :: 0 <= i < |secTable| && secTable[i] == Holds(info))
              <==> exists i :: 0 <= i < |secTable| && FreeFor(old(secTable)[i], info.addr)
    {
      var emptyIndex := |secTable|;
      var i := 0;
      while i < |secTable|
        invariant 0 <= i <= |secTable| == |old(secTable)| && secTable == old(secTable)
        invariant forall j | 0 <= j < i && secTable[j].Holds? :: secTable[j].info.addr != info.addr
        invariant emptyIndex == |secTable| || (0 <= emptyIndex < i && secTable[emptyIndex] == Unused)
        invariant emptyIndex == |secTable| ==> forall j | 0 <= j < i :: secTable[j] != Unused
      {
        if secTable[i].Holds? && secTable[i].info.addr == info.addr {
          secTable := secTable[i := Holds(info)];
          assert secTable[i] == Holds(info) && FreeFor(old(secTable)[i], info.addr);
          return;
        } else if secTable[i] == Unused {
          emptyIndex := i;
        }
        i := i + 1;
      }
      if emptyIndex < |secTable| {
        secTable := secTable[emptyIndex := Holds(info)];
        assert secTable[emptyIndex] == Holds(info) && FreeFor(old(secTable)[emptyIndex], info.addr);
      }
    }

    /** update_sector_cache for a sector whose header is gone: its slot is given up. */
    method DropSectorCache(s: nat)
      requires OneEach(secTable)
      modifies this`secTable
      ensures OneEach(secTable) && |secTable| == |old(secTable)|
      ensures forall i | 0 <= i < |secTable| && secTable[i].Holds? ::
                secTable[i] == old(secTable)[i] && secTable[i].info.addr != s
    {
      var i := GetSectorFromCache(s);
      if i < |secTable| { secTable := secTable[i := Unused]; }
    }

    /** update_sector_empty_addr_cache, update_sector_status_store_cache and the update of the dirty status. */
    method UpdateSectorEmpty(s: nat, remain: int)
      requires OneEach(secTable)
      modifies this`secTable
      ensures OneEach(secTable) && Changed(old(secTable), secTable, s,
              (info: SecInfo) => info.(known := true, remain := remain))
    {
      var i := GetSectorFromCache(s);
      if i < |secTable| { secTable := secTable[i := Holds(secTable[i].info.(known := true, remain := remain))]; }
    }

    method UpdateSectorStore(s: nat, st: Store)
      requires OneEach(secTable)
      modifies this`secTable
      ensures OneEach(secTable) && Changed(old(secTable), secTable, s, (info: SecInfo) => info.(store := st))
    {
      var i := GetSectorFromCache(s);
      if i < |secTable| { secTable := secTable[i := Holds(secTable[i].info.(store := st))]; }
    }

    method UpdateSectorDirty(s: nat)
      requires OneEach(secTable)
      modifies this`secTable
      ensures OneEach(secTable) && Changed(old(secTable), secTable, s, (info: SecInfo) => info.(dirty := Dirtied))
    {
      var i := GetSectorFromCache(s);
      if i < |secTable| { secTable := secTable[i := Holds(secTable[i].info.(dirty := Dirtied))]; }
    }

    /** read_sector_info: from the table if it knows enough, else from the flash. */
    method ReadSectorInfo(s: nat, traversal: bool) returns (info: SecInfo)
      requires s < |secs| && OneEach(secTable) && Mirrors(secTable, cap, secs, cur)
      modifies this`secTable
      ensures OneEach(secTable) && Mirrors(secTable, cap, secs, cur)
      ensures Mirror(info, cap, secs, cur) && info.addr == s && (traversal ==> info.known)
    {
      var i := GetSectorFromCache(s);
      if i < |secTable| && (!traversal || secTable[i].info.known) {
        return secTable[i].info;
      }
      info := SecInfo(s, secs[s].store, secs[s].dirty, false, 0);
      if traversal {
        var remain := cap;
        var k := 0;
        while k < |secs[s].recs|
          invariant 0 <= k <= |secs[s].recs| && remain == cap - Size(secs[s].recs[..k])
        {
          assert secs[s].recs[..k + 1][..k] == secs[s].recs[..k];
          remain := remain - Len(secs[s].recs[k]);
          k := k + 1;
        }
        assert secs[s].recs[..k] == secs[s].recs;
        info := info.(known := true, remain := remain);
        UpdateSectorCache(info);
      } else {
        UpdateSectorCache(info);
      }
    }

    // ---------- allocation ----------

    /** get_next_sector_addr for sectors that are not combined. */
    method NextSector(a: nat) returns (b: nat)
      requires a < |secs|
      ensures b == if a + 1 < |secs| then a + 1 else 0
    {
      if a + 1 < |secs| { b := a + 1; } else { b := 0; }
    }

    /** The statistics pass of alloc_kv. */
    method CountStores() returns (empty: nat, using: nat)
      requires oldest < |secs| && OneEach(secTable) && Mirrors(secTable, cap, secs, cur)
      modifies this`secTable
      ensures OneEach(secTable) && Mirrors(secTable, cap, secs, cur)
      ensures empty == Empties(secs) && (using > 0 <==> exists s :: 0 <= s < |secs| && secs[s].store == Using)
    {
      ghost var ring := Rotated(secs, oldest);
      empty, using := 0, 0;
      var a, k := oldest, 0;
      while k < |secs|
        invariant 0 <= k <= |secs| && a == Wrap(|secs|, oldest + k)
        invariant OneEach(secTable) && Mirrors(secTable, cap, secs, cur)
        invariant empty == Empties(ring[..k])
        invariant using > 0 <==> exists s :: 0 <= s < k && ring[s].store == Using
      {
        var info := ReadSectorInfo(a, false);
        assert ring[k] == secs[a];
        assert ring[..k + 1][..k] == ring[..k];
        if info.store == Empty {
          empty := empty + 1;
        } else {
          using := using + 1;
        }
        a := NextSector(a);
        k := k + 1;
      }
      assert ring[..k] == ring;
      EmptiesOfRotation(secs, oldest);
      InRing(secs, oldest);
    }

    /** The search passes of alloc_kv: the first sector in ring order of this kind with enough room. */
    method FirstFit(store: Store, n: nat) returns (r: Option<nat>)
      requires oldest < |secs| && OneEach(secTable) && Mirrors(secTable, cap, secs, cur)
      requires gcRequest || cur < 0
      modifies this`secTable
      ensures OneEach(secTable) && Mirrors(secTable, cap, secs, cur)
      ensures r.Some? ==> Usable(cap, secs, gcRequest, r.value, n) && secs[r.value].store == store
      ensures r.Some? ==> forall s | 0 <= s < |secs| && Pending(|secs|, oldest, s) < Pending(|secs|, oldest, r.value)
                                     && secs[s].store == store :: !Usable(cap, secs, gcRequest, s, n)
      ensures r == None ==> forall s | 0 <= s < |secs| && secs[s].store == store :: !Usable(cap, secs, gcRequest, s, n)
    {
      var a, k := oldest, 0;
      while k < |secs|
        invariant 0 <= k <= |secs| && a == Wrap(|secs|, oldest + k)
        invariant OneEach(secTable) && Mirrors(secTable, cap, secs, cur)
        invariant forall s | 0 <= s < |secs| && Pending(|secs|, oldest, s) < k && secs[s].store == store ::
                    !Usable(cap, secs, gcRequest, s, n)
      {
        var info := ReadSectorInfo(a, false);
        if info.store == store {
          info := ReadSectorInfo(a, true);
          if info.remain > n + THRESHOLD && (info.dirty == Clean || (info.dirty == Dirtied && !gcRequest)) {
            return Some(a);
          }
        }
        a := NextSector(a);
        k := k + 1;
      }
      r := None;
    }

    /** alloc_kv. When the last empty sector would have to be taken, a collection is asked for instead. */
    method AllocKv(n: nat) returns (r: Option<nat>)
      requires oldest < |secs| && OneEach(secTable) && Mirrors(secTable, cap, secs, cur)
      requires gcRequest || cur < 0
      modifies this`secTable, this`gcRequest
      ensures OneEach(secTable) && Mirrors(secTable, cap, secs, cur)
      ensures r.Some? ==> Candidate(cap, secs, old(gcRequest), r.value, n) && gcRequest == old(gcRequest)
                          && FirstChoice(cap, secs, oldest, gcRequest, r.value, n)
      ensures r == None ==> forall s | 0 <= s < |secs| :: !Candidate(cap, secs, old(gcRequest), s, n)
      ensures r == None ==> gcRequest == (old(gcRequest) || Empties(secs) == 1)
      ensures r.Some? <==>
                exists s :: && 0 <= s < |secs| && Size(secs[s].recs) + n + 88 < cap
                            && if old(gcRequest) then secs[s].dirty == Clean
                               else secs[s].dirty != Collecting && (secs[s].store == Using || Empties(secs) > 1)
      ensures r.Some? && secs[r.value].store == Empty ==>
                forall s | 0 <= s < |secs| && secs[s].store == Using
                           && (if gcRequest then secs[s].dirty == Clean else secs[s].dirty != Collecting) ::
                  Size(secs[s].recs) + n + 88 >= cap
    {
      hide Mirrors, OneEach, Usable, Empties, Size;
      CandidatesAre(cap, secs, gcRequest, n);
      r := None;
      var empty, using := CountStores();
      if using > 0 {
        r := FirstFit(Using, n);
      }
      if empty > 0 && r == None {
        if empty > 1 || gcRequest {
          r := FirstFit(Empty, n);
        } else {
          gcRequest := true;
        }
      }
      NoneEmpty(secs);
    }

    // ---------- records ----------

    /** What holds at every moment of the flash and the tables; `stale` is the CRC whose entry may point at a record
        that is being replaced. */
    ghost predicate Tables(stale: int)
      reads this`secs, this`oldest, this`kvTable, this`secTable, this`cur
    {
      && |secs| >= 2 && oldest < |secs| && SectorsOk(cap, secs)
      && |kvTable| == kvSize && Distinct(kvTable) && Points(kvTable, hash, secs, stale)
      && OneEach(secTable) && Mirrors(secTable, cap, secs, cur)
    }

    /** And the flash stands for a map. */
    ghost predicate Core(stale: int)
      reads this
    {
      Tables(stale) && Index(secs, at)
    }

    lemma FlashIsOk(stale: int)
      requires Tables(stale)
      ensures |secs| >= 2 && SectorsOk(cap, secs)
    {
    }

    /** What the database stores. */
    ghost function Contents(): map<Name, Value>
      requires Index(secs, at)
      reads this
    {
      MapOf(secs, at)
    }

    /** What it stores if the record at l, that is only marked, counts. */
    ghost function Meaning(l: Option<Loc>): map<Name, Value>
      requires Index(secs, at) && (l.Some? ==> At(secs, l.value))
      reads this
    {
      Restored(secs, at, l)
    }

    /** The end of del_kv: a sector that was clean is marked dirty. */
    method MarkDirty(s: nat, ghost stale: int)
      requires s < |secs| && OneEach(secTable) && Mirrors(secTable, cap, secs, cur)
      requires Points(kvTable, hash, secs, stale)
      modifies this`secs, this`trace, this`secTable
      ensures secs == if old(secs)[s].dirty == Clean then Dirtying(old(secs), s, Dirtied) else old(secs)
      ensures trace == old(trace) + if old(secs)[s].dirty == Clean then [secs] else []
      ensures OneEach(secTable) && Mirrors(secTable, cap, secs, cur) && Points(kvTable, hash, secs, stale)
    {
      hide OneEach, Mirrors, Points, Dirtying;
      if secs[s].dirty == Clean {
        PointsAfterDirtying(kvTable, hash, secs, stale, s, Dirtied);
        ghost var slots, mid := secTable, secs;
        secs := Dirtying(secs, s, Dirtied);
        trace := trace + [secs];
        UpdateSectorDirty(s);
        MirrorsAfterDirtied(slots, secTable, cap, mid, cur, s);
      }
    }

    /** del_kv for a record that has been found: in two phases when it is replaced or moved, at once when deleted. */
    method DelKv(name: Name, l: Loc, completeDel: bool)
      requires At(secs, l) && hash(name) == hash(Get(secs, l).name)
      requires Get(secs, l).status == Written || (completeDel && Get(secs, l).status == PreDelete)
      requires Tables(-1)
      modifies this`secs, this`trace, this`secTable, this`kvTable, this`lastIsCompleteDel
      ensures secs == Killed(old(secs), l, if completeDel then Deleted else PreDelete)
      ensures trace == old(trace) + DelTrace(old(secs), l, if completeDel then Deleted else PreDelete)
      ensures lastIsCompleteDel == !completeDel && Empties(secs) == old(Empties(secs))
      ensures !completeDel || old(lastIsCompleteDel) ==> kvTable == old(kvTable)
      ensures Tables(if Live(old(secs), l) && (!completeDel || old(lastIsCompleteDel)) then hash(name) else -1)
      ensures forall s: nat | NotInto(old(kvTable), s) :: NotInto(kvTable, s)
    {
      hide SectorsOk, Distinct, Points, OneEach, Mirrors, Empties, Updated, Stored, Remembers, NotInto;
      ghost var was, st := secs, if completeDel then Deleted else PreDelete;
      assert Live(secs, l) == (Get(secs, l).status == Written);
      hide Restatus, Dirtying, Killed, DelTrace, Live;
      KilledParts(secs, l, st);
      KilledOk(cap, secs, l, st);
      PointsAfterKill(kvTable, hash, secs, -1, l, st);
      MirrorsAfterRestatus(secTable, cap, secs, cur, l, st);
      ghost var stale := if Live(secs, l) then hash(name) else -1;
      if !completeDel {
        secs := Restatus(secs, l, PreDelete);
        trace := trace + [secs];
        lastIsCompleteDel := true;
      } else {
        secs := Restatus(secs, l, Deleted);
        trace := trace + [secs];
        if !lastIsCompleteDel {
          ghost var table := kvTable;
          var _ := UpdateKvCache(hash(name), None);
          ForgettingPointsNowhere(table, kvTable, hash(name));
          PointsWider(table, hash, secs, stale, hash(name));
          PointsAfterStore(table, kvTable, hash, secs, hash(name), None);
          stale := -1;
        }
        lastIsCompleteDel := false;
      }
      MarkDirty(l.s, stale);
    }

    /** update_sec_status. The slack that alloc_kv demands rules out that a sector in use is full afterwards. */
    method UpdateSecStatus(s: nat, n: nat)
      requires s < |secs| && SectorsOk(cap, secs) && Fits(cap, secs[s], n) && OneEach(secTable)
      modifies this`secs, this`trace, this`secTable
      ensures secs == old(secs)[s := old(secs)[s].(store := Using)] && OneEach(secTable)
      ensures trace == old(trace) + if old(secs)[s].store == Empty then [secs] else []
      ensures Changed(old(secTable), secTable, s, (info: SecInfo) => info.(store := Using))
              || (secTable == old(secTable) && old(secs)[s].store == Using)
    {
      hide SectorsOk;
      if secs[s].store == Empty {
        secs := secs[s := secs[s].(store := Using)];
        trace := trace + [secs];
        UpdateSectorStore(s, Using);
      } else {
        var remain := cap - Size(secs[s].recs);
        if remain < THRESHOLD || remain - n < THRESHOLD {
          assert false;
        }
      }
    }

    /** One more part of the record at l, the last one of its sector, on top of the flash `base`. */
    method WritePart(l: Loc, part: Part, ghost base: seq<Sector>, ghost r: Record)
      requires l.s < |base| && l.i == |base[l.s].recs| && secs == Append(base, l.s, r)
      modifies this`secs, this`trace
      ensures secs == Append(base, l.s, r.(part := part)) && trace == old(trace) + [secs]
    {
      hide Append, Repart;
      WritesAppend(base, l.s, r, part, Written);
      secs := Repart(secs, l, part);
      trace := trace + [secs];
    }

    /** The parts of a new record: header, name, value. */
    method WriteNew(l: Loc, name: Name, value: Value, ghost base: seq<Sector>)
      requires l.s < |base| && l.i == |base[l.s].recs|
      requires secs == Append(base, l.s, Record(PreWrite, name, value, StatusOnly))
      modifies this`secs, this`trace
      ensures secs == Append(base, l.s, Record(PreWrite, name, value, Whole))
      ensures trace == old(trace) + Growing(base, l.s, name, value, NewParts())
    {
      hide Append;
      WritePart(l, HeaderToo, base, Record(PreWrite, name, value, StatusOnly));
      WritePart(l, NameToo, base, Record(PreWrite, name, value, HeaderToo));
      WritePart(l, Whole, base, Record(PreWrite, name, value, NameToo));
      assert trace == old(trace) + Growing(base, l.s, name, value, NewParts());
    }

    /** The copying loop of move_kv: what stands behind the status of the old record, in pieces. */
    method WriteCopy(l: Loc, name: Name, value: Value, ghost base: seq<Sector>)
      requires l.s < |base| && l.i == |base[l.s].recs|
      requires secs == Append(base, l.s, Record(PreWrite, name, value, StatusOnly))
      modifies this`secs, this`trace
      ensures secs == Append(base, l.s, Record(PreWrite, name, value, Whole))
      ensures trace == old(trace)
                       + Growing(base, l.s, name, value, CopyParts(MAGIC_OFFSET, REC_HDR + |name| + |value|))
    {
      hide Append, Growing, CopyParts;
      var done, n, part := MAGIC_OFFSET, REC_HDR + |name| + |value|, StatusOnly;
      while done < n
        invariant MAGIC_OFFSET <= done <= n && (done == n ==> part == Whole)
        invariant secs == Append(base, l.s, Record(PreWrite, name, value, part))
        invariant trace + Growing(base, l.s, name, value, CopyParts(done, n))
                  == old(trace) + Growing(base, l.s, name, value, CopyParts(MAGIC_OFFSET, n))
      {
        var size := if done + PIECE < n then PIECE else n - done;
        ghost var was := part;
        part := if done + size < n then Copied(done + size) else Whole;
        GrowsOn(trace, base, l.s, name, value, done, n, part);
        WritePart(l, part, base, Record(PreWrite, name, value, was));
        done := done + size;
      }
      GrowsNoMore(base, l.s, name, value, n);
    }

    /** The flash writes of a record: its status, then its parts, then the status that makes it count. */
    method ProgramRecord(s: nat, name: Name, value: Value, moved: bool)
      requires s < |secs| && SectorsOk(cap, secs) && Fits(cap, secs[s], REC_HDR + |name| + |value|) && OneEach(secTable)
      modifies this`secs, this`trace, this`secTable
      ensures secs == Append(old(secs), s, Record(Written, name, value, Whole)) && OneEach(secTable)
      ensures trace == old(trace) + WriteTrace(old(secs), s, name, value, PartsOf(moved, name, value))
      ensures Changed(old(secTable), secTable, s, (info: SecInfo) => info.(store := Using))
              || (secTable == old(secTable) && old(secs)[s].store == Using)
    {
      hide SectorsOk, OneEach, Changed, Size, Append, Growing;
      ghost var was := secs;
      var l := Loc(s, |secs[s].recs|);
      UpdateSecStatus(s, REC_HDR + |name| + |value|);
      WritesAppend(was, s, Record(PreWrite, name, value, StatusOnly), Whole, Written);
      secs := Append(secs, s, Record(PreWrite, name, value, StatusOnly));
      trace := trace + [secs];
      if moved {
        WriteCopy(l, name, value, was);
      } else {
        WriteNew(l, name, value, was);
      }
      WritesAppend(was, s, Record(PreWrite, name, value, Whole), Whole, Written);
      secs := Restatus(secs, l, Written);
      trace := trace + [secs];
      assert trace == old(trace) + WriteTrace(was, s, name, value, PartsOf(moved, name, value));
    }

    /** Writing a record, in create_kv_blob and in move_kv: the flash, and the two tables that learn of it. */
    method WriteRecord(s: nat, name: Name, value: Value, moved: bool, ghost stale: int)
      requires Tables(stale) && (stale == -1 || stale == hash(name)) && |name| < NAME_MAX
      requires s < |secs| && Fits(cap, secs[s], REC_HDR + |name| + |value|)
      modifies this`secs, this`trace, this`secTable, this`kvTable
      ensures secs == Append(old(secs), s, Record(Written, name, value, Whole)) && Tables(-1)
      ensures trace == old(trace) + WriteTrace(old(secs), s, name, value, PartsOf(moved, name, value))
      ensures kvSize > 0 ==> Remembers(kvTable, hash(name), Loc(s, |old(secs)[s].recs|))
      ensures Empties(secs) == old(Empties(secs)) - (if old(secs)[s].store == Empty then 1 else 0)
      ensures forall u: nat | u != s && NotInto(old(kvTable), u) :: NotInto(kvTable, u)
    {
      hide SectorsOk, Distinct, Points, OneEach, Mirrors, Empties, Size, Changed, WriteTrace, NotInto, Stored, Updated,
           Remembers, PartsOf;
      ghost var was, slots := secs, secTable;
      ghost var r := Record(Written, name, value, Whole);
      var l, used := Loc(s, |secs[s].recs|), Size(secs[s].recs);
      AppendOk(cap, secs, s, r);
      PointsAfterAppend(kvTable, hash, secs, stale, s, r);
      PointsWider(kvTable, hash, Append(secs, s, r), stale, hash(name));
      ProgramRecord(s, name, value, moved);
      ghost var mid := secTable;
      UpdateSectorEmpty(s, cap - (used + (REC_HDR + |name| + |value|)));
      StoreUnchanged(slots, mid, cap, was, cur, s);
      MirrorsAfterAppend(slots, mid, secTable, cap, was, cur, s, r);
      ghost var table := kvTable;
      var _ := UpdateKvCache(hash(name), Some(l));
      PointsThere(table, kvTable, hash(name), l);
      PointsAfterStore(table, kvTable, hash, secs, hash(name), Some(l));
    }

    /** The full scan: find_kv_no_cache over kv_iterator. */
    method FindKvNoCache(key: Name) returns (r: Option<Loc>)
      requires oldest < |secs| && OneEach(secTable) && Mirrors(secTable, cap, secs, cur) && Index(secs, at)
      modifies this`secTable
      ensures OneEach(secTable) && Mirrors(secTable, cap, secs, cur)
      ensures r == if key in at then Some(at[key]) else None
    {
      hide OneEach, Mirrors;
      IndexedIsNotMissed(secs, at, key);
      var a, k := oldest, 0;
      while k < |secs|
        invariant 0 <= k <= |secs| && a == Wrap(|secs|, oldest + k)
        invariant OneEach(secTable) && Mirrors(secTable, cap, secs, cur)
        invariant forall s | 0 <= s < |secs|
                  && Pending(|secs|, oldest, s) < k :: Misses(secs[s].recs, |secs[s].recs|, key)
      {
        var info := ReadSectorInfo(a, false);
        var i := 0;
        while i < |secs[a].recs|
          invariant 0 <= i <= |secs[a].recs| && Misses(secs[a].recs, i, key)
        {
          var rec := secs[a].recs[i];
          if rec.name == key && rec.status == Written {
            return Some(Loc(a, i));
          }
          i := i + 1;
        }
        a := NextSector(a);
        k := k + 1;
      }
      r := None;
    }

    /** The table holds a record of another name that answers for the key. */
    ghost predicate Shadowed(key: Name)
      reads this
    {
      SomeAnswers(kvTable, hash, secs, key)
    }

    /** find_kv: by the table first, else by the scan. It finds the record of the name `of`, which is the key, and then
        what the full scan finds, exactly when no cached record of another name answers for the key. */
    method FindKv(key: Name) returns (r: Option<Loc>, ghost of: Name)
      requires Core(-1)
      modifies this`secTable, this`kvTable
      ensures Core(-1)
      ensures r == (if of in at then Some(at[of]) else None) && (of == key <==> !old(Shadowed(key)))
      ensures r == (if key in at then Some(at[key]) else None) <==> !old(Shadowed(key))
      ensures of != key ==> of in at && hash(of) == hash(key) && |key| <= NAME_MAX && Shadowed(key)
      ensures Unmistakable(hash, Contents(), key) ==> of == key
    {
      hide SectorsOk, Index, OneEach, Mirrors, Unmistakable, Distinct, Points, FromName, MapOf, Remembers, Hits;
      ghost var table := kvTable;
      IndexedIsLive(secs, at, key);
      HitIsUnique(kvTable, hash, secs, key);
      r := GetKvFromCache(key);
      of := key;
      if r.Some? {
        LiveIsIndexed(secs, at, r.value);
        of := Get(secs, r.value).name;
        if Unmistakable(hash, Contents(), key) {
          NeverShadowed(cap, table, hash, secs, at, key, r.value);
        }
        HitsAnActiveEntry(table, hash, secs, key, r.value);
        StillRemembered(table, kvTable, hash(key), r);
        return;
      }
      r := FindKvNoCache(key);
      if r.Some? {
        table := kvTable;
        var _ := UpdateKvCache(hash(key), r);
        PointsWider(table, hash, secs, -1, hash(key));
        PointsAfterStore(table, kvTable, hash, secs, hash(key), r);
      }
    }

    /** get_kv: as much of the value as the caller has room for, and its full length. It is the value of the name `of`,
        which is the key exactly when no cached record of another name answers for the key. */
    method GetKv(key: Name, bufLen: nat) returns (data: Value, valueLen: nat, ghost of: Name)
      requires Core(-1)
      modifies this`secTable, this`kvTable
      ensures Core(-1) && (of == key <==> !old(Shadowed(key))) && (Unmistakable(hash, Contents(), key) ==> of == key)
      ensures of != key ==> of in Contents() && hash(of) == hash(key) && Shadowed(key)
      ensures of !in Contents() ==> data == [] && valueLen == 0
      ensures of in Contents() ==> var v := Contents()[of];
                                   valueLen == |v| && data == v[..if bufLen > |v| then |v| else bufLen]
    {
      hide Unmistakable;
      var r, name := FindKv(key);
      of := name;
      if r.Some? {
        var v := Get(secs, r.value).value;
        valueLen := |v|;
        data := v[..if bufLen > |v| then |v| else bufLen];
      } else {
        data, valueLen := [], 0;
      }
    }

    // ---------- moving and collecting ----------

    /** The second half of move_kv: the copy is written, then the original deleted. */
    method CopyRecord(l: Loc, t: nat, ghost stale: int)
      requires Core(stale) && At(secs, l) && Get(secs, l).status == PreDelete && Get(secs, l).name !in at
      requires stale == -1 || stale == hash(Get(secs, l).name)
      requires t < |secs| && Fits(cap, secs[t], Len(Get(secs, l)))
      modifies this`secs, this`trace, this`secTable, this`kvTable, this`lastIsCompleteDel, this`at
      ensures Core(-1) && !lastIsCompleteDel
      ensures var rec := Get(old(secs), l);
              var w := Append(old(secs), t, rec.(status := Written));
              && At(w, l) && secs == Killed(w, l, Deleted) && Contents() == old(Contents())[rec.name := rec.value]
              && at == old(at)[rec.name := Loc(t, |old(secs)[t].recs|)]
              && trace == old(trace) + WriteTrace(old(secs), t, rec.name, rec.value, PartsOf(true, rec.name, rec.value))
                          + DelTrace(w, l, Deleted)
      ensures Empties(secs) == old(Empties(secs)) - (if old(secs)[t].store == Empty then 1 else 0)
      ensures forall s: nat | s != t && NotInto(old(kvTable), s) :: NotInto(kvTable, s)
    {
      hide SectorsOk, Index, Distinct, Points, OneEach, Mirrors, MapOf, Empties, Size, DelTrace, PartsOf, NotInto,
           WriteTrace, Killed, Append, Remembers;
      var kv := Get(secs, l);
      RecordIsOk(cap, secs, l);
      AppendFacts(secs, t, kv.(status := Written), l);
      AppendIndexes(secs, at, t, kv.(status := Written));
      WriteRecord(t, kv.name, kv.value, true, stale);
      at := at[kv.name := Loc(t, |old(secs)[t].recs|)];
      KilledIndexes(secs, at, l, Deleted);
      DelKv(kv.name, l, true);
    }

    /** The start of move_kv: a live record is marked. */
    method MarkForMove(l: Loc) returns (ghost stale: int)
      requires Core(-1) && At(secs, l) && Get(secs, l).status in {Written, PreDelete}
      modifies this`secs, this`trace, this`secTable, this`kvTable, this`lastIsCompleteDel, this`at
      ensures Core(stale) && kvTable == old(kvTable) && Empties(secs) == old(Empties(secs))
      ensures var rec := Get(old(secs), l);
              if rec.status == Written
              then && secs == Killed(old(secs), l, PreDelete) && at == old(at) - {rec.name} && lastIsCompleteDel
                   && stale == hash(rec.name) && trace == old(trace) + DelTrace(old(secs), l, PreDelete)
                   && Contents() == old(Contents()) - {rec.name}
              else secs == old(secs) && at == old(at) && lastIsCompleteDel == old(lastIsCompleteDel) && stale == -1
      ensures At(secs, l) && Get(secs, l) == Get(old(secs), l).(status := PreDelete)
      ensures Get(old(secs), l).status == Written ==> Get(secs, l).name !in at
    {
      hide SectorsOk, Index, Distinct, Points, OneEach, Mirrors, MapOf, Empties, Size, DelTrace, Killed, NotInto;
      stale := -1;
      var kv := Get(secs, l);
      if kv.status == Written {
        KilledIndexes(secs, at, l, PreDelete);
        KilledFacts(cap, secs, l, PreDelete, false, 0, 0);
        DelKv(kv.name, l, false);
        at := at - {kv.name};
        stale := hash(kv.name);
      }
    }

    /** The rest of move_kv once there is room: while a power loss is being repaired, a record that has been replaced is
        only deleted. */
    method MoveTo(l: Loc, t: nat, marked: bool, ghost stale: int)
      requires Core(stale) && At(secs, l) && Get(secs, l).status == PreDelete
      requires stale == -1 || stale == hash(Get(secs, l).name)
      requires t < |secs| && Fits(cap, secs[t], Len(Get(secs, l)))
      requires if marked then inRecovery && stale == -1 else Get(secs, l).name !in at
      modifies this`secs, this`trace, this`secTable, this`kvTable, this`lastIsCompleteDel, this`at
      ensures Core(-1) && !lastIsCompleteDel && Contents() == old(Meaning(Some(l)))
      ensures var rec := Get(old(secs), l);
              var w := Append(old(secs), t, rec.(status := Written));
              if rec.name in old(at)
              then secs == Killed(old(secs), l, Deleted) && at == old(at) && Empties(secs) == old(Empties(secs))
              else && At(w, l) && secs == Killed(w, l, Deleted)
                   && at == old(at)[rec.name := Loc(t, |old(secs)[t].recs|)]
                   && trace == old(trace)
                               + WriteTrace(old(secs), t, rec.name, rec.value, PartsOf(true, rec.name, rec.value))
                               + DelTrace(w, l, Deleted)
                   && Empties(secs) == old(Empties(secs)) - (if old(secs)[t].store == Empty then 1 else 0)
      ensures forall s: nat | (s != t || Get(old(secs), l).name in old(at)) && NotInto(old(kvTable), s) ::
                NotInto(kvTable, s)
    {
      hide SectorsOk, Index, Distinct, Points, OneEach, Mirrors, MapOf, Empties, Size, DelTrace, PartsOf, NotInto,
           WriteTrace, Killed, Append;
      var kv := Get(secs, l);
      RestoredIs(secs, at, l);
      if inRecovery && marked {
        var found := FindKvNoCache(kv.name);
        if found.Some? {
          KilledIndexes(secs, at, l, Deleted);
          DelKv(kv.name, l, true);
          return;
        }
      }
      CopyRecord(l, t, stale);
    }

    /** move_kv for a record that is in use, or, while a power loss is being repaired, one that was being replaced:
        then a finished replacement wins. It fails exactly if the allocator finds no room, and leaves the record
        marked. */
    method MoveKv(l: Loc) returns (r: Result, ghost t: nat)
      requires Core(-1) && (gcRequest || cur < 0) && At(secs, l)
      requires Get(secs, l).status == Written || (inRecovery && Get(secs, l).status == PreDelete)
      modifies this`secs, this`trace, this`secTable, this`kvTable, this`lastIsCompleteDel, this`at, this`gcRequest
      ensures var rec := Get(old(secs), l);
              var mid := if rec.status == Written then Killed(old(secs), l, PreDelete) else old(secs);
              && (r == Ok <==> exists x: nat :: Candidate(cap, mid, old(gcRequest), x, Len(rec)))
              && (r == Ok ==>
                    && Core(-1) && gcRequest == old(gcRequest) && !lastIsCompleteDel
                    && Contents() == old(Meaning(Some(l)))
                    && if rec.status == PreDelete && rec.name in old(at)
                       then secs == Killed(old(secs), l, Deleted) && at == old(at)
                            && Empties(secs) == old(Empties(secs))
                       else && Candidate(cap, mid, old(gcRequest), t, Len(rec))
                            && FirstChoice(cap, mid, oldest, old(gcRequest), t, Len(rec))
                            && secs == Moved(old(secs), l, t) && at == old(at)[rec.name := Loc(t, |mid[t].recs|)]
                            && Empties(secs) == old(Empties(secs)) - (if mid[t].store == Empty then 1 else 0)
                            && (rec.status == Written ==> trace == old(trace) + MoveTrace(old(secs), l, t)))
              && (r != Ok ==>
                    && r == SavedFull && secs == mid && kvTable == old(kvTable) && Empties(secs) == old(Empties(secs))
                    && gcRequest == (old(gcRequest) || Empties(secs) == 1)
                    && if rec.status == Written
                       then Core(hash(rec.name)) && at == old(at) - {rec.name}
                            && Contents() == old(Contents()) - {rec.name}
                       else Core(-1) && at == old(at) && lastIsCompleteDel == old(lastIsCompleteDel))
      ensures forall s: nat | NotInto(old(kvTable), s) && (s != t || r != Ok
                || (Get(old(secs), l).status == PreDelete && Get(old(secs), l).name in old(at))) :: NotInto(kvTable, s)
      ensures old(Lean(secs)) ==> Lean(secs)
    {
      hide SectorsOk, Index, Distinct, Points, OneEach, Mirrors, MapOf, Empties, Size, DelTrace, FirstChoice,
           WriteTrace, Killed, Append, NotInto, Candidate, SetTrace, PartsOf, Restored, Len, Fits, Usable, MoveTrace,
           Lean;
      t := 0;
      var kv := Get(secs, l);
      ghost var was, before := secs, trace;
      RecordIsWhole(cap, secs, l);
      if kv.status == Written { MovedMeaning(secs, at, l); }
      ghost var stale := MarkForMove(l);
      ghost var mid := secs;
      CandidateInRange(cap, mid, gcRequest, Len(kv));
      var a := AllocKv(Len(kv));
      if a == None {
        LeanAfterStep(was, secs, l, 0, PreDelete);
        return SavedFull, t;
      }
      t := a.value;
      CandidateFits(cap, mid, gcRequest, t, Len(kv));
      MoveTraceIs(before, was, l, t);
      MoveTo(l, a.value, kv.status == PreDelete, stale);
      LeanAfterStep(was, secs, l, t, Deleted);
      r := Ok;
    }

    /** format_sector, for a sector without live records. */
    method FormatSector(s: nat)
      requires Core(-1) && s < |secs| && NoneLive(secs[s]) && (cur < 0 || cur == s)
      modifies this`secs, this`trace, this`secTable, this`cur
      ensures secs == Formatted(old(secs), s) && Core(-1) && Contents() == old(Contents()) && Empties(secs) > 0
      ensures trace == old(trace) + [secs] && cur == -1
    {
      hide SectorsOk, Index, Distinct, Points, OneEach, Mirrors, MapOf, Empties, Size;
      FormattedIndexes(secs, at, s);
      PointsAfterFormat(kvTable, hash, secs, s);
      FormattedOk(cap, secs, s);
      ghost var was, slots, c := secs, secTable, cur;
      secs := Formatted(secs, s);
      trace := trace + [secs];
      cur := -1;
      DropSectorCache(s);
      MirrorsAfterFormat(slots, secTable, cap, was, c, s);
    }

    /** The start of do_gc: the mark that the sector is being collected, in flash alone. */
    method MarkCollecting(s: nat)
      requires Core(-1) && cur < 0 && s < |secs| && secs[s].dirty != Clean
      modifies this`secs, this`trace, this`cur
      ensures secs == Dirtying(old(secs), s, Collecting) && Core(-1) && Contents() == old(Contents())
      ensures trace == old(trace) + [secs] && cur == s && Empties(secs) == old(Empties(secs))
    {
      hide SectorsOk, Index, Distinct, Points, OneEach, Mirrors, MapOf, Empties, Size;
      DirtyingIndexes(secs, at, s, Collecting);
      PointsAfterDirtying(kvTable, hash, secs, -1, s, Collecting);
      MirrorsAfterWeaker(secTable, cap, secs, cur);
      MirrorsAfterCollecting(secTable, cap, secs, s);
      CollectingOk(cap, secs, s);
      secs := Dirtying(secs, s, Collecting);
      trace := trace + [secs];
      cur := s;
    }

    /** Whether the records of the sector being collected find room for sure, because the spare sector x takes them all,
        or only as far as first-fit packing goes. */
    ghost predicate Sweeping(s: nat, recs0: seq<Record>, i: nat, l: Option<Loc>, p: Option<Loc>, goal: map<Name, Value>,
          gone: set<Name>, x: Option<nat>, there: set<Name>, lost: set<Name>)
      reads this
    {
      && Core(-1) && gcRequest && cur == s && (l.Some? ==> inRecovery)
      && Sweep(secs, at, s, recs0, i, l, p, goal, gone)
      && if x.Some? then gone == {} && Slack(cap, recs0) && Spare(secs, s, recs0, i, x.value)
         else Tight(cap, secs, at, oldest, s, recs0, i, l, there, gone, lost) && NotInto(kvTable, s)
    }

    /** do_gc for a record that is in use, or was being replaced. */
    method CollectInUse(s: nat, i: nat, ghost recs0: seq<Record>, ghost l: Option<Loc>, ghost p: Option<Loc>,
          ghost goal: map<Name, Value>, ghost gone: set<Name>, ghost x: Option<nat>, ghost there: set<Name>,
          ghost lost: set<Name>)
      returns (ghost gone': set<Name>)
      requires Sweeping(s, recs0, i, l, p, goal, gone, x, there, lost) && i < |recs0| && At(secs, Loc(s, i))
      requires Get(secs, Loc(s, i)).status == Written || Get(secs, Loc(s, i)).status == PreDelete
      requires l == p == None && x.Some? ==> Tidy(secs)
      modifies this`secs, this`trace, this`secTable, this`kvTable, this`lastIsCompleteDel, this`at, this`gcRequest
      ensures Sweeping(s, recs0, i + 1, l, p, goal, gone', x, there, lost)
      ensures gone <= gone' && (gone' == {} && old(!lastIsCompleteDel) ==> !lastIsCompleteDel)
      ensures |secs| == |old(secs)| && forall u | 0 <= u < |secs| && u != s ::
                secs[u].dirty == old(secs)[u].dirty && old(secs)[u].recs <= secs[u].recs
      ensures l == p == None && x.Some? ==> Tidy(secs) && old(trace) <= trace
                                            && AllHold(cap, trace, |old(trace)|, goal)
      ensures old(Lean(secs)) ==> Lean(secs)
      ensures l == p == None && x.Some? && old(SpillTo(cap, secs, oldest, s, recs0, i, x.value)).Some? ==>
                SpillTo(cap, secs, oldest, s, recs0, i + 1, x.value)
                == old(SpillTo(cap, secs, oldest, s, recs0, i, x.value))
    {
      hide SectorsOk, Index, Distinct, Points, OneEach, Mirrors, MapOf, Empties, Size, Swept, Sweep, Tight, Spare,
           Slack, Cut, AllHold, NotInto, Moved, Killed, Candidate, FirstChoice, MoveTrace, Len, Restored, Lost, Rooms,
           Lean, SpillTo;
      gone' := gone;
      SweepAt(secs, at, s, recs0, i, l, p, goal, gone);
      var kv := secs[s].recs[i];
      ghost var was, at0, table := secs, at, kvTable;
      ghost var here := Loc(s, i);
      MoveFinds(cap, secs, at, oldest, s, recs0, i, x);
      var r, t := MoveKv(Loc(s, i));
      if r == Ok {
        MoveDone(cap, was, at0, secs, at, oldest, s, recs0, i, t, l, p, goal, gone, x, there, lost);
        if l == p == None && x.Some? {
          MoveTracedOn(cap, was, at0, secs, old(trace), trace, oldest, s, recs0, i, t, x.value, goal);
        }
      } else {
        MoveFailed(cap, was, at0, secs, at, oldest, s, recs0, i, l, p, goal, gone, there, lost);
        if kv.status == Written { PointsAfterFarKill(table, hash, was, here, PreDelete); }
        gone' := gone + if Needy(kv, at0.Keys) then {kv.name} else {};
      }
    }

    /** do_gc for one record. */
    method CollectRecord(s: nat, i: nat, ghost recs0: seq<Record>, ghost l: Option<Loc>, ghost p: Option<Loc>,
          ghost goal: map<Name, Value>, ghost gone: set<Name>, ghost x: Option<nat>, ghost there: set<Name>,
          ghost lost: set<Name>)
      returns (ghost gone': set<Name>)
      requires Sweeping(s, recs0, i, l, p, goal, gone, x, there, lost) && i < |recs0| && s < |secs|
      requires l == p == None && x.Some? ==> Tidy(secs)
      modifies this`secs, this`trace, this`secTable, this`kvTable, this`lastIsCompleteDel, this`at, this`gcRequest
      ensures Sweeping(s, recs0, i + 1, l, p, goal, gone', x, there, lost)
      ensures gone <= gone' && (gone' == {} && old(!lastIsCompleteDel) ==> !lastIsCompleteDel)
      ensures |secs| == |old(secs)| && forall u | 0 <= u < |secs| && u != s ::
                secs[u].dirty == old(secs)[u].dirty && old(secs)[u].recs <= secs[u].recs
      ensures l == p == None && x.Some? ==> Tidy(secs) && old(trace) <= trace
                                            && AllHold(cap, trace, |old(trace)|, goal)
      ensures old(Lean(secs)) ==> Lean(secs)
      ensures l == p == None && x.Some? && old(SpillTo(cap, secs, oldest, s, recs0, i, x.value)).Some? ==>
                SpillTo(cap, secs, oldest, s, recs0, i + 1, x.value)
                == old(SpillTo(cap, secs, oldest, s, recs0, i, x.value))
    {
      hide SectorsOk, Index, Distinct, Points, OneEach, Mirrors, MapOf, Empties, Size, Swept, Sweep, Tight, Spare,
           Slack, Cut, AllHold, NotInto, Moved, Killed, Candidate, FirstChoice, MoveTrace, Len, Restored, Lost, Rooms,
           Lean, SpillTo;
      gone' := gone;
      SweepAt(secs, at, s, recs0, i, l, p, goal, gone);
      var kv := secs[s].recs[i];
      if kv.status == Written || kv.status == PreDelete {
        gone' := CollectInUse(s, i, recs0, l, p, goal, gone, x, there, lost);
      } else {
        SweepPasses(secs, at, s, recs0, i, l, p, goal, gone);
        if x == None {
          TightPasses(cap, secs, at, oldest, s, recs0, i, l, p, goal, there, gone, lost);
        } else {
          SpillPasses(cap, secs, oldest, s, recs0, i, x.value);
        }
        NoneYet(cap, trace, goal);
      }
    }

    /** do_gc from the mark to the last record. */
    method SweepSector(s: nat, ghost recs0: seq<Record>, ghost l: Option<Loc>, ghost p: Option<Loc>,
          ghost goal: map<Name, Value>, ghost x: Option<nat>, ghost there: set<Name>, ghost lost: set<Name>)
      returns (ghost gone: set<Name>)
      requires Sweeping(s, recs0, 0, l, p, goal, {}, x, there, lost) && s < |secs|
      requires l == p == None && x.Some? ==> Tidy(secs)
      modifies this`secs, this`trace, this`secTable, this`kvTable, this`lastIsCompleteDel, this`at, this`gcRequest
      ensures Sweeping(s, recs0, |recs0|, l, p, goal, gone, x, there, lost)
      ensures gone == {} && old(!lastIsCompleteDel) ==> !lastIsCompleteDel
      ensures |secs| == |old(secs)| && forall u | 0 <= u < |secs| && u != s ::
                secs[u].dirty == old(secs)[u].dirty && old(secs)[u].recs <= secs[u].recs
      ensures l == p == None && x.Some? ==> Tidy(secs) && old(trace) <= trace
                                            && AllHold(cap, trace, |old(trace)|, goal)
      ensures old(Lean(secs)) ==> Lean(secs)
      ensures l == p == None && x.Some? && old(SpillTo(cap, secs, oldest, s, recs0, 0, x.value)).Some? ==>
                SpillTo(cap, secs, oldest, s, recs0, |recs0|, x.value)
                == old(SpillTo(cap, secs, oldest, s, recs0, 0, x.value))
    {
      hide SectorsOk, Index, Distinct, Points, OneEach, Mirrors, MapOf, Empties, Size, Swept, Sweep, Tight, Spare,
           Slack, Cut, AllHold, NotInto, Restored, Lost, Rooms, Core, Lean, SpillTo;
      gone := {};
      NoneYet(cap, trace, goal);
      SweepLength(secs, at, s, recs0, 0, l, p, goal, gone);
      var i := 0;
      while i < |secs[s].recs|
        invariant s < |secs| == |old(secs)| && 0 <= i <= |recs0| == |secs[s].recs|
        invariant Sweeping(s, recs0, i, l, p, goal, gone, x, there, lost)
        invariant gone == {} && old(!lastIsCompleteDel) ==> !lastIsCompleteDel
        invariant forall u | 0 <= u < |secs| && u != s ::
                    secs[u].dirty == old(secs)[u].dirty && old(secs)[u].recs <= secs[u].recs
        invariant l == p == None && x.Some? ==>
                    Tidy(secs) && old(trace) <= trace && AllHold(cap, trace, |old(trace)|, goal)
        invariant old(Lean(secs)) ==> Lean(secs)
        invariant l == p == None && x.Some? && old(SpillTo(cap, secs, oldest, s, recs0, 0, x.value)).Some? ==>
                    SpillTo(cap, secs, oldest, s, recs0, i, x.value)
                    == old(SpillTo(cap, secs, oldest, s, recs0, 0, x.value))
      {
        ghost var before := trace;
        gone := CollectRecord(s, i, recs0, l, p, goal, gone, x, there, lost);
        SweepLength(secs, at, s, recs0, i + 1, l, p, goal, gone);
        if l == p == None && x.Some? { HoldOn(cap, before, trace, |old(trace)|, goal); }
        i := i + 1;
      }
    }

    /** The mark that starts a sweep. */
    method BeginSweep(s: nat, ghost l: Option<Loc>, ghost p: Option<Loc>, ghost x: Option<nat>, ghost lost: set<Name>)
      requires Core(-1) && gcRequest && cur < 0 && s < |secs| && secs[s].dirty != Clean
      requires Cut(secs, l, p) && Places(secs, l, p) && (l.Some? ==> inRecovery)
      requires if x.Some? then Empties(secs) > 0 && x.value < |secs| && secs[x.value].store == Empty
               else && Empties(secs) == 0 && NotInto(kvTable, s) && NewerIsClean(secs, at, l)
                    && lost == Lost(Rooms(cap, secs, oldest), secs[s].recs, at.Keys)
      modifies this`secs, this`trace, this`cur
      ensures secs == Dirtying(old(secs), s, Collecting)
      ensures Sweeping(s, old(secs)[s].recs, 0, l, p, old(Meaning(l)), {}, x, at.Keys, lost)
      ensures l == p == None && x.Some? ==> Tidy(secs) && trace == old(trace) + [secs]
                                            && AllHold(cap, trace, |old(trace)|, old(Meaning(l)))
      ensures old(Lean(secs)) ==> Lean(secs)
      ensures old(Empties(secs)) == 1 ==>
                && Spilled(cap, old(secs), oldest, s, x.value).Some?
                && SpillTo(cap, secs, oldest, s, old(secs)[s].recs, 0, x.value)
                   == Spilled(cap, old(secs), oldest, s, x.value)
    {
      hide SectorsOk, Index, Distinct, Points, OneEach, Mirrors, MapOf, Empties, Size, Swept, Sweep, Tight, Spare,
           Slack, Cut, AllHold, NotInto, Lost, Rooms, NewerIsClean, Dirtying, StandsFor, Loadable, Lean, SpillTo,
           Spilled;
      ghost var was, from, m := secs, |trace|, Contents();
      if Lean(secs) { LeanAfterMark(secs, s); }
      if Empties(secs) == 1 { SpillStarts(cap, secs, oldest, s, x.value); }
      SweepStarts(cap, secs, at, s, l, p);
      if x == None { TightStarts(cap, secs, at, oldest, s, l, lost); }
      MarkCollecting(s);
      if l == p == None && x.Some? {
        CollectingIsTidy(was, s);
        TidyHolds(cap, secs, at);
        NoneYet(cap, old(trace), m);
        OneMoreHolds(cap, old(trace), from, m, secs);
      }
    }

    /** do_gc up to the last record: the mark, and then one record after the other. */
    method EmptySector(s: nat, ghost recs0: seq<Record>, ghost l: Option<Loc>, ghost p: Option<Loc>,
          ghost goal: map<Name, Value>, ghost x: Option<nat>, ghost there: set<Name>, ghost lost: set<Name>)
      returns (ghost gone: set<Name>)
      requires Core(-1) && gcRequest && cur < 0 && s < |secs| && secs[s].dirty != Clean
      requires Cut(secs, l, p) && Places(secs, l, p) && (l.Some? ==> inRecovery)
      requires recs0 == secs[s].recs && goal == Meaning(l) && there == at.Keys
      requires if x.Some? then Empties(secs) > 0 && x.value < |secs| && secs[x.value].store == Empty
               else && Empties(secs) == 0 && NotInto(kvTable, s) && NewerIsClean(secs, at, l)
                    && lost == Lost(Rooms(cap, secs, oldest), secs[s].recs, at.Keys)
      modifies this`secs, this`trace, this`secTable, this`kvTable, this`lastIsCompleteDel, this`at, this`gcRequest,
               this`cur
      ensures Sweeping(s, recs0, |recs0|, l, p, goal, gone, x, there, lost)
      ensures gone == {} && old(!lastIsCompleteDel) ==> !lastIsCompleteDel
      ensures |secs| == |old(secs)| && forall u | 0 <= u < |secs| && u != s ::
                secs[u].dirty == old(secs)[u].dirty && old(secs)[u].recs <= secs[u].recs
      ensures l == p == None && x.Some? ==> Tidy(secs) && old(trace) <= trace
                                            && AllHold(cap, trace, |old(trace)|, goal)
      ensures old(Lean(secs)) ==> Lean(secs)
      ensures l == p == None && old(Empties(secs)) == 1 ==>
                SpillTo(cap, secs, oldest, s, recs0, |recs0|, x.value) == Spilled(cap, old(secs), oldest, s, x.value)
    {
      hide SectorsOk, Index, Distinct, Points, OneEach, Mirrors, MapOf, Empties, Size, Swept, Sweep, Tight, Spare,
           Slack, Cut, AllHold, NotInto, Lost, Rooms, NewerIsClean, Dirtying, StandsFor, Loadable, Restored, Lean,
           SpillTo, Spilled, Core;
      DirtyingKeeps(secs, s, Collecting);
      BeginSweep(s, l, p, x, lost);
      ghost var marked := trace;
      gone := SweepSector(s, recs0, l, p, goal, x, there, lost);
      if l == p == None && x.Some? { HoldOn(cap, marked, trace, |old(trace)|, goal); }
    }

    /** The end of do_gc: nothing in the sector counts any more, and it is formatted. */
    method EndSweep(s: nat, ghost recs0: seq<Record>, ghost l: Option<Loc>, ghost p: Option<Loc>,
          ghost goal: map<Name, Value>, ghost gone: set<Name>, ghost x: Option<nat>, ghost there: set<Name>,
          ghost lost: set<Name>, ghost from: nat)
      requires Sweeping(s, recs0, |recs0|, l, p, goal, gone, x, there, lost) && s < |secs|
      requires x == None || lost == {}
      requires l == p == None && x.Some? ==> Tidy(secs) && AllHold(cap, trace, from, goal)
      modifies this`secs, this`trace, this`secTable, this`cur
      ensures Core(-1) && gcRequest && cur == -1 && Empties(secs) > 0 && secs == Formatted(old(secs), s) && gone == lost
      ensures Cut(secs, Outside(l, s), Outside(p, s)) && Places(secs, Outside(l, s), Outside(p, s))
      ensures Meaning(Outside(l, s)) == goal - lost && old(trace) <= trace
      ensures l == p == None && x.Some? ==> AllHold(cap, trace, from, goal)
      ensures old(Lean(secs)) ==> Lean(secs)
    {
      hide SectorsOk, Index, Distinct, Points, OneEach, Mirrors, MapOf, Empties, Size, Swept, Sweep, Tight, Spare,
           Slack, Cut, AllHold, NotInto, NoneLive, Formatted, StandsFor, Loadable, Restored, Lean;
      if Lean(secs) { LeanAfterFormat(secs, s); }
      SweepLength(secs, at, s, recs0, |recs0|, l, p, goal, gone);
      SweepDone(secs, at, s, recs0, l, p, goal, gone);
      if x == None { TightDone(cap, secs, at, oldest, s, recs0, l, there, gone, lost); }
      ghost var before := trace;
      FormatSector(s);
      if l == p == None && x.Some? {
        TidyHolds(cap, secs, at);
        OneMoreHolds(cap, before, from, goal, secs);
      }
    }

    /** do_gc on a dirty sector. As long as a sector is empty all that counts finds room elsewhere. Without one, which
        only a power cut can bring about, exactly those records are lost that first-fit packing into the free space of
        the clean sectors leaves over. */
    method DoGc(s: nat, ghost l: Option<Loc>, ghost p: Option<Loc>) returns (ghost lost: set<Name>)
      requires Core(-1) && gcRequest && cur < 0 && s < |secs| && secs[s].dirty != Clean
      requires Cut(secs, l, p) && Places(secs, l, p) && (l.Some? ==> inRecovery)
      requires Empties(secs) == 0 ==> NotInto(kvTable, s) && NewerIsClean(secs, at, l)
      modifies this`secs, this`trace, this`secTable, this`kvTable, this`lastIsCompleteDel, this`at, this`gcRequest,
               this`oldest, this`cur, this`collected
      ensures Core(-1) && gcRequest && cur == -1 && Empties(secs) > 0 && |secs| == |old(secs)| && secs[s] == FRESH
      ensures Cut(secs, Outside(l, s), Outside(p, s)) && Places(secs, Outside(l, s), Outside(p, s))
      ensures Meaning(Outside(l, s)) == old(Meaning(l)) - lost
      ensures lost == if old(Empties(secs)) > 0 then {}
                      else Lost(Rooms(cap, old(secs), old(oldest)), old(secs)[s].recs, old(at).Keys)
      ensures lost == {} && old(!lastIsCompleteDel) ==> !lastIsCompleteDel
      ensures oldest == (if s + 1 < |secs| then s + 1 else 0) && collected == old(collected) + [s]
      ensures forall u | 0 <= u < |secs| && u != s ::
                secs[u].dirty == old(secs)[u].dirty && old(secs)[u].recs <= secs[u].recs
      ensures l == p == None && old(Empties(secs)) > 0 ==>
                old(trace) <= trace && AllHold(cap, trace, |old(trace)|, old(Meaning(l)))
      ensures old(Lean(secs)) ==> Lean(secs)
      ensures l == p == None && old(Empties(secs)) == 1 ==> CollectedOnce(cap, old(secs), secs, old(oldest), s)
    {
      hide SectorsOk, Index, Distinct, Points, OneEach, Mirrors, MapOf, Empties, Size, Swept, Sweep, Tight, Spare,
           Slack, Cut, AllHold, NotInto, Lost, Rooms, NewerIsClean, NoneLive, Dirtying, Formatted, StandsFor, Loadable,
           Restored, Lean, SpillTo, Spilled, CollectedOnce, Outside;
      ghost var goal, recs0, there := Meaning(l), secs[s].recs, at.Keys;
      ghost var x := if Empties(secs) > 0 then Some(SomeEmptyAt(secs)) else None;
      lost := if Empties(secs) > 0 then {} else Lost(Rooms(cap, secs, oldest), secs[s].recs, at.Keys);
      ghost var gone := EmptySector(s, recs0, l, p, goal, x, there, lost);
      SweepLength(secs, at, s, recs0, |recs0|, l, p, goal, gone);
      FormattedKeeps(secs, s);
      if l == p == None && old(Empties(secs)) == 1 { SpillEndsOnce(cap, old(secs), secs, oldest, s, x.value); }
      EndSweep(s, recs0, l, p, goal, gone, x, there, lost, |old(trace)|);
      oldest := NextSector(s);
      collected := collected + [s];
    }

    /** Between two calls: no collection is under way and none is asked for, at least one sector is empty, and no
        replacement is half done. */
    ghost predicate Valid()
      reads this
    {
      Ready() && !lastIsCompleteDel
    }

    /** The same but for the note that the last call of del_kv was the first of two. */
    ghost predicate Ready()
      reads this
    {
      Core(-1) && cur < 0 && Empties(secs) > 0 && Tidy(secs) && !gcRequest && !inRecovery
    }

    /** What a collection keeps from one sector to the next; m0 is the map to keep. */
    ghost predicate GoingAround(was: seq<Sector>, first: nat, k: nat, l: Option<Loc>, p: Option<Loc>,
          m0: map<Name, Value>, lost: set<Name>)
      reads this
    {
      && Core(-1) && gcRequest && cur < 0 && (l.Some? ==> inRecovery) && Around(was, secs, first, k)
      && var l', p' := StillAt(was, first, k, l), StillAt(was, first, k, p);
         Cut(secs, l', p') && Places(secs, l', p') && Meaning(l') == m0 - lost
    }

    /** How far the collection has come: to the k-th sector of the ring, with those collected that have been noted since
        there were c0 of them. */
    ghost predicate Progress(was: seq<Sector>, at0: map<Name, Loc>, table0: seq<Entry>, first: nat, k: nat, c0: nat,
          l: Option<Loc>, p: Option<Loc>, m0: map<Name, Value>, d: nat, lost: set<Name>)
      reads this
    {
      && GoingAround(was, first, k, l, p, m0, lost) && c0 <= |collected| <= c0 + k
      && LostFirst(cap, was, at0.Keys, first, |collected| - c0, d, lost)
      && (Lean(was) ==> Lean(secs))
      && (|collected| == c0 + 1 && l == p == None && Empties(was) == 1 ==>
            FirstDirty(was, first, d) && CollectedOnce(cap, was, secs, first, d))
      && if |collected| == c0 then secs == was && at == at0 && oldest == first && kvTable == table0
         else !AllClean(was) && Empties(secs) > 0
    }

    /** The next sector on the way round the ring is dirty and gets collected. */
    method CollectAt(a: nat, ghost was: seq<Sector>, ghost first: nat, ghost k: nat, ghost l: Option<Loc>,
          ghost p: Option<Loc>, ghost m0: map<Name, Value>, ghost lost: set<Name>)
      returns (ghost more: set<Name>)
      requires GoingAround(was, first, k, l, p, m0, lost)
      requires k < |was| && first < |was| && a == Wrap(|was|, first + k) && a < |secs| && secs[a].dirty != Clean
      requires Empties(secs) == 0 ==> NotInto(kvTable, a) && NewerIsClean(secs, at, StillAt(was, first, k, l))
      modifies this`secs, this`trace, this`secTable, this`kvTable, this`lastIsCompleteDel, this`at, this`gcRequest,
               this`oldest, this`cur, this`collected
      ensures GoingAround(was, first, k + 1, l, p, m0, lost + more) && Empties(secs) > 0
      ensures more == if old(Empties(secs)) > 0 then {}
                      else Lost(Rooms(cap, old(secs), old(oldest)), old(secs)[a].recs, old(at).Keys)
      ensures more == {} && old(!lastIsCompleteDel) ==> !lastIsCompleteDel
      ensures collected == old(collected) + [a]
      ensures l == p == None && old(Empties(secs)) > 0 ==>
                old(trace) <= trace && AllHold(cap, trace, |old(trace)|, m0 - lost)
      ensures old(Lean(secs)) ==> Lean(secs)
      ensures l == p == None && old(Empties(secs)) == 1 ==> CollectedOnce(cap, old(secs), secs, old(oldest), a)
    {
      hide SectorsOk, Index, Distinct, Points, OneEach, Mirrors, MapOf, Empties, Size, Cut, AllHold, Restored, Around,
           Lost, Rooms, NewerIsClean, NotInto, Places, Lean, CollectedOnce;
      ghost var mid := secs;
      AroundLength(was, secs, first, k);
      AroundCollects(was, mid, mid[a := FRESH], first, k, a, l);
      AroundCollects(was, mid, mid[a := FRESH], first, k, a, p);
      ghost var l1, p1 := StillAt(was, first, k, l), StillAt(was, first, k, p);
      hide StillAt;
      more := DoGc(a, l1, p1);
      AroundCollects(was, mid, secs, first, k, a, l);
      LostTogether(m0, lost, more);
    }

    /** The next sector on the way round the ring is looked at, and passed if it is clean. */
    method LookAt(a: nat, ghost was: seq<Sector>, ghost at0: map<Name, Loc>, ghost table0: seq<Entry>,
          ghost first: nat, ghost k: nat, ghost c0: nat, ghost l: Option<Loc>, ghost p: Option<Loc>,
          ghost m0: map<Name, Value>, ghost d: nat, ghost lost: set<Name>)
      returns (dirty: Dirty)
      requires Progress(was, at0, table0, first, k, c0, l, p, m0, d, lost)
      requires k < |was| && first < |was| && a == Wrap(|was|, first + k) && a < |secs|
      modifies this`secTable
      ensures dirty == secs[a].dirty
      ensures Progress(was, at0, table0, first, if dirty == Clean then k + 1 else k, c0, l, p, m0, d, lost)
    {
      hide SectorsOk, Index, Distinct, Points, OneEach, Mirrors, MapOf, Size, Cut, Restored, Around, Places, StillAt,
           LostFirst, AllClean, Empties, Lean, CollectedOnce, FirstDirty;
      var info := ReadSectorInfo(a, false);
      dirty := info.dirty;
      if dirty == Clean {
        AroundPasses(was, secs, first, k, a, l);
        AroundPasses(was, secs, first, k, a, p);
      }
    }

    lemma GoesAround(was: seq<Sector>, first: nat, k: nat, l: Option<Loc>, p: Option<Loc>, m0: map<Name, Value>,
          lost: set<Name>)
      requires GoingAround(was, first, k, l, p, m0, lost)
      ensures |secs| == |was| && first < |was| && Around(was, secs, first, k)
      ensures Core(-1) && gcRequest && cur < 0
      ensures var l', p' := StillAt(was, first, k, l), StillAt(was, first, k, p);
              Cut(secs, l', p') && Places(secs, l', p') && Meaning(l') == m0 - lost
    {
      hide SectorsOk, Index, Distinct, Points, OneEach, Mirrors, MapOf, Size, Cut, Restored, Places, StillAt;
    }

    /** The next sector is collected; d' is the first one to be. */
    method CollectNext(a: nat, ghost was: seq<Sector>, ghost at0: map<Name, Loc>, ghost table0: seq<Entry>,
          ghost first: nat, ghost k: nat, ghost c0: nat, ghost l: Option<Loc>, ghost p: Option<Loc>,
          ghost m0: map<Name, Value>, ghost d: nat, ghost lost: set<Name>)
      returns (ghost d': nat, ghost lost': set<Name>)
      requires Progress(was, at0, table0, first, k, c0, l, p, m0, d, lost)
      requires k < |was| && first < |was| && a == Wrap(|was|, first + k) && a < |secs| && secs[a].dirty != Clean
      requires Empties(was) == 0 ==> NewerIsClean(was, at0, l) && forall i | 0 <= i < |table0| :: table0[i].addr == None
      modifies this`secs, this`trace, this`secTable, this`kvTable, this`lastIsCompleteDel, this`at, this`gcRequest,
               this`oldest, this`cur, this`collected
      ensures Progress(was, at0, table0, first, k + 1, c0, l, p, m0, d', lost') && |secs| == |was|
      ensures |collected| == |old(collected)| + 1 && old(collected) <= collected && lost <= lost'
      ensures lost' == {} && old(!lastIsCompleteDel) ==> !lastIsCompleteDel
      ensures l == p == None && Empties(was) > 0 ==>
                old(trace) <= trace && AllHold(cap, trace, |old(trace)|, m0)
    {
      hide SectorsOk, Index, Distinct, Points, OneEach, Mirrors, MapOf, Empties, Size, Cut, AllHold, Restored, Around,
           StillAt, AllClean, FirstDirty, Lost, Rooms, NewerIsClean, NotInto, GoingAround, Core, Tables, LostFirst,
           Lean, CollectedOnce;
      d' := d;
      if |collected| == c0 {
        GoesAround(was, first, k, l, p, m0, lost);
        FirstIsFirst(was, secs, first, k, a, l);
        if Empties(secs) == 0 { NoEntries(kvTable, a); }
        d' := a;
      }
      NothingLost(cap, was, at0.Keys, first, |collected| - c0, d, lost);
      ghost var more := CollectAt(a, was, first, k, l, p, m0, lost);
      GoesAround(was, first, k + 1, l, p, m0, lost + more);
      LostGoesOn(cap, was, at0.Keys, first, |collected| - 1 - c0, d', lost, more);
      LostTogether(m0, lost, more);
      lost' := lost + more;
    }

    lemma StartsAround(l: Option<Loc>, p: Option<Loc>)
      requires Core(-1) && gcRequest && cur < 0 && Cut(secs, l, p) && Places(secs, l, p) && (l.Some? ==> inRecovery)
      ensures Index(secs, at) && (l.Some? ==> At(secs, l.value)) && oldest < |secs|
      ensures Progress(secs, at, kvTable, oldest, 0, |collected|, l, p, Meaning(l), 0, {})
    {
      hide SectorsOk, Index, Distinct, Points, OneEach, Mirrors, MapOf, Empties, Size, Cut, Restored, Around,
           StillAt, AllClean, LostFirst, Lean, CollectedOnce, FirstDirty;
      LostTogether(Meaning(l), {}, {});
      AroundStarts(secs, oldest, l);
      AroundStarts(secs, oldest, p);
      LostNothing(cap, secs, at.Keys, oldest, 0);
    }

    lemma GoneAround(was: seq<Sector>, at0: map<Name, Loc>, table0: seq<Entry>, first: nat, k: nat, c0: nat,
          l: Option<Loc>, p: Option<Loc>, m0: map<Name, Value>, d: nat, lost: set<Name>)
      requires Progress(was, at0, table0, first, k, c0, l, p, m0, d, lost)
      ensures GoingAround(was, first, k, l, p, m0, lost) && c0 <= |collected| <= c0 + k
      ensures LostFirst(cap, was, at0.Keys, first, |collected| - c0, d, lost)
      ensures if |collected| == c0 then secs == was && at == at0 && oldest == first
              else !AllClean(was) && Empties(secs) > 0
      ensures Lean(was) ==> Lean(secs)
      ensures |collected| == c0 + 1 && l == p == None && Empties(was) == 1 ==>
                FirstDirty(was, first, d) && CollectedOnce(cap, was, secs, first, d)
    {
    }

    /** The pass of do_gc around the ring. */
    method GcAround(freeSize: nat, ghost l: Option<Loc>, ghost p: Option<Loc>)
      returns (ghost k': nat, ghost d: nat, ghost lost: set<Name>)
      requires Core(-1) && gcRequest && cur < 0 && Cut(secs, l, p) && Places(secs, l, p) && (l.Some? ==> inRecovery)
      requires Empties(secs) == 0 ==>
                 && NewerIsClean(secs, at, l) && forall i | 0 <= i < |kvTable| :: kvTable[i].addr == None
      modifies this`secs, this`trace, this`secTable, this`kvTable, this`lastIsCompleteDel, this`at, this`gcRequest,
               this`oldest, this`cur, this`collected
      ensures k' <= |secs| == |old(secs)| && GoingAround(old(secs), old(oldest), k', l, p, old(Meaning(l)), lost)
      ensures |old(collected)| <= |collected| <= |old(collected)| + |secs|
      ensures LostFirst(cap, old(secs), old(at).Keys, old(oldest), |collected| - |old(collected)|, d, lost)
      ensures lost == {} && old(!lastIsCompleteDel) ==> !lastIsCompleteDel
      ensures if |collected| == |old(collected)|
              then secs == old(secs) && at == old(at) && oldest == old(oldest)
              else !AllClean(old(secs)) && Empties(secs) > 0
      ensures k' < |secs| ==> Freed(|collected| - |old(collected)|, cap) >= freeSize
      ensures k' < |secs| && freeSize > 0 ==> |collected| > |old(collected)|
      ensures old(collected) <= collected
      ensures freeSize <= cap ==> |collected| <= |old(collected)| + 1
      ensures old(Lean(secs)) ==> Lean(secs)
      ensures |collected| == |old(collected)| + 1 && l == p == None && old(Empties(secs)) == 1 ==>
                FirstDirty(old(secs), old(oldest), d) && CollectedOnce(cap, old(secs), secs, old(oldest), d)
      ensures l == p == None && old(Empties(secs)) > 0 ==>
                old(trace) <= trace && AllHold(cap, trace, |old(trace)|, old(Meaning(l)))
    {
      hide Index, Empties, Cut, AllHold, AllClean, LostFirst, NewerIsClean, Places, Freed, Progress, Core, GoingAround,
           Meaning, Lean, CollectedOnce, FirstDirty;
      d, lost := 0, {};
      ghost var was, at0, table0, first, c0 := secs, at, kvTable, oldest, |collected|;
      StartsAround(l, p);
      ghost var m0 := Meaning(l);
      ghost var traced := l == p == None && Empties(secs) > 0;
      NoneYet(cap, trace, m0);
      FreedNone(cap);
      var a, k, curFree, done := oldest, 0, 0, false;
      while k < |secs| && !done
        invariant 0 <= k <= |secs| == |was| && a < |secs| && a == Wrap(|secs|, first + k)
        invariant Progress(was, at0, table0, first, k, c0, l, p, m0, d, lost)
        invariant c0 <= |collected| && curFree == Freed(|collected| - c0, cap) && (done ==> curFree >= freeSize)
        invariant old(collected) <= collected
        invariant if freeSize <= cap then |collected| <= c0 + 1 && (done <==> |collected| > c0)
                  else done ==> |collected| > c0
        invariant lost == {} && old(!lastIsCompleteDel) ==> !lastIsCompleteDel
        invariant traced ==> old(trace) <= trace && AllHold(cap, trace, |old(trace)|, m0)
      {
        var dirty := LookAt(a, was, at0, table0, first, k, c0, l, p, m0, d, lost);
        if dirty == Dirtied || dirty == Collecting {
          ghost var before := trace;
          d, lost := CollectNext(a, was, at0, table0, first, k, c0, l, p, m0, d, lost);
          if traced { HoldOn(cap, before, trace, |old(trace)|, m0); }
          FreedMore(|collected| - c0, cap);
          curFree := curFree + cap;
          if curFree >= freeSize { done := true; }
        }
        a := NextSector(a);
        k := k + 1;
      }
      k' := k;
      GoneAround(was, at0, table0, first, k, c0, l, p, m0, d, lost);
    }

    /** gc_collect_by_free_size: dirty sectors are collected in ring order until enough is free. Only the first of them
        can lose records, and only if no sector is empty. */
    method GcCollect(freeSize: nat, ghost l: Option<Loc>, ghost p: Option<Loc>)
      returns (ghost l': Option<Loc>, ghost p': Option<Loc>, ghost d: nat, ghost lost: set<Name>)
      requires Core(-1) && gcRequest && cur < 0 && Cut(secs, l, p) && Places(secs, l, p) && (l.Some? ==> inRecovery)
      requires Empties(secs) == 0 ==>
                 && NewerIsClean(secs, at, l) && !AllClean(secs)
                 && forall i | 0 <= i < |kvTable| :: kvTable[i].addr == None
      modifies this`secs, this`trace, this`secTable, this`kvTable, this`lastIsCompleteDel, this`at, this`gcRequest,
               this`oldest, this`cur, this`collected
      ensures Core(-1) && !gcRequest && cur < 0 && |secs| == |old(secs)|
      ensures Cut(secs, l', p') && Places(secs, l', p') && Meaning(l') == old(Meaning(l)) - lost
      ensures LostFirst(cap, old(secs), old(at).Keys, old(oldest), |collected| - |old(collected)|, d, lost)
      ensures old(Empties(secs)) > 0 ==> lost == {}
      ensures lost == {} && old(!lastIsCompleteDel) ==> !lastIsCompleteDel
      ensures old(AllClean(secs)) || old(Empties(secs)) > 1 ==>
                secs == old(secs) && at == old(at) && oldest == old(oldest) && l' == l && p' == p
      ensures |old(collected)| <= |collected| <= |old(collected)| + |secs|
      ensures old(Empties(secs)) <= 1 ==>
                AllClean(secs) || Freed(|collected| - |old(collected)|, cap) >= freeSize
      ensures if |collected| == |old(collected)| then secs == old(secs) else Empties(secs) > 0
      ensures old(Empties(secs)) <= 1 && AllClean(secs) ==>
                && l' == (if l.Some? && old(secs)[l.value.s].dirty != Clean then None else l)
                && p' == (if p.Some? && old(secs)[p.value.s].dirty != Clean then None else p)
      ensures l' == None || (l' == l && Get(secs, l.value) == Get(old(secs), l.value))
      ensures old(Lean(secs)) ==> Lean(secs)
      ensures old(Empties(secs)) == 1 && old(!AllClean(secs)) && freeSize > 0 ==> |collected| > |old(collected)|
      ensures old(collected) <= collected && (old(AllClean(secs)) ==> collected == old(collected))
      ensures freeSize <= cap ==> |collected| <= |old(collected)| + 1
      ensures |collected| == |old(collected)| + 1 && l == p == None && old(Empties(secs)) == 1 ==>
                FirstDirty(old(secs), old(oldest), d) && CollectedOnce(cap, old(secs), secs, old(oldest), d)
      ensures l == p == None && old(Empties(secs)) > 0 ==>
                l' == p' == None && old(trace) <= trace && AllHold(cap, trace, |old(trace)|, old(Meaning(l)))
    {
      hide SectorsOk, Index, Distinct, Points, OneEach, Mirrors, MapOf, Empties, Size, Cut, AllHold, Restored, Around,
           StillAt, AllClean, FirstDirty, Lost, Rooms, NewerIsClean, NotInto, Freed, GoingAround, Lean, CollectedOnce;
      l', p', d, lost := l, p, 0, {};
      ghost var was, first := secs, oldest;
      LostTogether(Meaning(l), {}, {});
      NoneYet(cap, trace, Meaning(l));
      AroundStarts(was, first, l);
      AroundStarts(was, first, p);
      var empty, _ := CountStores();
      if empty <= 1 {
        ghost var k, e, gone := GcAround(freeSize, l, p);
        GoesAround(was, first, k, l, p, old(Meaning(l)), gone);
        d, lost := e, gone;
        l', p' := StillAt(was, first, k, l), StillAt(was, first, k, p);
        AroundEnds(was, secs, first, k, l, p);
        NothingLost(cap, was, old(at).Keys, first, |collected| - |old(collected)|, d, lost);
      }
      gcRequest := false;
    }

    /** new_kv: room for a record of this size. If no sector has any and only one is empty, the first dirty sector is
        collected, and there is room then exactly if its live records leave it. It gives up only when no sector has
        room although the last empty one is left alone. Whenever power goes meanwhile, the flash holds the same map. */
    method NewKv(n: nat) returns (r: Option<nat>)
      requires Valid()
      modifies this`secs, this`trace, this`secTable, this`kvTable, this`lastIsCompleteDel, this`at, this`gcRequest,
               this`oldest, this`cur, this`collected
      ensures Valid() && Contents() == old(Contents())
      ensures r.Some? ==> Candidate(cap, secs, false, r.value, n) && FirstChoice(cap, secs, oldest, false, r.value, n)
      ensures r == None ==> forall s | 0 <= s < |secs| :: !Candidate(cap, secs, false, s, n)
      ensures !NoneFits(cap, old(secs), n) ==>
                r.Some? && secs == old(secs) && kvTable == old(kvTable) && collected == old(collected)
      ensures NoneFits(cap, old(secs), n) && old(Empties(secs) != 1 || AllClean(secs)) ==>
                r == None && secs == old(secs) && collected == old(collected)
      ensures NoneFits(cap, old(secs), n) && old(Empties(secs) == 1 && !AllClean(secs)) && n > 0 ==>
                |collected| > |old(collected)| && FoundAsSaid(cap, old(secs), old(oldest), n, r.Some?)
      ensures old(Lean(secs)) ==> Lean(secs)
      ensures old(trace) <= trace && AllHold(cap, trace, |old(trace)|, old(Contents()))
    {
      hide SectorsOk, Index, Distinct, Points, OneEach, Mirrors, MapOf, Empties, Size, Cut, Candidate, AllHold,
           LostFirst, AllClean, NewerIsClean, Freed, Lean, CollectedOnce, FoundAsSaid, FirstDirty, FirstChoice,
           NoneFits;
      ghost var was, first := secs, oldest;
      var alreadyGc := false;
      NoneYet(cap, trace, Contents());
      NoneFitsIs(cap, was, n);
      while true
        invariant Valid() && Contents() == old(Contents())
        invariant !alreadyGc ==>
                    secs == old(secs) && kvTable == old(kvTable) && oldest == first && collected == old(collected)
        invariant alreadyGc ==> NoneFits(cap, was, n) && Empties(was) == 1
        invariant alreadyGc ==> if AllClean(was) then secs == was && collected == old(collected)
                                else n > 0 ==> |collected| > |old(collected)|
        invariant alreadyGc && !AllClean(was) && n > 0 ==>
                    FoundAsSaid(cap, was, first, n, n <= cap && !NoneFits(cap, secs, n))
        invariant old(trace) <= trace && AllHold(cap, trace, |old(trace)|, old(Contents()))
        invariant Lean(was) ==> Lean(secs)
        decreases !alreadyGc
      {
        CandidateInRange(cap, secs, false, n);
        NoneFitsIs(cap, secs, n);
        r := AllocKv(n);
        if r.Some? {
          CandidateIsSmall(cap, secs, false, r.value, n);
          return;
        }
        if gcRequest && !alreadyGc {
          ghost var before := trace;
          ghost var _, _, d, lost := GcCollect(n, None, None);
          LostTogether(old(Contents()), {}, {});
          HoldOn(cap, before, trace, |old(trace)|, old(Contents()));
          if !AllClean(was) && n > 0 {
            if n <= cap {
              FoundAfterCollection(cap, was, secs, first, d, n);
            } else {
              NoneFoundTooBig(cap, was, first, n);
            }
          }
          alreadyGc := true;
        } else {
          if alreadyGc { gcRequest := false; }
          return;
        }
      }
    }

    /** create_kv_blob with the room found beforehand. */
    method CreateKv(s: nat, key: Name, value: Value, ghost stale: int) returns (r: Result)
      requires Tables(stale) && (stale == -1 || stale == hash(key)) && |key| != NAME_MAX
      requires s < |secs| && Fits(cap, secs[s], REC_HDR + |key| + |value|)
      modifies this`secs, this`trace, this`secTable, this`kvTable
      ensures r == if |key| > NAME_MAX then NameErr else Ok
      ensures r == NameErr ==> Tables(stale) && secs == old(secs) && trace == old(trace)
      ensures r == Ok ==>
                && secs == Append(old(secs), s, Record(Written, key, value, Whole)) && Tables(-1)
                && trace == old(trace) + WriteTrace(old(secs), s, key, value, NewParts())
                && (kvSize > 0 ==> Remembers(kvTable, hash(key), Loc(s, |old(secs)[s].recs|)))
                && Empties(secs) == old(Empties(secs)) - (if old(secs)[s].store == Empty then 1 else 0)
    {
      if |key| > NAME_MAX {
        return NameErr;
      }
      if REC_HDR + |key| + |value| > cap {
        assert false;
      }
      WriteRecord(s, key, value, false, stale);
      r := Ok;
    }

    /** set_kv behind the search for room: the old record is marked, the new one written, the old one deleted. What is
        replaced is the record of the name `of`, which is the key exactly if no cached record of another name answers
        for it. If one does although the key is stored, the key has two live records afterwards, so that the sectors
        stand for no map. */
    method Replace(t: nat, key: Name, value: Value) returns (r: Result, ghost of: Name)
      requires Valid() && |key| != NAME_MAX && Candidate(cap, secs, false, t, REC_HDR + |key| + |value|)
      modifies this`secs, this`trace, this`secTable, this`kvTable, this`lastIsCompleteDel, this`at
      ensures r == (if |key| > NAME_MAX then NameErr else Ok)
      ensures of == key <==> !old(Shadowed(key))
      ensures of != key ==> of in old(Contents()) && hash(of) == hash(key)
      ensures Unmistakable(hash, old(Contents()), key) ==> of == key
      ensures r == NameErr ==> Valid() && Contents() == old(Contents()) && secs == old(secs) && trace == old(trace)
      ensures var l := if of in old(at) then Some(old(at)[of]) else None;
              && t < |old(secs)| && (l.Some? ==> At(old(secs), l.value))
              && (r == Ok ==> secs == Replaced(old(secs), l, t, Record(Written, key, value, Whole))
                              && trace == old(trace) + SetTrace(old(secs), l, t, key, value, NewParts()))
      ensures r == Ok ==>
                if of == key || key !in old(Contents())
                then Valid() && Contents() == (old(Contents()) - {of})[key := value] && key in at
                     && at[key] == Loc(t, |old(secs)[t].recs|)
                     && (kvSize > 0 ==> Remembers(kvTable, hash(key), at[key]))
                else Tables(-1) && forall at' :: !Index(secs, at')
    {
      hide SectorsOk, Index, Distinct, Points, OneEach, Mirrors, MapOf, Empties, Size, Tidy, Unmistakable, NotInto,
           DelTrace, WriteTrace, SetTrace, Remembers, Candidate, Shadowed, Fits, Usable, Killed, Append, Tables;
      FlashIsOk(-1);
      ghost var was, at0, before, n := secs, at, trace, REC_HDR + |key| + |value|;
      ghost var rec := Record(Written, key, value, Whole);
      CandidateFits(cap, secs, false, t, n);
      LongNames(cap, secs, at, key);
      var found, name := FindKv(key);
      of := name;
      IndexedIsLive(secs, at, of);
      SetTraceIs(before, was, found, t, key, value, NewParts());
      SetLeavesTidy(was, t, rec, found);
      ghost var stale: int := -1;
      if found.Some? {
        ReplacingFacts(cap, was, found.value, t, rec, n);
        DelKv(key, found.value, false);
        stale := hash(key);
      }
      r := CreateKv(t, key, value, stale);
      if r == NameErr { return; }
      if found.Some? {
        DelKv(key, found.value, true);
      }
      if of == key || key !in at0 {
        ReplacedIndexes(was, at0, of, t, key, value);
        at := (at0 - {of})[key := Loc(t, |was[t].recs|)];
      } else {
        StandsForNothing(was, at0, key, value, found.value, t);
      }
    }

    /** What the room found, or not, after a collection comes to. */
    lemma RoomFacts(n: nat)
      requires Valid()
      ensures forall found: bool | FoundAsSaid(cap, secs, oldest, n, found) ::
                forall d: nat | d < |secs| && FirstDirty(secs, oldest, d) ::
                  && (NoneLive(secs[d]) ==> (found <==> n + THRESHOLD < cap))
                  && (LiveSize(secs[d].recs) + n + THRESHOLD < cap ==> found)
      ensures Lean(secs) && LiveTotal(secs) + n + THRESHOLD < cap && NoneFits(cap, secs, n) ==>
                Empties(secs) == 1 && !AllClean(secs) && !FoundAsSaid(cap, secs, oldest, n, false)
    {
      hide SectorsOk, Index, Distinct, Points, OneEach, Mirrors, Empties, Size, Tidy, NoneFits, Lean, FoundAsSaid,
           FirstDirty, AllClean, LiveTotal, LiveSize, NoneLive;
      forall found: bool | FoundAsSaid(cap, secs, oldest, n, found)
        ensures forall d: nat | d < |secs| && FirstDirty(secs, oldest, d) ::
                  && (NoneLive(secs[d]) ==> (found <==> n + THRESHOLD < cap))
                  && (LiveSize(secs[d].recs) + n + THRESHOLD < cap ==> found)
      {
        FoundFor(cap, secs, oldest, n, found);
      }
      if Lean(secs) && LiveTotal(secs) + n + THRESHOLD < cap && NoneFits(cap, secs, n) {
        LeanHasRoom(cap, secs, n);
        if FoundAsSaid(cap, secs, oldest, n, false) { LeanFinds(cap, secs, oldest, n, false); }
      }
    }

    /** set_kv with a value. What is replaced is the record of the name `of`, which is the key if nothing can be
        mistaken for it, and if there is room at once exactly if no cached record of another name answers for it.
        Whenever power goes before the end the flash holds the map before or the map afterwards. */
    method SetKv(key: Name, value: Value)
      returns (r: Result, ghost of: Name, ghost base: seq<Sector>, ghost at0: map<Name, Loc>, ghost t: nat,
               ghost from: nat)
      requires Valid() && |key| != NAME_MAX
      modifies this`secs, this`trace, this`secTable, this`kvTable, this`lastIsCompleteDel, this`at, this`gcRequest,
               this`oldest, this`cur, this`collected
      ensures r == SavedFull || r == if |key| > NAME_MAX then NameErr else Ok
      ensures of != key ==> of in old(Contents()) && hash(of) == hash(key)
      ensures Unmistakable(hash, old(Contents()), key) ==> of == key
      ensures r != Ok ==> Valid() && Contents() == old(Contents())
      ensures r == SavedFull ==>
                var n := REC_HDR + |key| + |value|; forall s | 0 <= s < |secs| :: !Candidate(cap, secs, false, s, n)
      ensures r == Ok ==>
                if of == key || key !in old(Contents())
                then Valid() && Contents() == (old(Contents()) - {of})[key := value] && key in at
                     && (kvSize > 0 ==> Remembers(kvTable, hash(key), at[key]))
                else Tables(-1) && forall at' :: !Index(secs, at')
      ensures r == Ok ==>
                var l := if of in at0 then Some(at0[of]) else None;
                && from <= |trace| && SetBase(cap, base, at0, old(Contents()), key, value, t)
                && t < |base| && (l.Some? ==> At(base, l.value))
                && secs == Replaced(base, l, t, Record(Written, key, value, Whole))
                && trace[from..] == SetTrace(base, l, t, key, value, NewParts())
      ensures r == Ok && of !in old(Contents()) ==> t < |base| && key in at && at[key] == Loc(t, |base[t].recs|)
      ensures var n := REC_HDR + |key| + |value|;
              !NoneFits(cap, old(secs), n) ==>
                r != SavedFull && base == old(secs) && (of == key <==> !old(Shadowed(key)))
      ensures of == key ==>
                old(trace) <= trace && AllHoldEither(cap, trace, |old(trace)|, old(Contents()), Contents())
      ensures r == Ok ==> FirstChoice(cap, base, oldest, false, t, REC_HDR + |key| + |value|)
      ensures var n := REC_HDR + |key| + |value|;
              NoneFits(cap, old(secs), n) ==>
                if old(Empties(secs) == 1 && !AllClean(secs)) then
                  && |collected| > |old(collected)|
                  && FoundAsSaid(cap, old(secs), old(oldest), n, r != SavedFull)
                  && forall d: nat | d < |old(secs)| && FirstDirty(old(secs), old(oldest), d) ::
                       && (NoneLive(old(secs)[d]) ==> (r != SavedFull <==> n + THRESHOLD < cap))
                       && (LiveSize(old(secs)[d].recs) + n + THRESHOLD < cap ==> r != SavedFull)
                else r == SavedFull && secs == old(secs)
      ensures old(Lean(secs)) && old(LiveTotal(secs)) + REC_HDR + |key| + |value| + THRESHOLD < cap ==> r != SavedFull
      ensures old(Lean(secs)) ==> Lean(secs)
    {
      hide SectorsOk, Index, Distinct, Points, OneEach, Mirrors, MapOf, Empties, Size, Tidy, Unmistakable,
           SetTrace, Remembers, Candidate, SetBase, Append, Replaced, AllHold, AllHoldEither, SomeAnswers, Lean,
           FoundAsSaid, FirstDirty, FirstChoice, AllClean, LiveTotal, LiveSize, NoneLive, NoneFits;
      ghost var m := Contents();
      RoomFacts(REC_HDR + |key| + |value|);
      var s := NewKv(REC_HDR + |key| + |value|);
      base, at0, t, from, of := secs, at, 0, |trace|, key;
      OneOfTwo(cap, trace, |old(trace)|, m, m);
      if s == None { return SavedFull, of, base, at0, t, from; }
      t := s.value;
      if |key| < NAME_MAX { SetBegins(cap, secs, at, m, key, value, t); }
      ghost var before := trace;
      var q, name := Replace(s.value, key, value);
      r, of := q, name;
      if r == Ok && Lean(base) {
        LeanAfterReplacing(base, if of in at0 then Some(at0[of]) else None, t, Record(Written, key, value, Whole));
      }
      if r == Ok && of == key {
        SetHolds(cap, before, trace, |old(trace)|, base, at0, m, key, value, t);
        NotIndexedNow(m, key, value);
      }
      if gcRequest {
        assert false;
      }
    }

    /** fdb_kv_del, and set_kv without a value. What is deleted is the record of the name `of`: the key's own exactly
        when no cached record of another name answers for the key. From the first flash write on it is gone. */
    method DeleteKv(key: Name) returns (r: Result, ghost of: Name)
      requires Valid()
      modifies this`secs, this`trace, this`secTable, this`kvTable, this`lastIsCompleteDel, this`at
      ensures Valid() && Contents() == old(Contents()) - {of}
      ensures r == if of in old(Contents()) then Ok else NameErr
      ensures of != key ==> of in old(Contents()) && hash(of) == hash(key)
      ensures Unmistakable(hash, old(Contents()), key) ==> of == key
      ensures of == key <==> !old(Shadowed(key))
      ensures Contents() == old(Contents()) - {key} <==> !old(Shadowed(key))
      ensures old(trace) <= trace && AllHold(cap, trace, |old(trace)|, Contents())
      ensures old(Lean(secs)) ==> Lean(secs)
    {
      hide SectorsOk, Index, Distinct, Points, OneEach, Mirrors, MapOf, Empties, Size, Tidy, Unmistakable,
           DelTrace, WriteTrace, Shadowed, AllHold, NotInto, Lean;
      ghost var was, m := secs, Contents();
      var found, name := FindKv(key);
      of := name;
      WithoutOne(m, key, of);
      if found.Some? {
        IndexedIsLive(secs, at, of);
        KilledIndexes(secs, at, found.value, Deleted);
        DeleteHolds(cap, trace, secs, at, found.value);
        KilledFacts(cap, was, found.value, Deleted, false, 0, 0);
        DeleteLeavesTidy(was, found.value);
        if Lean(was) { LeanAfterKill(was, found.value, Deleted); }
        DelKv(key, found.value, true);
        at := at - {of};
        r := Ok;
      } else {
        NoneYet(cap, trace, m);
        r := NameErr;
      }
    }

    // ---------- after a power loss ----------

    /** While the flash is put in order; `l` is the marked record that is still to be seen to. */
    ghost predicate Mending(l: Option<Loc>, goal: map<Name, Value>)
      reads this
    {
      && Core(-1) && cur < 0 && inRecovery && Empties(secs) > 0
      && (l.Some? ==> At(secs, l.value)) && Meaning(l) == goal
    }

    /** An unfinished record is given up. */
    method Spoil(p: Loc, ghost l: Option<Loc>, ghost goal: map<Name, Value>)
      requires Mending(l, goal) && At(secs, p) && Get(secs, p).status == PreWrite && (l.Some? ==> l.value != p)
      modifies this`secs, this`trace
      ensures secs == Restatus(old(secs), p, ErrHdr) && Mending(l, goal)
    {
      hide SectorsOk, Index, Distinct, Points, OneEach, Mirrors, MapOf, Empties;
      DeadRestatusIndexes(secs, at, p, ErrHdr);
      PointsAfterKill(kvTable, hash, secs, -1, p, ErrHdr);
      MirrorsAfterRestatus(secTable, cap, secs, cur, p, ErrHdr);
      SpoiledOk(cap, secs, p);
      ghost var was := secs;
      secs := Restatus(secs, p, ErrHdr);
      trace := trace + [secs];
      if l.Some? { assert Get(secs, l.value) == Get(was, l.value); }
    }

    /** check_and_recovery_kv_cb: a record whose replacement was cut is moved, an unfinished one ends the scan, the
        rest goes into the table. The scan also ends when there is no room for the record to be moved. */
    method CheckAndRecoverKv(here: Loc, ghost img: seq<Sector>, ghost goal: map<Name, Value>, ghost l: Option<Loc>,
                             ghost p: Option<Loc>, ghost pend: bool, ghost k: nat)
      returns (stop: bool, ghost full: bool, ghost pend': bool)
      requires Mending(if pend then l else None, goal) && !gcRequest
      requires At(secs, here) && |secs| == |img| && Pending(|secs|, oldest, here.s) == k
      requires Scanned(img, secs, l, p, pend, false, oldest, k, here.i)
      modifies this`secs, this`trace, this`secTable, this`kvTable, this`lastIsCompleteDel, this`at, this`gcRequest
      ensures Mending(if pend' then l else None, goal) && (pend' ==> pend && at == old(at))
      ensures if full then stop && pend' && secs == old(secs) && Halted(img, l, p)
              else !gcRequest && Scanned(img, secs, l, p, pend', stop, oldest, k, here.i + 1)
      ensures pend && !pend' ==> HasRoom(cap, img, l)
      ensures At(secs, here) && |secs| == |old(secs)|
      ensures pend' == pend ==> |secs[here.s].recs| == |old(secs)[here.s].recs|
      ensures old(!lastIsCompleteDel) ==> !lastIsCompleteDel
    {
      hide SectorsOk, Index, Distinct, Points, OneEach, Mirrors, MapOf, Empties, Size, Tidy, Cut, FirstChoice,
           Candidate, Moved, Killed, Scanned, Before, MoveTrace, NotInto, Len;
      ghost var was := secs;
      var kv := Get(secs, here);
      stop, full, pend' := false, false, pend;
      ScanHere(img, secs, l, p, pend, oldest, k, here);
      if kv.status == PreDelete {
        ScanMeets(img, secs, l, p, pend, oldest, k, here);
        var r, t := MoveKv(here);
        if r != Ok {
          stop, full := true, true;
        } else {
          pend' := false;
          MovedElsewhere(cap, was, here, t, Len(kv));
          ScanMoved(img, secs, l, p, oldest, k, here, t);
          MovedRecords(img, secs, here, t);
        }
      } else if kv.status == PreWrite && kv.part != StatusOnly {
        Spoil(here, if pend then l else None, goal);
        stop := true;
        ScanSpoiled(img, was, l, p, pend, oldest, k, here);
      } else {
        if kv.status == Written {
          ghost var table := kvTable;
          var _ := UpdateKvCache(hash(kv.name), Some(here));
          PointsWider(table, hash, secs, -1, hash(kv.name));
          PointsAfterStore(table, kvTable, hash, secs, hash(kv.name), Some(here));
        }
        ScanNext(img, secs, l, p, pend, oldest, k, here);
      }
    }

    /** The scan has come to the marked record, with nothing changed, and has found no room for it. */
    ghost predicate Halted(img: seq<Sector>, l: Option<Loc>, p: Option<Loc>)
      reads this
    {
      && secs == img && l.Some? && At(img, l.value) && !HasRoom(cap, img, l) && gcRequest == (Empties(img) == 1)
      && (p.Some? ==> oldest < |img| && p.value.s < |img| && Before(|img|, oldest, l.value, p.value))
    }

    /** kv_iterator over one sector. Copies that are made on the way may land in this sector and are then met, too. */
    method RecoverSector(a: nat, ghost img: seq<Sector>, ghost goal: map<Name, Value>, ghost l: Option<Loc>,
                         ghost p: Option<Loc>, ghost pend: bool, ghost k: nat)
      returns (stop: bool, ghost full: bool, ghost pend': bool)
      requires Mending(if pend then l else None, goal) && !gcRequest
      requires |secs| == |img| && a < |secs| && Pending(|secs|, oldest, a) == k
      requires Scanned(img, secs, l, p, pend, false, oldest, k, 0)
      modifies this`secs, this`trace, this`secTable, this`kvTable, this`lastIsCompleteDel, this`at, this`gcRequest
      ensures Mending(if pend' then l else None, goal) && |secs| == |img| && (pend' ==> pend && at == old(at))
      ensures if full then stop && pend' && Halted(img, l, p)
              else !gcRequest && Scanned(img, secs, l, p, pend', stop, oldest, k + 1, 0)
      ensures pend && !pend' ==> HasRoom(cap, img, l)
      ensures old(!lastIsCompleteDel) ==> !lastIsCompleteDel
    {
      hide SectorsOk, Index, Distinct, Points, OneEach, Mirrors, MapOf, Empties, Size, Tidy, Cut,
           Candidate, Scanned, Before, Moved, Killed, Pending, Len, Halted, HasRoom, Restored;
      stop, full, pend' := false, false, pend;
      var info := ReadSectorInfo(a, false);
      var i := 0;
      if info.store == Using {
        while i < |secs[a].recs| && !stop
          invariant |secs| == |img| && 0 <= i <= |secs[a].recs|
          invariant if full then stop && pend' && Halted(img, l, p)
                    else !gcRequest && Scanned(img, secs, l, p, pend', stop, oldest, k, i)
          invariant Mending(if pend' then l else None, goal) && (pend' ==> pend && at == old(at))
          invariant pend && !pend' ==> HasRoom(cap, img, l)
          invariant old(!lastIsCompleteDel) ==> !lastIsCompleteDel
          decreases pend', |secs[a].recs| - i
        {
          stop, full, pend' := CheckAndRecoverKv(Loc(a, i), img, goal, l, p, pend', k);
          i := i + 1;
        }
      }
      if !stop {
        ScanSector(cap, img, secs, l, p, pend', oldest, k, i, a);
      } else if !full {
        StoppedScan(img, secs, l, p, pend', oldest, k, i);
      }
    }

    /** kv_iterator over all sectors. If it is not halted it has moved the marked record, as long as it did not come to
        an unfinished one before. */
    method IterateKv(ghost l: Option<Loc>, ghost p: Option<Loc>, ghost goal: map<Name, Value>)
      returns (ghost full: bool, ghost pend: bool)
      requires Mending(l, goal) && !gcRequest && Cut(secs, l, p) && Places(secs, l, p)
      modifies this`secs, this`trace, this`secTable, this`kvTable, this`lastIsCompleteDel, this`at, this`gcRequest
      ensures Mending(if pend then l else None, goal) && |secs| == |old(secs)| && (pend ==> l.Some? && at == old(at))
      ensures if full then pend && Halted(old(secs), l, p)
              else && !gcRequest && Cut(secs, if pend then l else None, None)
                   && if pend then && p.Some? && !Before(|secs|, oldest, l.value, p.value)
                                   && secs == Restatus(old(secs), p.value, ErrHdr)
                      else l.Some? ==> && HasRoom(cap, old(secs), l)
                                       && (p.Some? ==> Before(|secs|, oldest, l.value, p.value))
      ensures old(!lastIsCompleteDel) ==> !lastIsCompleteDel
    {
      hide SectorsOk, Index, Distinct, Points, OneEach, Mirrors, MapOf, Empties, Size, Cut,
           Candidate, Scanned, Before, Moved, Killed, Pending, Len, Halted, HasRoom, Restored;
      ghost var img := secs;
      full, pend := false, l.Some?;
      ScanBegins(img, l, p, oldest);
      var a, k, stop := oldest, 0, false;
      while k < |secs| && !stop
        invariant 0 <= k <= |secs| == |img| && a < |secs| && a == Wrap(|secs|, oldest + k)
        invariant if full then stop && pend && Halted(img, l, p)
                  else !gcRequest && Scanned(img, secs, l, p, pend, stop, oldest, k, 0)
        invariant Mending(if pend then l else None, goal) && (pend ==> l.Some? && at == old(at))
        invariant l.Some? && !pend ==> HasRoom(cap, img, l)
        invariant old(!lastIsCompleteDel) ==> !lastIsCompleteDel
      {
        WrapDistance(|secs|, oldest, k);
        stop, full, pend := RecoverSector(a, img, goal, l, p, pend, k);
        a := NextSector(a);
        k := k + 1;
      }
      if !full { ScanEnds(img, secs, l, p, pend, stop, oldest, k); }
    }

    /** The check for cut collections has come to the k-th sector: either one has been resumed, and all sectors are
        clean, or nothing has changed. */
    ghost predicate Resuming(was: seq<Sector>, at0: map<Name, Loc>, first: nat, k: nat, l: Option<Loc>, p: Option<Loc>,
          goal: map<Name, Value>, l': Option<Loc>, p': Option<Loc>, d: nat, lost: set<Name>, done: bool)
      reads this
    {
      && Core(-1) && cur < 0 && !gcRequest && inRecovery && Cut(secs, l', p') && Places(secs, l', p')
      && |secs| == |was| && first < |was| && Meaning(l') == goal - lost && SameMarked(was, secs, l, l')
      && if done then && Resumes(was) && AllClean(secs) && Empties(secs) > 0
                      && LostFirst(cap, was, at0.Keys, first, 1, d, lost)
                      && (l'.Some? ==> p' == None && was[l'.value.s].dirty == Clean)
         else && secs == was && at == at0 && oldest == first && l' == l && p' == p && lost == {}
              && (Empties(was) == 0 ==> forall i | 0 <= i < |kvTable| :: kvTable[i].addr == None)
              && (Empties(was) <= 1 ==> forall s | 0 <= s < |was| && Pending(|was|, first, s) < k ::
                    was[s].dirty != Collecting)
    }

    /** check_and_recovery_gc_cb for one sector. */
    method ResumeAt(a: nat, ghost was: seq<Sector>, ghost at0: map<Name, Loc>, ghost first: nat, ghost k: nat,
          ghost l: Option<Loc>, ghost p: Option<Loc>, ghost goal: map<Name, Value>, ghost l1: Option<Loc>,
          ghost p1: Option<Loc>, ghost d: nat, ghost lost: set<Name>, ghost done: bool)
      returns (ghost l': Option<Loc>, ghost p': Option<Loc>, ghost d': nat, ghost lost': set<Name>, ghost done': bool)
      requires Resuming(was, at0, first, k, l, p, goal, l1, p1, d, lost, done)
      requires Loadable(cap, was, at0, l, p) && k < |was| && a == Wrap(|was|, first + k) && a < |secs|
      modifies this`secs, this`trace, this`secTable, this`kvTable, this`lastIsCompleteDel, this`at, this`gcRequest,
               this`oldest, this`cur, this`collected
      ensures Resuming(was, at0, first, k + 1, l, p, goal, l', p', d', lost', done') && |secs| == |was|
      ensures lost <= lost' && (lost' == {} && old(!lastIsCompleteDel) ==> !lastIsCompleteDel)
    {
      hide SectorsOk, Index, Distinct, Points, OneEach, Mirrors, MapOf, Empties, Size, Cut, Restored, AllClean, AllHold,
           LostFirst, NewerIsClean, Freed, SomeCollecting;
      l', p', d', lost', done' := l1, p1, d, lost, done;
      SameDistance(|was|, first);
      WrapDistance(|was|, first, k);
      var info := ReadSectorInfo(a, false);
      if info.dirty == Collecting {
        ghost var c := |collected|;
        CollectingIsBig(cap, secs, a, 0);
        gcRequest := true;
        l', p', d', lost' := GcCollect(|secs| * (cap + SEC_HDR), l, p);
        CollectingIsBig(cap, was, a, |collected| - c);
        CleanAt(secs, l');
        LostIsLost(cap, was, at0.Keys, first, |collected| - c, d', lost');
        done' := Empties(was) <= 1;
      }
    }

    /** check_and_recovery_gc_cb for all sectors: a collection that was cut is resumed, and then collects all dirty
        sectors. */
    method ResumeGc(ghost l: Option<Loc>, ghost p: Option<Loc>)
      returns (ghost l': Option<Loc>, ghost p': Option<Loc>, ghost d: nat, ghost lost: set<Name>)
      requires Core(-1) && cur < 0 && !gcRequest && inRecovery && Loadable(cap, secs, at, l, p)
      requires forall i | 0 <= i < |kvTable| :: kvTable[i].addr == None
      modifies this`secs, this`trace, this`secTable, this`kvTable, this`lastIsCompleteDel, this`at, this`gcRequest,
               this`oldest, this`cur, this`collected
      ensures !gcRequest && |secs| == |old(secs)|
      ensures Mending(l', old(Meaning(l)) - lost) && Cut(secs, l', p') && Places(secs, l', p')
      ensures LostFirst(cap, old(secs), old(at).Keys, old(oldest), if old(Resumes(secs)) then 1 else 0, d, lost)
      ensures lost == {} && old(!lastIsCompleteDel) ==> !lastIsCompleteDel
      ensures if old(Resumes(secs))
              then AllClean(secs) && (l'.Some? ==> p' == None && old(secs)[l'.value.s].dirty == Clean)
              else secs == old(secs) && at == old(at) && oldest == old(oldest) && l' == l && p' == p
      ensures SameMarked(old(secs), secs, l, l')
    {
      hide SectorsOk, Index, Distinct, Points, OneEach, Mirrors, MapOf, Empties, Size, Cut, Restored, AllClean, AllHold,
           LostFirst, NewerIsClean, Freed, SomeCollecting;
      l', p', d, lost := l, p, 0, {};
      ghost var was, at0, goal, first := secs, at, Meaning(l), oldest;
      LostTogether(goal, {}, {});
      LostNothing(cap, was, at.Keys, first, 0);
      var a, k := oldest, 0;
      ghost var done := false;
      assert Resuming(was, at0, first, 0, l, p, goal, l', p', d, lost, done);
      hide Resuming, Core, Loadable;
      while k < |secs|
        invariant 0 <= k <= |secs| == |was| && a < |secs| && a == Wrap(|secs|, first + k)
        invariant Resuming(was, at0, first, k, l, p, goal, l', p', d, lost, done)
        invariant lost == {} && old(!lastIsCompleteDel) ==> !lastIsCompleteDel
      {
        l', p', d, lost, done := ResumeAt(a, was, at0, first, k, l, p, goal, l', p', d, lost, done);
        a := NextSector(a);
        k := k + 1;
      }
      Resumed(was, at0, first, l, p, goal, l', p', d, lost, done);
    }

    lemma Resumed(was: seq<Sector>, at0: map<Name, Loc>, first: nat, l: Option<Loc>, p: Option<Loc>,
          goal: map<Name, Value>, l': Option<Loc>, p': Option<Loc>, d: nat, lost: set<Name>, done: bool)
      requires Resuming(was, at0, first, |was|, l, p, goal, l', p', d, lost, done) && Loadable(cap, was, at0, l, p)
      ensures Mending(l', goal - lost) && Cut(secs, l', p') && Places(secs, l', p') && !gcRequest
      ensures LostFirst(cap, was, at0.Keys, first, if Resumes(was) then 1 else 0, d, lost)
      ensures if Resumes(was) then AllClean(secs) && (l'.Some? ==> p' == None && was[l'.value.s].dirty == Clean)
              else secs == was && at == at0 && oldest == first && l' == l && p' == p
      ensures SameMarked(was, secs, l, l')
    {
      hide SectorsOk, Index, Distinct, Points, OneEach, Mirrors, MapOf, Empties, Size, Cut, Restored, AllClean,
           LostFirst, NewerIsClean, SomeCollecting;
      NoneCollecting(was, first);
      LostNothing(cap, was, at0.Keys, first, d);
    }

    /** Between two rounds of _fdb_kv_load. */
    ghost predicate Rounding(img: seq<Sector>, at1: map<Name, Loc>, start: nat, l: Option<Loc>, p: Option<Loc>,
          goal: map<Name, Value>, r: nat, l': Option<Loc>, p': Option<Loc>)
      reads this
    {
      && Mending(l', goal) && !gcRequest && Cut(secs, l', p') && Places(secs, l', p') && |secs| == |img|
      && AfterRounds(cap, img, secs, start, l, p, r, l', p')
      && (r == 0 ==> secs == img && at == at1 && oldest == start && l' == l && p' == p)
    }

    /** One round of _fdb_kv_load: the scan, and if that has found no room, a collection. */
    method LoadRound(ghost img: seq<Sector>, ghost at1: map<Name, Loc>, ghost start: nat, ghost l: Option<Loc>,
          ghost p: Option<Loc>, ghost goal: map<Name, Value>, ghost r: nat, ghost l1: Option<Loc>,
          ghost p1: Option<Loc>)
      returns (done: bool, ghost l': Option<Loc>, ghost p': Option<Loc>)
      requires Rounding(img, at1, start, l, p, goal, r, l1, p1)
      requires |img| >= 2 && start < |img| && Places(img, l, p)
      requires l.Some? && p.Some? ==> img[l.value.s].dirty != Clean
      modifies this`secs, this`trace, this`secTable, this`kvTable, this`lastIsCompleteDel, this`at, this`gcRequest,
               this`oldest, this`cur, this`collected
      ensures |secs| == |img| && (old(!lastIsCompleteDel) ==> !lastIsCompleteDel)
      ensures !done ==> Rounding(img, at1, start, l, p, goal, r + 1, l', p')
      ensures done ==> Mending(l', goal) && !gcRequest && Cut(secs, l', None)
      ensures done && l'.Some? ==>
                && r == 0 && l' == l && p.Some? && !InOrder(img, start, l, p)
                && secs == Restatus(img, p.value, ErrHdr) && at == at1
      ensures done && l' == None && r == 0 && l.Some? ==> HasRoom(cap, img, l) && InOrder(img, start, l, p)
      ensures done ==> !Stuck(cap, img, l) && (r > 0 ==> l' == None && InOrder(img, start, l, p))
    {
      hide SectorsOk, Index, Distinct, Points, OneEach, Mirrors, MapOf, Empties, Size, Cut, Restored, AllHold,
           LostFirst, NewerIsClean, Freed, Before, HasRoom, AllClean;
      ghost var was := secs;
      CleanAt(img, l);
      ghost var full, pend := IterateKv(l1, p1, goal);
      done, l', p' := true, if pend then l1 else None, None;
      if full { MarkedIsBig(cap, was, l1.value, 0); }
      if gcRequest {
        done := false;
        ghost var c := |collected|;
        ghost var l2, p2, _, _ := GcCollect(|secs| * (cap + SEC_HDR), l1, p1);
        l', p' := l2, p2;
        MarkedIsBig(cap, was, l1.value, |collected| - c);
        LostTogether(goal, {}, {});
        CleanAt(was, l1);
      }
    }

    /** So many rounds, or as many as it takes. */
    method LoadRounds(ghost l: Option<Loc>, ghost p: Option<Loc>, ghost goal: map<Name, Value>, rounds: nat)
      returns (done: bool, ghost l': Option<Loc>)
      requires Mending(l, goal) && !gcRequest && Cut(secs, l, p) && Places(secs, l, p)
      requires l.Some? && p.Some? ==> secs[l.value.s].dirty != Clean
      modifies this`secs, this`trace, this`secTable, this`kvTable, this`lastIsCompleteDel, this`at, this`gcRequest,
               this`oldest, this`cur, this`collected
      ensures |secs| == |old(secs)| && SameMarked(old(secs), secs, l, l') && Mending(l', goal) && !gcRequest
      ensures old(!lastIsCompleteDel) ==> !lastIsCompleteDel
      ensures done ==> Cut(secs, l', None) && !Stuck(cap, old(secs), l)
      ensures rounds > 0 ==> (done && l'.Some? <==> !InOrder(old(secs), old(oldest), l, p))
      ensures done && l'.Some? ==>
                l' == l && p.Some? && secs == Restatus(old(secs), p.value, ErrHdr) && at == old(at)
      ensures !done && rounds > 1 ==> Stuck(cap, secs, l') && old(secs)[l.value.s].dirty == Clean
      ensures Stuck(cap, old(secs), l) ==> !done && secs == old(secs)
      ensures rounds > 0 && (l.Some? ==> HasRoom(cap, old(secs), l)) ==> done
    {
      hide SectorsOk, Index, Distinct, Points, OneEach, Mirrors, MapOf, Empties, Size, Cut, Restored, Before, HasRoom,
           AllClean, Core, Meaning;
      ghost var img, at1, start, p' := secs, at, oldest, p;
      l', done := l, false;
      ReadyToScan(l, goal);
      CutApart(img, l, p);
      var r := 0;
      assert Rounding(img, at1, start, l, p, goal, 0, l, p);
      while r < rounds && !done
        invariant r <= rounds && |secs| == |img| && (old(!lastIsCompleteDel) ==> !lastIsCompleteDel)
        invariant !done ==> Rounding(img, at1, start, l, p, goal, r, l', p')
        invariant done ==> r > 0 && Mending(l', goal) && !gcRequest && Cut(secs, l', None) && !Stuck(cap, img, l)
        invariant done && l'.Some? ==>
                    && l' == l && p.Some? && !InOrder(img, start, l, p)
                    && secs == Restatus(img, p.value, ErrHdr) && at == at1
        invariant done && l' == None ==> InOrder(img, start, l, p)
      {
        done, l', p' := LoadRound(img, at1, start, l, p, goal, r, l', p');
        r := r + 1;
      }
      if done && l'.Some? { RestatusKeeps(img, p.value, l.value); }
    }

    lemma ReadyToScan(l: Option<Loc>, goal: map<Name, Value>)
      requires Mending(l, goal)
      ensures |secs| >= 2 && oldest < |secs|
    {
      hide SectorsOk, Index, Distinct, Points, OneEach, Mirrors, Meaning;
    }

    /** _fdb_kv_load: a cut collection is resumed, and then the records are scanned, round after round until no more
        collection is asked for. The outcome is decided by the flash and the sector where the scan starts. If it comes
        to the unfinished record before the marked one, the key stays marked. If all sectors are clean and there is no
        room for the marked record, every round ends as it began. Otherwise the second round at the latest is the last
        one, unless it is the first collection that leads to such a flash. */
    method Load(ghost l: Option<Loc>, ghost p: Option<Loc>, rounds: nat)
      returns (done: bool, ghost l': Option<Loc>, ghost d: nat, ghost lost: set<Name>)
      requires Core(-1) && cur < 0 && !gcRequest && !inRecovery && !lastIsCompleteDel && Loadable(cap, secs, at, l, p)
      requires forall i | 0 <= i < |kvTable| :: kvTable[i].addr == None
      modifies this`secs, this`trace, this`secTable, this`kvTable, this`lastIsCompleteDel, this`at, this`gcRequest,
               this`oldest, this`cur, this`collected, this`inRecovery
      ensures |secs| == |old(secs)| && SameMarked(old(secs), secs, l, l')
      ensures LostFirst(cap, old(secs), old(at).Keys, old(oldest), if old(Resumes(secs)) then 1 else 0, d, lost)
      ensures done && l' == None ==> Ready() && Contents() == old(Meaning(l)) - lost && (lost == {} ==> Valid())
      ensures done && l'.Some? ==>
                && l' == l && p.Some? && secs == Restatus(old(secs), p.value, ErrHdr) && at == old(at)
                && Core(-1) && Loadable(cap, secs, at, l, None)
      ensures rounds > 0 && old(!Resumes(secs)) ==> (done && l'.Some? <==> !InOrder(old(secs), old(oldest), l, p))
      ensures old(Resumes(secs)) ==> !(done && l'.Some?)
      ensures !done && rounds > 1 ==> Stuck(cap, secs, l') && old(secs)[l.value.s].dirty == Clean
      ensures old(!Resumes(secs)) && Stuck(cap, old(secs), l) ==> !done && secs == old(secs)
      ensures rounds > 0 && old(!Resumes(secs)) && (l.Some? ==> HasRoom(cap, old(secs), l)) ==> done
    {
      hide SectorsOk, Index, Distinct, Points, OneEach, Mirrors, MapOf, Empties, Size, Cut, LostFirst,
           NewerIsClean, Before, HasRoom, AllClean, SomeCollecting, Resumes, Stuck;
      inRecovery := true;
      ghost var l1, p1, e, gone := ResumeGc(l, p);
      d, lost := e, gone;
      ghost var img := secs;
      CleanAt(img, l1);
      done, l' := LoadRounds(l1, p1, Meaning(l1), rounds);
      if done { inRecovery := false; }
    }

  }

  datatype Op = Set(key: Name, value: Value) | Delete(key: Name)

  /** What an operation with this result does to the map. */
  function Apply(m: map<Name, Value>, op: Op, r: Result): map<Name, Value> {
    match op
    case Set(key, value) => if r == Ok then m[key := value] else m
    case Delete(key) => m - {key}
  }

  function ApplyAll(m: map<Name, Value>, ops: seq<Op>, rs: seq<Result>): map<Name, Value>
    requires |ops| == |rs|
  {
    if ops == [] then m else Apply(ApplyAll(m, ops[..|ops| - 1], rs[..|ops| - 1]), ops[|ops| - 1], rs[|ops| - 1])
  }

  /** The results that an operation may report in front of the map m. */
  predicate Reports(m: map<Name, Value>, op: Op, r: Result) {
    match op
    case Set(key, _) => r == SavedFull || r == if |key| > NAME_MAX then NameErr else Ok
    case Delete(key) => r == if key in m then Ok else NameErr
  }

  predicate AllReport(m: map<Name, Value>, ops: seq<Op>, rs: seq<Result>)
    requires |ops| == |rs|
  {
    ops == [] ||
    (AllReport(m, ops[..|ops| - 1], rs[..|ops| - 1])
     && Reports(ApplyAll(m, ops[..|ops| - 1], rs[..|ops| - 1]), ops[|ops| - 1], rs[|ops| - 1]))
  }

  /** Of two names in play with the same CRC, none starts the other. */
  ghost predicate Apart(hash: Name -> nat, names: set<Name>) {
    forall a, b | a in names && b in names && hash(a) == hash(b) && a <= b :: a == b
  }

  lemma ApartIsUnmistakable(hash: Name -> nat, names: set<Name>, m: map<Name, Value>, key: Name)
    requires Apart(hash, names) && m.Keys <= names && key in names
    ensures Unmistakable(hash, m, key)
  {
    forall k | k in m ensures key <= k + m[k] || k + m[k] <= key ==> key <= k || k <= key {
      OneStartsTheOther(key, k, m[k]);
    }
  }

  predicate Fitting(op: Op, size: nat) {
    op.Set? ==> REC_HDR + |op.key| + |op.value| <= size
  }

  /** Records of at most `size` bytes, in a store that holds no dead ones in a sector marked clean, of which a sector
      takes one more than there are names. */
  ghost predicate Roomy(cap: int, secs: seq<Sector>, m: map<Name, Value>, names: set<Name>, size: nat) {
    Lean(secs) && Small(m, size) && (|names| + 1) * size + THRESHOLD < cap
  }

  lemma StaysRoomy(cap: int, was: seq<Sector>, secs: seq<Sector>, m: map<Name, Value>, names: set<Name>, size: nat,
        op: Op, r: Result)
    requires Lean(was) ==> Lean(secs)
    ensures Roomy(cap, was, m, names, size) && Fitting(op, size) ==> Roomy(cap, secs, Apply(m, op, r), names, size)
  {
    hide Lean;
    if Small(m, size) {
      match op {
        case Set(key, value) => SmallAfterSet(m, key, value, size);
        case Delete(key) => SmallAfterSet(m, key, [], size);
      }
    }
  }

  /** In a roomy store the live data leave room for one more record. */
  lemma RoomyHasRoom(db: Db, m: map<Name, Value>, names: set<Name>, size: nat)
    requires db.Valid() && db.Contents() == m && m.Keys <= names
    ensures Roomy(db.cap, db.secs, m, names, size) ==>
              Lean(db.secs) && LiveTotal(db.secs) + size + THRESHOLD < db.cap
  {
    hide SectorsOk, Index, Distinct, Points, OneEach, Mirrors, Empties, Tidy, Lean, Small, LiveTotal;
    if Roomy(db.cap, db.secs, m, names, size) {
      hide MapOf;
      SmallMapLeavesRoom(db.cap, db.secs, db.at, names, size);
    }
  }

  method Step(db: Db, op: Op, ghost names: set<Name>, ghost size: nat) returns (r: Result)
    requires db.Valid() && Apart(db.hash, names) && db.Contents().Keys <= names
    requires op.key in names && |op.key| != NAME_MAX
    modifies db
    ensures db.Valid() && db.Contents() == Apply(old(db.Contents()), op, r) && Reports(old(db.Contents()), op, r)
    ensures db.Contents().Keys <= names
    ensures old(db.trace) <= db.trace
            && AllHoldEither(db.cap, db.trace, |old(db.trace)|, old(db.Contents()), db.Contents())
    ensures old(Roomy(db.cap, db.secs, db.Contents(), names, size)) && Fitting(op, size) ==>
              r != SavedFull && Roomy(db.cap, db.secs, db.Contents(), names, size)
  {
    hide SectorsOk, Index, Distinct, Points, OneEach, Mirrors, MapOf, Empties, Tidy, Apart, AllHold, AllHoldEither,
         Unmistakable, Candidate, SetBase, SetTrace, Remembers, Replaced, Roomy, Lean, LiveTotal, FoundAsSaid, NoneFits,
         FirstDirty, FirstChoice, LiveSize, NoneLive;
    ghost var m, was := db.Contents(), db.secs;
    RoomyHasRoom(db, m, names, size);
    ApartIsUnmistakable(db.hash, names, m, op.key);
    match op {
      case Set(key, value) =>
        var q, _, _, _, _, _ := db.SetKv(key, value);
        r := q;
        NotIndexedNow(m, key, value);
      case Delete(key) =>
        var q, _ := db.DeleteKv(key);
        r := q;
        OneOfTwo(db.cap, db.trace, |old(db.trace)|, m, db.Contents());
    }
    StaysRoomy(db.cap, was, db.secs, m, names, size, op, r);
  }

  /** The flash holds the map after some of the operations. */
  ghost predicate HoldsSome(cap: int, flash: seq<Sector>, m: map<Name, Value>, ops: seq<Op>, rs: seq<Result>)
    requires |ops| == |rs|
  {
    exists n :: 0 <= n <= |ops| && StandsFor(cap, flash, ApplyAll(m, ops[..n], rs[..n]))
  }

  lemma HoldsSomeMore(cap: int, flash: seq<Sector>, m: map<Name, Value>, ops: seq<Op>, rs: seq<Result>, n: nat)
    requires |ops| == |rs| && n <= |ops|
    ensures HoldsSome(cap, flash, m, ops[..n], rs[..n]) ==> HoldsSome(cap, flash, m, ops, rs)
    ensures StandsFor(cap, flash, ApplyAll(m, ops[..n], rs[..n])) ==> HoldsSome(cap, flash, m, ops, rs)
  {
    hide StandsFor, ApplyAll;
    if HoldsSome(cap, flash, m, ops[..n], rs[..n]) {
      var k :| 0 <= k <= n && StandsFor(cap, flash, ApplyAll(m, ops[..n][..k], rs[..n][..k]));
      assert ops[..n][..k] == ops[..k] && rs[..n][..k] == rs[..k];
    }
  }

  /** One more operation, whose flash states hold the map before or the map afterwards. */
  lemma HoldsOn(cap: int, before: seq<seq<Sector>>, trace: seq<seq<Sector>>, from: nat, m: map<Name, Value>,
        ops: seq<Op>, rs: seq<Result>)
    requires |ops| == |rs| > 0 && from <= |before| && before <= trace
    requires forall j | from <= j < |before| :: HoldsSome(cap, before[j], m, ops[..|ops| - 1], rs[..|ops| - 1])
    requires AllHoldEither(cap, trace, |before|, ApplyAll(m, ops[..|ops| - 1], rs[..|ops| - 1]), ApplyAll(m, ops, rs))
    ensures forall j | from <= j < |trace| :: HoldsSome(cap, trace[j], m, ops, rs)
  {
    hide StandsFor, ApplyAll, HoldsSome;
    var n := |ops|;
    assert ops[..n] == ops && rs[..n] == rs;
    forall j | from <= j < |trace| ensures HoldsSome(cap, trace[j], m, ops, rs) {
      HoldsSomeMore(cap, trace[j], m, ops, rs, n - 1);
      HoldsSomeMore(cap, trace[j], m, ops, rs, n);
    }
  }

  /** Every run without faults refines a map: each set that succeeds sets its key, one that finds no room changes
      nothing, each delete removes its key and reports whether it was there. And whenever power goes, the flash holds
      the map after some of the operations. A roomy store never reports that it is full, however long the run. */
  method Run(db: Db, ops: seq<Op>, ghost names: set<Name>, ghost size: nat) returns (rs: seq<Result>)
    requires db.Valid() && Apart(db.hash, names) && db.Contents().Keys <= names
    requires forall i | 0 <= i < |ops| :: ops[i].key in names && |ops[i].key| != NAME_MAX
    modifies db
    ensures |rs| == |ops| && db.Valid() && db.Contents() == ApplyAll(old(db.Contents()), ops, rs)
    ensures AllReport(old(db.Contents()), ops, rs)
    ensures |old(db.trace)| <= |db.trace|
    ensures forall j | |old(db.trace)| <= j < |db.trace| :: HoldsSome(db.cap, db.trace[j], old(db.Contents()), ops, rs)
    ensures old(Roomy(db.cap, db.secs, db.Contents(), names, size))
            && (forall i | 0 <= i < |ops| :: Fitting(ops[i], size)) ==>
              forall i | 0 <= i < |rs| :: rs[i] != SavedFull
  {
    hide SectorsOk, Index, Distinct, Points, OneEach, Mirrors, MapOf, Empties, Tidy, Apart, AllHoldEither, HoldsSome,
         Apply, Reports, Roomy, Fitting;
    rs := [];
    ghost var m0, from := db.Contents(), |db.trace|;
    for i := 0 to |ops|
      invariant |rs| == i && db.Valid() && db.Contents() == ApplyAll(m0, ops[..i], rs) && db.Contents().Keys <= names
      invariant AllReport(m0, ops[..i], rs) && from <= |db.trace|
      invariant forall j | from <= j < |db.trace| :: HoldsSome(db.cap, db.trace[j], m0, ops[..i], rs)
      invariant old(Roomy(db.cap, db.secs, db.Contents(), names, size))
                && (forall k | 0 <= k < |ops| :: Fitting(ops[k], size)) ==>
                  && Roomy(db.cap, db.secs, db.Contents(), names, size)
                  && forall k | 0 <= k < i :: rs[k] != SavedFull
    {
      ghost var before := db.trace;
      var r := Step(db, ops[i], names, size);
      assert ops[..i + 1][..i] == ops[..i] && (rs + [r])[..i] == rs;
      rs := rs + [r];
      HoldsOn(db.cap, before, db.trace, from, m0, ops[..i + 1], rs);
    }
    assert ops[..|ops|] == ops;
  }
}
