/** The two RAM tables of the key-value store, and what it means for them to agree with the flash. */
module KvdbTables {
  import opened KvdbStore

  const MAX_ACTIVE: nat := 0xFFFF

  type Activity = n: nat | n <= MAX_ACTIVE

  // kv_cache_node: the upper half of the name's CRC, an activity count and the record's address.
  datatype Entry = Entry(addr: Option<Loc>, crc: nat, active: Activity)

  // kvdb_sec_info. `known` is false while the end of the sector has not been looked for yet.
  datatype SecInfo = SecInfo(addr: nat, store: Store, dirty: Dirty, known: bool, remain: int)

  datatype Slot = Unused | Holds(info: SecInfo)

  // An entry of the sector table as a start finds it: marked as unused, all zero because the handle has never been
  // used, or left by an earlier use. A zeroed entry is one of sector 0, with no status and no size.
  datatype Found = Blank | Zeroed | Left(info: SecInfo)

  /** The table has a permitted size, and an active entry is the first one with its CRC: the one that every search by
      CRC finds. */
  ghost predicate Distinct(table: seq<Entry>) {
    |table| <= MAX_ACTIVE && forall i, j | 0 <= i < j < |table| && table[j].addr.Some? :: table[i].crc != table[j].crc
  }

  /** Every active entry points at the live record of a name with its CRC, except where a name is being moved. */
  ghost predicate Points(table: seq<Entry>, hash: Name -> nat, secs: seq<Sector>, stale: int) {
    forall i | 0 <= i < |table| && table[i].addr.Some? && table[i].crc != stale ::
      Live(secs, table[i].addr.value) && hash(Get(secs, table[i].addr.value).name) == table[i].crc
  }

  /** The effect of storing an address for a CRC, or forgetting it: what other entries say is at most forgotten. */
  ghost predicate Stored(was: seq<Entry>, now: seq<Entry>, crc: nat, addr: Option<Loc>) {
    && |now| == |was|
    && forall i | 0 <= i < |now| && now[i].addr.Some? ::
         if now[i].crc == crc then now[i].addr == addr else now[i].addr == was[i].addr && now[i].crc == was[i].crc
  }

  /** The table has an entry that leads from this CRC to this record. */
  ghost predicate Remembers(table: seq<Entry>, crc: nat, l: Loc) {
    exists i :: 0 <= i < |table| && table[i] == Entry(Some(l), crc, table[i].active)
  }

  /** Where a search by CRC stops: the first entry with it, active or not, or the end. */
  ghost predicate FirstWith(table: seq<Entry>, crc: nat, i: nat) {
    && i <= |table| && (i < |table| ==> table[i].crc == crc)
    && forall j | 0 <= j < i :: table[j].crc != crc
  }

  /** Being passed over by a search costs an active entry one point. */
  function Aged(table: seq<Entry>, n: nat): (r: seq<Entry>)
    ensures |r| == |table|
  {
    seq(|table|, j requires 0 <= j < |table| =>
      if j < n && table[j].addr != None && table[j].active > 0 then table[j].(active := table[j].active - 1)
      else table[j])
  }

  /** The entry that gives way: the first inactive one, or else the first of the least active. */
  ghost predicate GivesWay(table: seq<Entry>, v: nat) {
    && v < |table|
    && if table[v].addr == None then forall j | 0 <= j < v :: table[j].addr != None
       else forall j | 0 <= j < |table| ::
           table[j].addr != None && table[v].active <= table[j].active
             && (j < v ==> table[v].active < table[j].active)
  }

  /** What storing an address for a CRC, or forgetting it, makes of the table; `slot` is the entry concerned. */
  ghost predicate Updated(was: seq<Entry>, now: seq<Entry>, crc: nat, addr: Option<Loc>, slot: nat) {
    if slot < |was| && FirstWith(was, crc, slot) then
      now == if addr == None then was[slot := was[slot].(addr := None, active := 0)]
             else Aged(was, slot)[slot := was[slot].(addr := addr)]
    else
      && FirstWith(was, crc, |was|)
      && if addr == None || was == [] then now == was
         else && GivesWay(Aged(was, |was|), slot) && |was| <= MAX_ACTIVE
              && now == Aged(was, |was|)[slot := Entry(addr, crc, |was|)]
  }

  /** The search found entry i for this CRC and address, which makes it more active by the size of the table. */
  ghost predicate Hits(was: seq<Entry>, now: seq<Entry>, crc: nat, addr: Option<Loc>, i: nat) {
    && i < |was| && was[i].addr == addr && was[i].crc == crc
    && var n := was[i].active + |was|;
       now == was[i := was[i].(active := if n >= MAX_ACTIVE then MAX_ACTIVE else n)]
  }

  lemma StillRemembered(was: seq<Entry>, now: seq<Entry>, crc: nat, addr: Option<Loc>)
    requires addr.Some? && exists i :: 0 <= i < |was| && Hits(was, now, crc, addr, i)
    ensures Remembers(now, crc, addr.value)
    ensures exists i :: 0 <= i < |now| && now[i].addr == addr
  {
    var i :| 0 <= i < |was| && Hits(was, now, crc, addr, i);
    assert now[i] == Entry(addr, crc, now[i].active);
  }

  /** What every other entry says is kept or forgotten, and the new address is found from then on. */
  lemma UpdatedStores(was: seq<Entry>, now: seq<Entry>, crc: nat, addr: Option<Loc>, slot: nat)
    requires Distinct(was) && Updated(was, now, crc, addr, slot)
    ensures Distinct(now) && Stored(was, now, crc, addr)
    ensures addr.Some? && was != [] ==> Remembers(now, crc, addr.value)
  {
    if addr.Some? && was != [] {
      assert now[slot] == Entry(addr, crc, now[slot].active);
    }
  }

  lemma TableSize(table: seq<Entry>)
    requires Distinct(table)
    ensures |table| <= MAX_ACTIVE
  {
  }

  lemma FoundThere(was: seq<Entry>, now: seq<Entry>, crc: nat, addr: Option<Loc>, i: nat)
    requires Distinct(was) && i < |was| && was[i].crc == crc && forall j | 0 <= j < i :: was[j].crc != crc
    requires now == if addr == None then was[i := was[i].(addr := None, active := 0)]
             else Aged(was, i)[i := was[i].(addr := addr)]
    ensures Updated(was, now, crc, addr, i) && Distinct(now) && Stored(was, now, crc, addr)
    ensures addr.Some? ==> Remembers(now, crc, addr.value)
  {
    UpdatedStores(was, now, crc, addr, i);
  }

  lemma NotFound(was: seq<Entry>, now: seq<Entry>, crc: nat, addr: Option<Loc>, slot: nat)
    requires Distinct(was) && forall j | 0 <= j < |was| :: was[j].crc != crc
    requires addr == None || was == [] ==> now == was
    requires addr.Some? && was != [] ==> slot < |was| && GivesWay(Aged(was, |was|), slot)
                                         && now == Aged(was, |was|)[slot := Entry(addr, crc, |was|)]
    ensures Updated(was, now, crc, addr, slot) && Distinct(now) && Stored(was, now, crc, addr)
    ensures addr.Some? && was != [] ==> Remembers(now, crc, addr.value)
  {
    UpdatedStores(was, now, crc, addr, slot);
  }

  ghost predicate OneEach(slots: seq<Slot>) {
    forall i, j | 0 <= i < j < |slots| && slots[i].Holds? && slots[j].Holds? :: slots[i].info.addr != slots[j].info.addr
  }

  /** Every slot repeats what the flash says of its sector; only the mark of the collection that is under way in sector
      cur, if it is one, is not cached. */
  ghost predicate Mirrors(slots: seq<Slot>, cap: int, secs: seq<Sector>, cur: int) {
    forall i | 0 <= i < |slots| && slots[i].Holds? :: Mirror(slots[i].info, cap, secs, cur)
  }

  predicate Mirror(info: SecInfo, cap: int, secs: seq<Sector>, cur: int) {
    && info.addr < |secs|
    && info.store == secs[info.addr].store
    && (info.dirty == secs[info.addr].dirty
        || (info.addr == cur && info.dirty == Dirtied && secs[info.addr].dirty == Collecting))
    && (info.known ==> info.remain == cap - Size(secs[info.addr].recs))
  }

  // ---------- the sector table as a start finds it ----------

  predicate Answers(f: Found, s: nat) {
    match f
    case Blank => false
    case Zeroed => s == 0
    case Left(info) => info.addr == s
  }

  /** The entry that a search for this sector stops at. */
  function FirstFor(found: seq<Found>, s: nat): (f: Option<Found>)
    ensures f.Some? ==> Answers(f.value, s) && f.value in found
    ensures f == None ==> forall e | e in found :: !Answers(e, s)
  {
    if found == [] then None else if Answers(found[0], s) then Some(found[0]) else FirstFor(found[1..], s)
  }

  predicate ZeroFirst(found: seq<Found>) {
    FirstFor(found, 0) == Some(Zeroed)
  }

  /** The sectors as the search for the oldest one sees them: an entry of the table hides the flash. */
  function Seen(found: seq<Found>, secs: seq<Sector>): (r: seq<Sector>)
    ensures |r| == |secs|
  {
    seq(|secs|, s requires 0 <= s < |secs| =>
      match FirstFor(found, s)
      case Some(Left(info)) => secs[s].(store := info.store)
      case _ => secs[s])
  }

  /** check_oldest_addr_cb: where the sectors in use begin behind an empty one. */
  function OldestOf(secs: seq<Sector>, k: nat): (s: nat)
    requires k <= |secs|
    ensures k > 0 ==> s < k
  {
    if k <= 1 then 0
    else if secs[k - 2].store == Empty && secs[k - 1].store == Using then k - 1
    else OldestOf(secs, k - 1)
  }

  /** It is the last place where a sector in use follows an empty one, or 0 if there is none. */
  lemma {:induction false} OldestIs(secs: seq<Sector>, k: nat)
    requires k <= |secs|
    ensures var s := OldestOf(secs, k);
            && (s > 0 ==> s < k && secs[s - 1].store == Empty && secs[s].store == Using)
            && forall j | 0 < j < k && secs[j - 1].store == Empty && secs[j].store == Using :: j <= s
  {
    if k > 1 && !(secs[k - 2].store == Empty && secs[k - 1].store == Using) { OldestIs(secs, k - 1); }
  }

  lemma OldestNext(secs: seq<Sector>, k: nat)
    requires k <= |secs|
    ensures k == 0 ==> OldestOf(secs, k) == 0
    ensures k < |secs| ==>
              OldestOf(secs, k + 1)
              == if k > 0 && secs[k - 1].store == Empty && secs[k].store == Using then k else OldestOf(secs, k)
  {
  }

  lemma SeenAt(found: seq<Found>, secs: seq<Sector>, s: nat)
    requires s < |secs|
    ensures FirstFor(found, s) == Some(Zeroed) ==> s == 0
    ensures Seen(found, secs)[s].store
            == if FirstFor(found, s).Some? && FirstFor(found, s).value.Left? then FirstFor(found, s).value.info.store
               else secs[s].store
  {
  }

  /** The sector that a start takes for the oldest one. Stepping on from a sector without size leads to sector 0 again,
      so that nothing but a zeroed entry is seen. */
  function StartOf(found: seq<Found>, secs: seq<Sector>): (s: nat)
    ensures secs != [] ==> s < |secs|
  {
    if ZeroFirst(found) then 0 else OldestOf(Seen(found, secs), |secs|)
  }

  /** A handle that has never been used starts at sector 0, whatever the flash holds. */
  lemma ColdStart(found: seq<Found>, secs: seq<Sector>)
    requires found != [] && forall f | f in found :: f == Zeroed
    ensures StartOf(found, secs) == 0
  {
    assert found[0] in found && Answers(found[0], 0);
  }

  /** What an earlier use leaves in the table. */
  function LeftBehind(slots: seq<Slot>): (found: seq<Found>)
    ensures |found| == |slots|
  {
    seq(|slots|, i requires 0 <= i < |slots| =>
      match slots[i]
      case Unused => Blank
      case Holds(info) => Left(info))
  }

  /** A handle whose table is unused, or was left by a use of the same flash, starts where the flash says. */
  lemma WarmStart(slots: seq<Slot>, cap: int, secs: seq<Sector>, cur: int)
    requires Mirrors(slots, cap, secs, cur)
    ensures StartOf(LeftBehind(slots), secs) == OldestOf(secs, |secs|)
  {
    var found := LeftBehind(slots);
    forall s | 0 <= s < |secs| ensures Seen(found, secs)[s] == secs[s] {
      var f := FirstFor(found, s);
      if f.Some? {
        var i :| 0 <= i < |found| && found[i] == f.value;
        assert slots[i].Holds?;
      }
    }
    assert Seen(found, secs) == secs;
  }

  /** A slot that a sector's description may go to. */
  predicate FreeFor(slot: Slot, s: nat) {
    slot == Unused || slot.info.addr == s
  }

  /** What one slot update does: the slots of this sector become f, the others stay. */
  ghost predicate Changed(was: seq<Slot>, now: seq<Slot>, s: nat, f: SecInfo -> SecInfo) {
    && |now| == |was|
    && forall i | 0 <= i < |was| ::
         now[i] == if was[i].Holds? && was[i].info.addr == s then Holds(f(was[i].info)) else was[i]
  }

  // ---------- pointers follow the flash ----------

  lemma PointsAfterAppend(table: seq<Entry>, hash: Name -> nat, secs: seq<Sector>, stale: int, s: nat, r: Record)
    requires Points(table, hash, secs, stale) && s < |secs|
    ensures Points(table, hash, Append(secs, s, r), stale)
  {
    forall i | 0 <= i < |table| && table[i].addr.Some? && table[i].crc != stale
      ensures Get(Append(secs, s, r), table[i].addr.value) == Get(secs, table[i].addr.value)
    {
    }
  }

  /** No entry points into the sector. */
  ghost predicate NotInto(table: seq<Entry>, s: nat) {
    forall i | 0 <= i < |table| && table[i].addr.Some? :: table[i].addr.value.s != s
  }

  lemma ForgettingPointsNowhere(was: seq<Entry>, now: seq<Entry>, crc: nat)
    requires Stored(was, now, crc, None)
    ensures forall s: nat | NotInto(was, s) :: NotInto(now, s)
  {
  }

  lemma PointsThere(was: seq<Entry>, now: seq<Entry>, crc: nat, l: Loc)
    requires Stored(was, now, crc, Some(l))
    ensures forall s: nat | s != l.s && NotInto(was, s) :: NotInto(now, s)
  {
  }

  /** Taking a record out of life spoils no entry if none points into its sector. */
  lemma PointsAfterFarKill(table: seq<Entry>, hash: Name -> nat, secs: seq<Sector>, l: Loc, st: Status)
    requires Points(table, hash, secs, -1) && At(secs, l) && NotInto(table, l.s)
    ensures Points(table, hash, Killed(secs, l, st), -1)
  {
    var secs' := Killed(secs, l, st);
    forall i | 0 <= i < |table| && table[i].addr.Some? && At(secs, table[i].addr.value)
      ensures Get(secs', table[i].addr.value) == Get(secs, table[i].addr.value)
    {
    }
  }

  /** Taking a record out of life spoils at most the entry of its own name. */
  lemma PointsAfterKill(table: seq<Entry>, hash: Name -> nat, secs: seq<Sector>, stale: int, l: Loc, st: Status)
    requires Points(table, hash, secs, stale) && At(secs, l)
    requires Live(secs, l) ==> stale < 0 || stale == hash(Get(secs, l).name)
    ensures Points(table, hash, Restatus(secs, l, st), if Live(secs, l) then hash(Get(secs, l).name) else stale)
  {
    var secs' := Restatus(secs, l, st);
    forall i | 0 <= i < |table| && table[i].addr.Some? && table[i].addr.value != l && At(secs, table[i].addr.value)
      ensures Get(secs', table[i].addr.value) == Get(secs, table[i].addr.value)
    {
    }
  }

  lemma PointsAfterDirtying(table: seq<Entry>, hash: Name -> nat, secs: seq<Sector>, stale: int, s: nat, d: Dirty)
    requires Points(table, hash, secs, stale) && s < |secs|
    ensures Points(table, hash, Dirtying(secs, s, d), stale)
  {
    assert forall s' | 0 <= s' < |secs| :: Dirtying(secs, s, d)[s'].recs == secs[s'].recs;
  }

  lemma PointsAfterFormat(table: seq<Entry>, hash: Name -> nat, secs: seq<Sector>, s: nat)
    requires Points(table, hash, secs, -1) && s < |secs| && NoneLive(secs[s])
    ensures Points(table, hash, Formatted(secs, s), -1)
  {
    var secs' := Formatted(secs, s);
    forall i | 0 <= i < |table| && table[i].addr.Some? && table[i].crc != -1
      ensures Live(secs', table[i].addr.value) && Get(secs', table[i].addr.value) == Get(secs, table[i].addr.value)
    {
      assert Live(secs, table[i].addr.value);
      assert table[i].addr.value.s != s;
    }
  }

  /** Storing an address, or forgetting one, makes the entry of that CRC right again. */
  lemma PointsAfterStore(was: seq<Entry>, now: seq<Entry>, hash: Name -> nat, secs: seq<Sector>, crc: nat,
        addr: Option<Loc>)
    requires Points(was, hash, secs, crc) && Stored(was, now, crc, addr)
    requires addr.Some? ==> Live(secs, addr.value) && hash(Get(secs, addr.value).name) == crc
    ensures Points(now, hash, secs, -1)
  {
  }

  // ---------- the sector table follows the flash ----------

  lemma MirrorsAfterAppend(was: seq<Slot>, mid: seq<Slot>, now: seq<Slot>, cap: int, secs: seq<Sector>, cur: int,
        s: nat, r: Record)
    requires Mirrors(was, cap, secs, cur) && s < |secs|
    requires Changed(was, mid, s, (info: SecInfo) => info.(store := Using))
    requires var remain := cap - (Size(secs[s].recs) + Len(r));
             Changed(mid, now, s, (info: SecInfo) => info.(known := true, remain := remain))
    ensures Mirrors(now, cap, Append(secs, s, r), cur)
  {
    SizeOfAppend(secs[s].recs, r);
  }

  lemma MirrorsAfterRestatus(slots: seq<Slot>, cap: int, secs: seq<Sector>, cur: int, l: Loc, st: Status)
    requires Mirrors(slots, cap, secs, cur) && At(secs, l)
    ensures Mirrors(slots, cap, Restatus(secs, l, st), cur)
  {
    SizeOfRestatus(secs[l.s].recs, l.i, st);
  }

  lemma MirrorsAfterDirtied(was: seq<Slot>, now: seq<Slot>, cap: int, secs: seq<Sector>, cur: int, s: nat)
    requires Mirrors(was, cap, secs, cur) && s < |secs|
    requires Changed(was, now, s, (info: SecInfo) => info.(dirty := Dirtied))
    ensures Mirrors(now, cap, Dirtying(secs, s, Dirtied), cur)
  {
  }

  lemma MirrorsAfterWeaker(slots: seq<Slot>, cap: int, secs: seq<Sector>, cur: int)
    requires Mirrors(slots, cap, secs, cur) && cur < 0
    ensures Mirrors(slots, cap, secs, -1)
  {
  }

  lemma MirrorsAfterCollecting(slots: seq<Slot>, cap: int, secs: seq<Sector>, s: nat)
    requires Mirrors(slots, cap, secs, -1) && s < |secs| && secs[s].dirty != Clean
    ensures Mirrors(slots, cap, Dirtying(secs, s, Collecting), s)
  {
  }

  lemma MirrorsAfterFormat(was: seq<Slot>, now: seq<Slot>, cap: int, secs: seq<Sector>, cur: int, s: nat)
    requires Mirrors(was, cap, secs, cur) && (cur < 0 || cur == s) && s < |secs| && |now| == |was|
    requires forall i | 0 <= i < |now| && now[i].Holds? :: now[i] == was[i] && now[i].info.addr != s
    ensures Mirrors(now, cap, Formatted(secs, s), -1)
  {
  }
}
