/** The multi-step flash updates of fdb_tsdb.c, one sector at a time. */
module TsdbWrite {
  import opened Bytes
  import opened StatusTable
  import opened FlashDevice
  import opened TsdbLayout

  /** The twelve bytes of an index entry after its status: time, length and data address. */
  function IndexBody(time: int, len: nat, log: nat): (b: seq<byte>)
    requires GoodTime(time) && len < 0x1_0000_0000 && log < 0x1_0000_0000
    ensures |b| == 12
  {
    LE32(time) + LE32(len) + LE32(log)
  }

  lemma WordStored(mem: seq<byte>, a: nat, w: nat)
    requires w < 0x1_0000_0000 && a + 4 <= |mem|
    requires forall i | 0 <= i < 4 :: mem[a + i] == LE32(w)[i]
    ensures Word(mem, a) == w
  {
    LE32RoundTrip(w);
    assert mem[a + 0] == LE32(w)[0];
  }

  lemma IndexBodyStored(mem: seq<byte>, a: nat, time: int, len: nat, log: nat)
    requires GoodTime(time) && len < 0x1_0000_0000 && log < 0x1_0000_0000 && a + 12 <= |mem|
    requires forall i | 0 <= i < 12 :: mem[a + i] == IndexBody(time, len, log)[i]
    ensures Word(mem, a) == time && Word(mem, a + 4) == len && Word(mem, a + 8) == log
  {
    var b := IndexBody(time, len, log);
    forall i | 0 <= i < 4 ensures mem[a + i] == LE32(time)[i] { assert mem[a + i] == b[i]; }
    forall i | 0 <= i < 4 ensures mem[a + 4 + i] == LE32(len)[i] { assert mem[a + (4 + i)] == b[4 + i]; }
    forall i | 0 <= i < 4 ensures mem[a + 8 + i] == LE32(log)[i] { assert mem[a + (8 + i)] == b[8 + i]; }
    WordStored(mem, a, time);
    WordStored(mem, a + 4, len);
    WordStored(mem, a + 8, log);
  }

  /** Advancing a one-byte status table from one written status to a later one. */
  method AdvanceStatus(flash: Flash, a: nat, num: nat, from: nat, to: nat)
    requires from < to < num <= 8 && a < |flash.mem| && flash.mem[a] == StatusByte(from)
    modifies flash
    ensures flash.mem == old(flash.mem)[a := StatusByte(to)] && flash.exact == old(flash.exact)
  {
    if from == 0 { AndErased(Mask(to)); } else { MasksCombine(from, to); }
    flash.WriteStatusByte(a, num, to);
  }

  method ProgramWord(flash: Flash, a: nat, w: nat)
    requires w < 0x1_0000_0000 && a + 4 <= |flash.mem| && Clean(flash.mem, a, a + 4)
    modifies flash
    ensures SameExcept(old(flash.mem), flash.mem, a, a + 4) && flash.exact == old(flash.exact)
    ensures Word(flash.mem, a) == w
  {
    flash.ProgramFresh(a, LE32(w));
    WordStored(flash.mem, a, w);
  }

  method ProgramIndexBody(flash: Flash, a: nat, time: int, len: nat, log: nat)
    requires GoodTime(time) && len < 0x1_0000_0000 && log < 0x1_0000_0000
    requires a + 12 <= |flash.mem| && Clean(flash.mem, a, a + 12)
    modifies flash
    ensures SameExcept(old(flash.mem), flash.mem, a, a + 12) && flash.exact == old(flash.exact)
    ensures Word(flash.mem, a) == time && Word(flash.mem, a + 4) == len && Word(flash.mem, a + 8) == log
  {
    flash.ProgramFresh(a, IndexBody(time, len, log));
    IndexBodyStored(flash.mem, a, time, len, log);
  }

  predicate SizeOk(sec: Sector, e: Entry, size: nat) {
    HDR + IDX * (|sec.entries| + 1) + Size(sec.entries) + |e.rec.blob| <= size
  }

  /** An index entry at a and its data at d, complete. */
  ghost predicate EntryWritten(mem: seq<byte>, a: nat, d: nat, e: Entry) {
    && a + IDX <= |mem| && d + |e.rec.blob| <= |mem| && GoodEntry(e)
    && mem[a] == StatusByte(e.status)
    && Word(mem, a + 4) == e.rec.time && Word(mem, a + 8) == |e.rec.blob| && Word(mem, a + 12) == d
    && mem[d..d + |e.rec.blob|] == e.rec.blob
  }

  /** Nothing changed but [a, a') and [d, d'). */
  ghost predicate SameExcept2(mem: seq<byte>, mem': seq<byte>, a: nat, a': nat, d: nat, d': nat) {
    |mem'| == |mem| && forall i | 0 <= i < |mem| && !(a <= i < a') && !(d <= i < d') :: mem'[i] == mem[i]
  }

  lemma OldEntryKept(mem: seq<byte>, mem': seq<byte>, base: nat, size: nat, sec: Sector, e: Entry, j: nat)
    requires Holds(mem, base, size, sec) && SizeOk(sec, e, size) && j < |sec.entries|
    requires var a, d := IndexAddr(base, |sec.entries|), base + size - Size(sec.entries) - |e.rec.blob|;
             SameExcept2(mem, mem', a, a + IDX, d, d + |e.rec.blob|)
    ensures Used(sec.entries + [e]) <= size
    ensures EntryAt(mem', base, size, sec.entries + [e], j)
  {
    var es := sec.entries;
    SizeAppend(es, e);
    assert EntryAt(mem, base, size, es, j);
    EntryFrame(mem, mem', base, size, es, j);
    assert (es + [e])[..j + 1] == es[..j + 1];
  }

  lemma NewEntryHolds(mem: seq<byte>, base: nat, size: nat, es: seq<Entry>, e: Entry, a: nat, d: nat)
    requires base + size <= |mem| && es != [] && es[|es| - 1] == e && Used(es) <= size
    requires a == IndexAddr(base, |es| - 1) && d == base + size - Size(es)
    requires EntryWritten(mem, a, d, e)
    ensures EntryAt(mem, base, size, es, |es| - 1)
  {
    assert es[..|es|] == es;
  }

  /** If the free space between the two regions receives one more index entry and its data, and nothing
      else changes, the sector holds one more entry. */
  lemma EntryAdded(mem: seq<byte>, mem': seq<byte>, base: nat, size: nat, sec: Sector, e: Entry)
    requires Holds(mem, base, size, sec) && sec.store == USING && SizeOk(sec, e, size)
    requires var a, d := IndexAddr(base, |sec.entries|), base + size - Size(sec.entries) - |e.rec.blob|;
             EntryWritten(mem', a, d, e) && SameExcept2(mem, mem', a, a + IDX, d, d + |e.rec.blob|)
    ensures Holds(mem', base, size, sec.(entries := sec.entries + [e]))
  {
    var es' := sec.entries + [e];
    SizeAppend(sec.entries, e);
    forall j | 0 <= j < |es'| ensures EntryAt(mem', base, size, es', j) {
      if j < |sec.entries| {
        OldEntryKept(mem, mem', base, size, sec, e, j);
      } else {
        NewEntryHolds(mem', base, size, es', e, IndexAddr(base, j), base + size - Size(es'));
      }
    }
    assert EntriesHold(mem', base, size, es');
    HeaderFrame(mem, mem', base, size, sec, sec.(entries := es'));
  }

  lemma HeaderFrame(mem: seq<byte>, mem': seq<byte>, base: nat, size: nat, sec: Sector, sec': Sector)
    requires HDR <= size && base + size <= |mem| && HeaderHolds(mem, base, size, sec)
    requires sec.store != FULL && sec'.store == sec.store && sec'.start == sec.start
    requires SameOn(mem, mem', base, base + HDR)
    ensures HeaderHolds(mem', base, size, sec')
  {
  }

  /** write_tsl: index status, index body, data, index status again. */
  method WriteTsl(flash: Flash, base: nat, size: nat, ghost sec: Sector, emptyIdx: nat, emptyData: nat,
                  blob: seq<byte>, time: int)
    requires Holds(flash.mem, base, size, sec) && sec.store == USING
    requires |flash.mem| < 0x8000_0000 && GoodTime(time)
    requires emptyIdx == IndexAddr(base, |sec.entries|) && emptyData == base + size - Size(sec.entries)
    requires SizeOk(sec, Entry(Record(time, blob), WRITE), size)
    modifies flash
    ensures Holds(flash.mem, base, size, sec.(entries := sec.entries + [Entry(Record(time, blob), WRITE)]))
    ensures SameExcept(old(flash.mem), flash.mem, base, base + size)
    ensures flash.exact == old(flash.exact)
  {
    WriteEntry(flash, emptyIdx, emptyData - |blob|, blob, time);
    EntryAdded(old(flash.mem), flash.mem, base, size, sec, Entry(Record(time, blob), WRITE));
  }

  /** The four programs of write_tsl, at an index address and a data address that are both still erased. */
  method WriteEntry(flash: Flash, a: nat, d: nat, blob: seq<byte>, time: int)
    requires a + IDX <= d && d + |blob| <= |flash.mem| < 0x8000_0000 && GoodTime(time)
    requires Clean(flash.mem, a, a + IDX) && Clean(flash.mem, d, d + |blob|)
    modifies flash
    ensures EntryWritten(flash.mem, a, d, Entry(Record(time, blob), WRITE))
    ensures SameExcept2(old(flash.mem), flash.mem, a, a + IDX, d, d + |blob|)
    ensures flash.exact == old(flash.exact)
  {
    AdvanceStatus(flash, a, TSL_NUM, UNUSED, PRE_WRITE);
    ProgramIndexBody(flash, a + 4, time, |blob|, d);
    flash.ProgramFresh(d, blob);
    AdvanceStatus(flash, a, TSL_NUM, PRE_WRITE, WRITE);
    assert flash.mem[d..d + |blob|] == blob;
  }

  /** Saving the last entry's time and index in the header and marking the sector full. */
  method CloseSector(flash: Flash, base: nat, size: nat, ghost sec: Sector, lastTime: int, endIndex: nat)
    requires Holds(flash.mem, base, size, sec) && sec.store == USING && sec.entries != []
    requires |flash.mem| < 0x8000_0000
    requires lastTime == sec.entries[|sec.entries| - 1].rec.time && endIndex == IndexAddr(base, |sec.entries| - 1)
    modifies flash
    ensures Holds(flash.mem, base, size, sec.(store := FULL))
    ensures SameExcept(old(flash.mem), flash.mem, base, base + size)
    ensures flash.exact == old(flash.exact)
  {
    assert GoodTime(lastTime) by { assert EntryAt(flash.mem, base, size, sec.entries, |sec.entries| - 1); }
    CloseHeader(flash, base, lastTime, endIndex);
    EntriesFrame(old(flash.mem), flash.mem, base, size, sec.entries);
  }

  method CloseHeader(flash: Flash, base: nat, lastTime: int, endIndex: nat)
    requires base + HDR <= |flash.mem| && GoodTime(lastTime) && endIndex < 0x8000_0000
    requires flash.mem[base] == StatusByte(USING) && Clean(flash.mem, base + 12, base + 21)
    modifies flash
    ensures |flash.mem| == old(|flash.mem|)
    ensures flash.mem[base] == StatusByte(FULL) && flash.mem[base + 20] == StatusByte(WRITE)
    ensures Word(flash.mem, base + 12) == lastTime && Word(flash.mem, base + 16) == endIndex
    ensures SameExcept2(old(flash.mem), flash.mem, base, base + 1, base + 12, base + 21)
    ensures flash.exact == old(flash.exact)
  {
    WriteEndInfo(flash, base, lastTime, endIndex);
    AdvanceStatus(flash, base, STORE_NUM, USING, FULL);
  }

  method WriteEndInfo(flash: Flash, base: nat, lastTime: int, endIndex: nat)
    requires base + HDR <= |flash.mem| && GoodTime(lastTime) && endIndex < 0x8000_0000
    requires Clean(flash.mem, base + 12, base + 21)
    modifies flash
    ensures SameExcept(old(flash.mem), flash.mem, base + 12, base + 21)
    ensures flash.mem[base + 20] == StatusByte(WRITE)
    ensures Word(flash.mem, base + 12) == lastTime && Word(flash.mem, base + 16) == endIndex
    ensures flash.exact == old(flash.exact)
  {
    AdvanceStatus(flash, base + 20, TSL_NUM, UNUSED, PRE_WRITE);
    ProgramWord(flash, base + 12, lastTime);
    ProgramWord(flash, base + 16, endIndex);
    AdvanceStatus(flash, base + 20, TSL_NUM, PRE_WRITE, WRITE);
  }

  lemma EntriesFrame(mem: seq<byte>, mem': seq<byte>, base: nat, size: nat, es: seq<Entry>)
    requires base + size <= |mem| && EntriesHold(mem, base, size, es)
    requires |mem'| == |mem| && SameOn(mem, mem', base + HDR, base + size)
    ensures EntriesHold(mem', base, size, es)
  {
    forall j | 0 <= j < |es| ensures EntryAt(mem', base, size, es, j) {
      SizePrefix(es, 0);
      EntryFrame(mem, mem', base, size, es, j);
    }
  }

  /** format_sector. */
  method FormatSector(flash: Flash, base: nat, size: nat)
    requires HDR <= size && base + size <= |flash.mem|
    modifies flash
    ensures Holds(flash.mem, base, size, EMPTY_SECTOR)
    ensures SameExcept(old(flash.mem), flash.mem, base, base + size)
    ensures flash.exact == old(flash.exact)
  {
    flash.Erase(base, size);
    AdvanceStatus(flash, base, STORE_NUM, UNUSED, EMPTY);
    ProgramWord(flash, base + 4, MAGIC);
  }

  /** Taking an empty sector into use and saving its start time. */
  method StartSector(flash: Flash, base: nat, size: nat, time: int)
    requires Holds(flash.mem, base, size, EMPTY_SECTOR) && GoodTime(time)
    modifies flash
    ensures Holds(flash.mem, base, size, Sector(USING, time, []))
    ensures SameExcept(old(flash.mem), flash.mem, base, base + size)
    ensures flash.exact == old(flash.exact)
  {
    AdvanceStatus(flash, base, STORE_NUM, EMPTY, USING);
    ProgramWord(flash, base + 8, time);
  }
}
