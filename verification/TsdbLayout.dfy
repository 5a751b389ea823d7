/** How the time-series database lays a sector out in flash: a header, index entries growing up
    from it and log data growing down from the end of the sector. */
module TsdbLayout {
  import opened Bytes
  import opened StatusTable
  import opened FlashDevice

  const HDR: nat := 40
  const IDX: nat := 16
  const MAGIC: nat := 0x304C5354
  const FAILED: nat := 0xFFFF_FFFF

  // sector store status
  const STORE_NUM: nat := 4
  const EMPTY: nat := 1
  const USING: nat := 2
  const FULL: nat := 3

  // log entry status
  const TSL_NUM: nat := 6
  const UNUSED: nat := 0
  const PRE_WRITE: nat := 1
  const WRITE: nat := 2

  /** What a caller appended. */
  datatype Record = Record(time: int, blob: seq<byte>)

  /** What the database keeps of it: the record and its status, WRITE until a user raises it. */
  datatype Entry = Entry(rec: Record, status: nat)

  datatype Sector = Sector(store: nat, start: int, entries: seq<Entry>)

  const EMPTY_SECTOR: Sector := Sector(EMPTY, 0, [])

  /** The log object handed to callbacks. */
  datatype Tsl = Tsl(status: nat, time: int, logLen: nat, index: nat, log: nat)

  /** The in-RAM sector description. */
  datatype SecInfo = SecInfo(checkOk: bool, status: nat, addr: nat, startTime: int, endTime: int, endIdx: nat,
                             endStat0: nat, endStat1: nat, remain: nat, emptyIdx: nat, emptyData: nat)

  function Word(mem: seq<byte>, a: nat): (w: nat)
    requires a + 4 <= |mem|
    ensures w < 0x1_0000_0000
  {
    FromLE32(mem[a], mem[a + 1], mem[a + 2], mem[a + 3])
  }

  function StatusByte(k: nat): byte {
    if k == 0 then ERASED else Mask(k)
  }

  function StatusOf(b: byte, num: nat): nat
    requires 0 < num <= 8
  {
    Decode([b], num)
  }

  lemma StatusByteDecodes(num: nat, k: nat)
    requires k < num <= 8
    ensures StatusOf(StatusByte(k), num) == k
  {
    hide Decode, Advance, Blank, StatusByte, Mask;
    RoundTripExactly(num, k);
    OneByteTable(num, k);
  }

  lemma OneByteTable(num: nat, k: nat)
    requires k < num <= 8
    ensures [StatusByte(k)] == Advance(Blank(num), k)
  {
    if k > 0 {
      assert (k - 1) / 8 == 0;
      AndErased(Mask(k));
    }
  }

  lemma MaskValue(k: nat)
    requires 0 < k < 8
    ensures Mask(k) == Pow2(8 - k) - 1
  {
  }

  lemma MasksCombine(i: nat, j: nat)
    requires 0 < i <= j < 8
    ensures And(Mask(i), Mask(j)) == Mask(j) && And(Mask(j), Mask(i)) == Mask(j)
  {
    hide And, Pow2, Mask;
    MaskValue(i);
    MaskValue(j);
    OnesCombine(8 - i, 8 - j);
  }

  lemma OnesCombine(a: nat, b: nat)
    requires b <= a
    ensures And(Pow2(a) - 1, Pow2(b) - 1) == Pow2(b) - 1 && And(Pow2(b) - 1, Pow2(a) - 1) == Pow2(b) - 1
  {
    hide And, Pow2;
    Pow2Monotone(b, a);
    AndOnes(a, Pow2(b) - 1);
    AndCommutes(Pow2(a) - 1, Pow2(b) - 1);
  }

  lemma {:induction false} Pow2Monotone(a: nat, b: nat)
    requires a <= b
    ensures Pow2(a) <= Pow2(b)
    decreases b
  {
    if a < b { Pow2Monotone(a, b - 1); }
  }

  function Size(es: seq<Entry>): nat {
    if es == [] then 0 else Size(es[..|es| - 1]) + |es[|es| - 1].rec.blob|
  }

  lemma {:induction false} SizePrefix(es: seq<Entry>, j: nat)
    requires j <= |es|
    ensures Size(es[..j]) <= Size(es)
    decreases |es|
  {
    if j == |es| {
      assert es[..j] == es;
    } else {
      SizePrefix(es[..|es| - 1], j);
      assert es[..|es| - 1][..j] == es[..j];
    }
  }

  lemma SizeStep(es: seq<Entry>, j: nat)
    requires j < |es|
    ensures Size(es[..j + 1]) == Size(es[..j]) + |es[j].rec.blob|
    ensures Size(es[..j + 1]) <= Size(es)
  {
    assert es[..j + 1][..j] == es[..j];
    SizePrefix(es, j + 1);
  }

  lemma SizeAppend(es: seq<Entry>, e: Entry)
    ensures Size(es + [e]) == Size(es) + |e.rec.blob|
    ensures forall j | 0 <= j <= |es| :: (es + [e])[..j] == es[..j]
  {
    assert (es + [e])[..|es|] == es;
    forall j | 0 <= j <= |es| ensures (es + [e])[..j] == es[..j] {}
  }

  /** Bytes taken by the header, the index entries and the data. */
  function Used(es: seq<Entry>): nat {
    HDR + IDX * |es| + Size(es)
  }

  function IndexAddr(base: nat, j: nat): nat { base + HDR + IDX * j }

  function LogAddr(base: nat, size: nat, es: seq<Entry>, j: nat): nat
    requires j < |es| && Used(es) <= size
  {
    SizeStep(es, j);
    base + size - Size(es[..j + 1])
  }

  function TslOf(base: nat, size: nat, es: seq<Entry>, j: nat): Tsl
    requires j < |es| && Used(es) <= size
  {
    Tsl(es[j].status, es[j].rec.time, |es[j].rec.blob|, IndexAddr(base, j), LogAddr(base, size, es, j))
  }

  /** What read_tsl makes of the sixteen bytes at a. */
  function TslAt(mem: seq<byte>, a: nat, maxLen: nat): Tsl
    requires a + IDX <= |mem|
  {
    var st := StatusOf(mem[a], TSL_NUM);
    if st == PRE_WRITE || st == UNUSED then Tsl(st, 0, maxLen, a, FAILED)
    else Tsl(st, Int32(Word(mem, a + 4)), Word(mem, a + 8), a, Word(mem, a + 12))
  }

  predicate GoodTime(t: int) { 0 < t < 0x8000_0000 }

  predicate GoodEntry(e: Entry) {
    GoodTime(e.rec.time) && WRITE <= e.status < TSL_NUM
  }

  ghost predicate EntryAt(mem: seq<byte>, base: nat, size: nat, es: seq<Entry>, j: nat)
    requires j < |es| && Used(es) <= size && base + size <= |mem|
  {
    var a, d, e := IndexAddr(base, j), LogAddr(base, size, es, j), es[j];
    SizeStep(es, j);
    && GoodEntry(e)
    && mem[a] == StatusByte(e.status)
    && Word(mem, a + 4) == e.rec.time
    && Word(mem, a + 8) == |e.rec.blob|
    && Word(mem, a + 12) == d
    && mem[d..d + |e.rec.blob|] == e.rec.blob
  }

  ghost predicate EntriesHold(mem: seq<byte>, base: nat, size: nat, es: seq<Entry>)
    requires base + size <= |mem|
  {
    && Used(es) <= size
    && (forall j | 0 <= j < |es| :: EntryAt(mem, base, size, es, j))
    && Clean(mem, IndexAddr(base, |es|), base + size - Size(es))
  }

  ghost predicate HeaderHolds(mem: seq<byte>, base: nat, size: nat, sec: Sector)
    requires base + size <= |mem| && HDR <= size
  {
    && mem[base] == StatusByte(sec.store)
    && Word(mem, base + 4) == MAGIC
    && (if sec.store == EMPTY then Clean(mem, base + 8, base + 12)
        else GoodTime(sec.start) && Word(mem, base + 8) == sec.start)
    && (if sec.store == FULL then
          && sec.entries != []
          && mem[base + 20] == StatusByte(WRITE)
          && Word(mem, base + 12) == sec.entries[|sec.entries| - 1].rec.time
          && Word(mem, base + 16) == IndexAddr(base, |sec.entries| - 1)
        else Clean(mem, base + 12, base + 21))
    && mem[base + 32] == ERASED
  }

  /** The sector's bytes are exactly a layout of `sec`. */
  ghost predicate Holds(mem: seq<byte>, base: nat, size: nat, sec: Sector) {
    && HDR <= size && base + size <= |mem|
    && EMPTY <= sec.store <= FULL
    && (sec.store == EMPTY ==> sec.entries == [])
    && HeaderHolds(mem, base, size, sec)
    && EntriesHold(mem, base, size, sec.entries)
  }

  /** The index region ends before the data region starts, and every entry's data lies inside the latter. */
  lemma RegionsDisjoint(mem: seq<byte>, base: nat, size: nat, sec: Sector, i: nat, j: nat)
    requires Holds(mem, base, size, sec) && i < |sec.entries| && j < |sec.entries|
    ensures IndexAddr(base, i) + IDX <= IndexAddr(base, |sec.entries|) <= base + size - Size(sec.entries)
    ensures base + size - Size(sec.entries) <= LogAddr(base, size, sec.entries, j)
    ensures LogAddr(base, size, sec.entries, j) + |sec.entries[j].rec.blob| <= base + size
    ensures var len := |sec.entries[j].rec.blob|;
            i < j ==> LogAddr(base, size, sec.entries, j) + len <= LogAddr(base, size, sec.entries, i)
  {
    SizeStep(sec.entries, j);
    SizeStep(sec.entries, i);
    if i < j {
      SizePrefix(sec.entries[..j], i + 1);
      assert sec.entries[..j][..i + 1] == sec.entries[..i + 1];
    }
  }

  /** A retained entry reads back exactly as it was appended, time and data. */
  lemma EntryReadsBack(mem: seq<byte>, base: nat, size: nat, sec: Sector, j: nat, maxLen: nat)
    requires Holds(mem, base, size, sec) && j < |sec.entries|
    ensures IndexAddr(base, j) + IDX <= |mem|
    ensures TslAt(mem, IndexAddr(base, j), maxLen) == TslOf(base, size, sec.entries, j)
    ensures var t, e := TslAt(mem, IndexAddr(base, j), maxLen), sec.entries[j];
            t.status == e.status && t.time == e.rec.time && t.logLen == |e.rec.blob|
    ensures var t := TslOf(base, size, sec.entries, j);
            t.log + t.logLen <= |mem| && mem[t.log..t.log + t.logLen] == sec.entries[j].rec.blob
  {
    RegionsDisjoint(mem, base, size, sec, j, j);
    assert EntryAt(mem, base, size, sec.entries, j);
    StatusByteDecodes(TSL_NUM, sec.entries[j].status);
  }

  /** A little-endian word. */
  ghost predicate WordIs(mem: seq<byte>, a: nat, w: int) {
    && a + 4 <= |mem|
    && mem[a] + 0x100 * mem[a + 1] as int + 0x1_0000 * mem[a + 2] as int + 0x100_0000 * mem[a + 3] as int == w
  }

  /** The layout in numbers: status, "TSL0" and start time in the header, closed sectors with the time and the address
      of their last entry; sixteen bytes for each entry behind the forty of the header, and its data in front of those
      of the entries before. */
  lemma LayoutInBytes(mem: seq<byte>, base: nat, size: nat, sec: Sector, j: nat)
    requires Holds(mem, base, size, sec) && j < |sec.entries|
    ensures base + size <= |mem| && 40 + 16 * |sec.entries| + Size(sec.entries) <= size
    ensures mem[base + 4..base + 8] == [0x54, 0x53, 0x4C, 0x30] && WordIs(mem, base + 8, sec.start)
    ensures mem[base] == if sec.store == USING then 0x3F else 0x1F
    ensures var e, a := sec.entries[j], base + 40 + 16 * j;
            var d := base + size - Size(sec.entries[..j]) - |e.rec.blob|;
            && WordIs(mem, a + 4, e.rec.time) && WordIs(mem, a + 8, |e.rec.blob|) && WordIs(mem, a + 12, d)
            && 0 <= d && d + |e.rec.blob| <= |mem| && mem[d..d + |e.rec.blob|] == e.rec.blob
    ensures sec.store == FULL ==>
              && mem[base + 20] == 0x3F
              && WordIs(mem, base + 12, sec.entries[|sec.entries| - 1].rec.time)
              && WordIs(mem, base + 16, base + 40 + 16 * (|sec.entries| - 1))
  {
    hide Size, StatusByte;
    RegionsDisjoint(mem, base, size, sec, j, j);
    assert EntryAt(mem, base, size, sec.entries, j);
    SizeStep(sec.entries, j);
    StatusBytes();
    MagicBytes(mem, base + 4);
  }

  lemma MagicBytes(mem: seq<byte>, a: nat)
    requires a + 4 <= |mem| && Word(mem, a) == MAGIC
    ensures mem[a..a + 4] == [0x54, 0x53, 0x4C, 0x30]
  {
    var b0, b1, b2, b3 := mem[a], mem[a + 1], mem[a + 2], mem[a + 3];
    assert b3 == 0x30 && b2 == 0x4C && b1 == 0x53 && b0 == 0x54;
  }

  lemma StatusBytes()
    ensures StatusByte(USING) == 0x3F && StatusByte(FULL) == 0x1F && StatusByte(WRITE) == 0x3F
  {
    MaskValue(2);
    MaskValue(3);
    assert Pow2(5) == 32 && Pow2(6) == 64;
  }

  ghost predicate SameOn(mem: seq<byte>, mem': seq<byte>, lo: int, hi: int) {
    |mem'| == |mem| && forall i | 0 <= lo <= i < hi && i < |mem| :: mem'[i] == mem[i]
  }

  lemma EntryFrame(mem: seq<byte>, mem': seq<byte>, base: nat, size: nat, es: seq<Entry>, j: nat)
    requires j < |es| && Used(es) <= size && base + size <= |mem|
    requires EntryAt(mem, base, size, es, j)
    requires |mem'| == |mem|
    requires SameOn(mem, mem', IndexAddr(base, j), IndexAddr(base, j + 1))
    requires SameOn(mem, mem', base + size - Size(es), base + size)
    ensures EntryAt(mem', base, size, es, j)
  {
    SizeStep(es, j);
    var a, d, e := IndexAddr(base, j), LogAddr(base, size, es, j), es[j];
    assert mem'[d..d + |e.rec.blob|] == mem[d..d + |e.rec.blob|];
  }

  lemma HoldsFrame(mem: seq<byte>, mem': seq<byte>, base: nat, size: nat, sec: Sector)
    requires Holds(mem, base, size, sec)
    requires SameOn(mem, mem', base, base + size)
    ensures Holds(mem', base, size, sec)
  {
    forall j | 0 <= j < |sec.entries| ensures EntryAt(mem', base, size, sec.entries, j) {
      RegionsDisjoint(mem, base, size, sec, j, j);
      EntryFrame(mem, mem', base, size, sec.entries, j);
    }
  }

  /** read_sector_info without traversal, on a well-formed sector. */
  function HeaderInfo(base: nat, size: nat, sec: Sector, prev: SecInfo): SecInfo
    requires HDR <= size && (sec.store == FULL ==> sec.entries != [])
  {
    var full := sec.store == FULL;
    SecInfo(true, sec.store, base, if sec.store == EMPTY then -1 else sec.start,
            if full then sec.entries[|sec.entries| - 1].rec.time else prev.endTime,
            if full then IndexAddr(base, |sec.entries| - 1) else prev.endIdx,
            if full then WRITE else UNUSED, UNUSED,
            size - HDR, base + HDR, base + size)
  }

  /** The description of the sector being written once it has entries: a function of the sector alone. */
  function UsingInfo(base: nat, size: nat, sec: Sector): SecInfo
    requires Used(sec.entries) <= size && sec.entries != []
  {
    SecInfo(true, USING, base, sec.start,
            sec.entries[|sec.entries| - 1].rec.time, IndexAddr(base, |sec.entries| - 1), UNUSED, UNUSED,
            size - Used(sec.entries), IndexAddr(base, |sec.entries|), base + size - Size(sec.entries))
  }
}
