/** The bytes that records leave in flash, as far as a lookup reads them, and the hash of a name. */
module KvdbImage {
  import opened Bytes
  import opened KvdbStore
  import Crc
  import StatusTable

  /** A byte as the checksum takes it. */
  function Bits(data: seq<byte>): (d: seq<bv8>)
    ensures |d| == |data|
  {
    seq(|data|, i requires 0 <= i < |data| => data[i] as bv8)
  }

  function Upper(c: bv32): nat {
    (c >> 16) as nat
  }

  /** The upper half of the checksum of a name. */
  function NameCrc(name: Name): nat {
    Upper(Crc.Crc32(0, Bits(name)))
  }

  function Erased(n: nat): (e: seq<byte>)
    ensures |e| == n
  {
    seq(n, i => ERASED)
  }

  /** The n low bytes of a number, lowest first. */
  function LowBytes(w: nat, n: nat): (b: seq<byte>)
    ensures |b| == n
  {
    if n == 0 then [] else [w % 0x100] + LowBytes(w / 0x100, n - 1)
  }

  function Number(st: Status): nat {
    match st
    case PreWrite => 1
    case Written => 2
    case PreDelete => 3
    case Deleted => 4
    case ErrHdr => 5
  }

  const MAGIC: nat := 0x3030564B

  /** Name and value length, as the checksum takes them and as the header ends with them. */
  function Lengths(name: Name, value: Value): (b: seq<byte>)
    ensures |b| == 8
  {
    LowBytes(|name|, 1) + Erased(3) + LowBytes(|value|, 4)
  }

  /** kv_hdr_data: the status table with its padding, magic word, length, checksum, and the lengths of the parts. */
  function Header(r: Record): (b: seq<byte>)
    ensures |b| == REC_HDR
  {
    var crc := Crc.Crc32(0, Bits(Lengths(r.name, r.value) + r.name + r.value));
    [StatusTable.Mask(Number(r.status))] + Erased(3) + LowBytes(MAGIC, 4)
    + LowBytes(REC_HDR + |r.name| + |r.value|, 4) + LowBytes(crc as nat, 4) + Lengths(r.name, r.value)
  }

  /** What has been written of a record. Behind a status byte with nothing after it the next record follows at once,
      unless it is the first of its sector, for which the scan reserves a header's place. */
  function Image(r: Record): (b: seq<byte>)
    ensures |b| == Len(r)
  {
    match r.part
    case StatusOnly => [StatusTable.Mask(Number(r.status))]
    case Reserved => [StatusTable.Mask(Number(r.status))] + Erased(REC_HDR - 1)
    case Copied(n) =>
      var all := Header(r) + r.name + r.value;
      if n < |all| then all[..n] + Erased(|all| - n) else all
    case HeaderToo => Header(r) + Erased(|r.name| + |r.value|)
    case NameToo => Header(r) + r.name + Erased(|r.value|)
    case Whole => Header(r) + r.name + r.value
  }

  /** The flash from the i-th record of a sector on. */
  function ImageFrom(recs: seq<Record>, i: nat): seq<byte>
    decreases |recs| - i
  {
    if i >= |recs| then [] else Image(recs[i]) + ImageFrom(recs, i + 1)
  }

  /** What get_kv_from_cache reads to compare a name: the bytes behind the record's header, whatever they belong to,
      and behind the last record the erased flash. */
  function FromName(secs: seq<Sector>, l: Loc): (b: seq<byte>)
    requires At(secs, l)
    ensures |b| == NAME_MAX
  {
    (ImageFrom(secs[l.s].recs, l.i) + Erased(THRESHOLD))[REC_HDR..THRESHOLD]
  }

  lemma {:induction false} ImageFits(recs: seq<Record>, i: nat)
    requires i <= |recs|
    ensures Size(recs[..i]) + |ImageFrom(recs, i)| <= Size(recs)
    decreases |recs| - i
  {
    hide Image, Len;
    if i < |recs| {
      ImageFits(recs, i + 1);
      assert recs[..i + 1][..i] == recs[..i];
    } else {
      assert recs[..i] == recs;
    }
  }

  /** That reading stays in the sector, and what is behind its last record there is erased. */
  lemma ReadEndsInSector(cap: int, recs: seq<Record>, i: nat)
    requires Slack(cap, recs) && i < |recs|
    ensures Size(recs[..i]) + |ImageFrom(recs, i)| + THRESHOLD < cap
  {
    ImageFits(recs, i);
  }

  /** The bytes read begin with the record's own name and value. */
  lemma OwnBytesFirst(secs: seq<Sector>, l: Loc)
    requires At(secs, l) && Get(secs, l).part == Whole
    ensures var own := Get(secs, l).name + Get(secs, l).value;
            forall n | 0 <= n <= |own| && n <= NAME_MAX :: FromName(secs, l)[..n] == own[..n]
  {
    hide Header;
    var r := Get(secs, l);
    var own, rest := r.name + r.value, ImageFrom(secs[l.s].recs, l.i + 1) + Erased(THRESHOLD);
    assert ImageFrom(secs[l.s].recs, l.i) + Erased(THRESHOLD) == Header(r) + (own + rest);
    assert (Header(r) + (own + rest))[REC_HDR..THRESHOLD] == (own + rest)[..NAME_MAX];
    forall n | 0 <= n <= |own| && n <= NAME_MAX ensures FromName(secs, l)[..n] == own[..n] {
      assert (own + rest)[..NAME_MAX][..n] == own[..n];
    }
  }

  /** Behind the last record the bytes read are erased. */
  lemma ErasedBehindLast(secs: seq<Sector>, l: Loc)
    requires At(secs, l) && Get(secs, l).part == Whole && l.i == |secs[l.s].recs| - 1
    ensures var own := Get(secs, l).name + Get(secs, l).value;
            FromName(secs, l) == (own + Erased(NAME_MAX))[..NAME_MAX]
  {
    hide Header;
    var r := Get(secs, l);
    var own := r.name + r.value;
    assert ImageFrom(secs[l.s].recs, l.i) == Header(r) + own;
    assert (Header(r) + own + Erased(THRESHOLD))[REC_HDR..THRESHOLD] == (own + Erased(THRESHOLD))[..NAME_MAX];
  }

  /** The bytes read begin with a name that the record's own name and value begin with, and the other way round. */
  lemma PrefixOfRead(secs: seq<Sector>, l: Loc, key: Name)
    requires At(secs, l) && Get(secs, l).part == Whole
    ensures var own := Get(secs, l).name + Get(secs, l).value;
            && (key <= FromName(secs, l) ==> key <= own || own <= key)
            && (key <= own && |key| <= NAME_MAX ==> key <= FromName(secs, l))
  {
    hide FromName;
    OwnBytesFirst(secs, l);
    var own := Get(secs, l).name + Get(secs, l).value;
    if key <= FromName(secs, l) {
      var n := if |key| <= |own| then |key| else |own|;
      assert FromName(secs, l)[..n] == key[..n] == own[..n];
    }
    if key <= own && |key| <= NAME_MAX {
      assert FromName(secs, l)[..|key|] == own[..|key|] == key;
    }
  }

  /** What read_kv leaves in its buffer of 64 bytes for a name: a name that fills it loses its last byte to the NUL. */
  function ShownName(name: Name): (shown: seq<byte>)
    requires |name| <= NAME_MAX
    ensures |name| < NAME_MAX ==> |shown| == |name| + 1
    ensures |name| == NAME_MAX ==> |shown| == NAME_MAX
  {
    (if |name| == NAME_MAX then name[..NAME_MAX - 1] else name) + [0]
  }

  /** What find_kv_cb compares: the lengths, then as many bytes as the key has. */
  predicate MatchesName(name: Name, key: Name)
    requires |name| <= NAME_MAX
  {
    |key| == |name| && key <= ShownName(name)
  }

  /** The scan finds a record by its name if and only if the name has fewer than 64 bytes, although names of 64 bytes
      are accepted; it never takes one name for another, either. Names are strings without a NUL. */
  lemma ScanFindsExactly(name: Name, key: Name)
    requires |name| <= NAME_MAX && 0 !in key
    ensures MatchesName(name, key) <==> name == key && |name| < NAME_MAX
  {
    var shown := ShownName(name);
    assert |name| < NAME_MAX ==> shown[..|name|] == name;
    assert |name| == NAME_MAX ==> shown[NAME_MAX - 1] == 0;
  }
}
