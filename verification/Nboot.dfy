/** The boot loader: copies a downloaded image into slot A and starts it, while the power may go at any flash step. */
module Nboot {
  import opened Bytes
  import opened FlashDevice

  const MAGIC: nat := 0xA538_9ACE
  const INVALID: byte := 0
  const DOWNLOAD_OK: byte := 1
  const RECORD: nat := 12
  const CHUNK: nat := 128

  datatype Record = Record(magic: nat, state: byte, size: nat)

  // Stopped is a power cut, or an operation that reports failure and so ends in the loader's endless error loop.
  datatype Outcome = Jumped | Stopped

  /** The 12-byte record at the head of the metadata page: magic, state, three bytes of padding, size. */
  function Load(page: seq<byte>): (r: Record)
    requires |page| >= RECORD
  {
    Record(FromLE32(page[0], page[1], page[2], page[3]), page[4], FromLE32(page[8], page[9], page[10], page[11]))
  }

  /** nboot_get_image_down_state: without the magic the page says nothing. */
  function GetDown(page: seq<byte>): (byte, nat)
    requires |page| >= RECORD
  {
    if Load(page).magic == MAGIC then (Load(page).state, Load(page).size) else (INVALID, 0)
  }

  function Blank(n: nat): (p: seq<byte>)
    ensures |p| == n
  {
    seq(n, i => ERASED)
  }

  /** The page as saved: the new record in front, padding and the rest as they were. */
  function WithRecord(page: seq<byte>, state: byte, size: nat): (p: seq<byte>)
    requires |page| >= RECORD && size < 0x1_0000_0000
    ensures |p| == |page|
  {
    LE32(MAGIC) + [state] + page[5..8] + LE32(size) + page[RECORD..]
  }

  /** The page when power goes after k bytes of a write behind an erase. */
  function Torn(page: seq<byte>, k: nat): (p: seq<byte>)
    requires k <= |page|
    ensures |p| == |page|
  {
    page[..k] + Blank(|page| - k)
  }

  lemma TornAll(page: seq<byte>)
    ensures Torn(page, |page|) == page
  {
  }

  function RoundUp(n: nat): (r: nat)
    ensures n <= r < n + CHUNK && r % CHUNK == 0
  {
    (n + CHUNK - 1) / CHUNK * CHUNK
  }

  lemma SavedReadsBack(page: seq<byte>, state: byte, size: nat)
    requires |page| >= RECORD && size < 0x1_0000_0000
    ensures GetDown(WithRecord(page, state, size)) == (state, size)
    ensures Load(WithRecord(page, state, size)) == Record(MAGIC, state, size)
    ensures var p := WithRecord(page, state, size);
            && p[..5] == [0xCE, 0x9A, 0x38, 0xA5, state] && p[5..8] == page[5..8] && p[12..] == page[12..]
            && p[8] + 0x100 * p[9] as int + 0x1_0000 * p[10] as int + 0x100_0000 * p[11] as int == size
  {
    assert LE32(MAGIC) == [0xCE, 0x9A, 0x38, 0xA5];
    SizeBytes(page, state, size);
    hide FromLE32, LE32;
    LE32RoundTrip(MAGIC);
    LE32RoundTrip(size);
    var p := WithRecord(page, state, size);
    assert p[0..4] == LE32(MAGIC);
    assert forall i | 0 <= i < 4 :: p[8 + i] == LE32(size)[i];
    assert p[8 + 0] == p[8] && p[8 + 1] == p[9] && p[8 + 2] == p[10] && p[8 + 3] == p[11];
  }

  lemma SizeBytes(page: seq<byte>, state: byte, size: nat)
    requires |page| >= RECORD && size < 0x1_0000_0000
    ensures var p := WithRecord(page, state, size);
            p[8] + 0x100 * p[9] as int + 0x1_0000 * p[10] as int + 0x100_0000 * p[11] as int == size
  {
    LE32RoundTrip(size);
    var p, w := WithRecord(page, state, size), LE32(size);
    assert p[8 + 0] == w[0] && p[8 + 1] == w[1] && p[8 + 2] == w[2] && p[8 + 3] == w[3];
  }

  lemma BlankMagic(a: byte, b: byte, c: byte)
    ensures FromLE32(a, b, c, ERASED) != MAGIC
  {
  }

  /** What a torn save is read back as: nothing before the fourth byte, an undefined state after four, and from the
      fifth byte on the new state, with the bytes of the size that are missing read as FF. */
  lemma TornReadsAs(page: seq<byte>, state: byte, size: nat, k: nat)
    requires |page| >= RECORD && size < 0x1_0000_0000 && k <= |page|
    ensures var t := Torn(WithRecord(page, state, size), k);
            && (k < 4 ==> GetDown(t) == (INVALID, 0))
            && (k == 4 ==> GetDown(t).0 == ERASED)
            && (k >= 5 ==> GetDown(t).0 == state)
            && (k >= RECORD ==> GetDown(t).1 == size)
  {
    hide FromLE32, LE32;
    var full := WithRecord(page, state, size);
    var t := Torn(full, k);
    SavedReadsBack(page, state, size);
    assert forall i | 0 <= i < |t| :: t[i] == if i < k then full[i] else ERASED;
    assert full[4] == state;
    if k < 4 {
      BlankMagic(t[0], t[1], t[2]);
    } else if k < RECORD {
      assert t[0] == full[0] && t[1] == full[1] && t[2] == full[2] && t[3] == full[3];
    }
  }

  /** A torn save is read as a finished download exactly when it was one and its first five bytes were written: the
      size that goes with it may then still be wrong. */
  lemma TornReadsOkExactly(page: seq<byte>, state: byte, size: nat, k: nat)
    requires |page| >= RECORD && size < 0x1_0000_0000 && k <= |page|
    ensures GetDown(Torn(WithRecord(page, state, size), k)).0 == DOWNLOAD_OK <==> state == DOWNLOAD_OK && k >= 5
  {
    TornReadsAs(page, state, size, k);
  }

  /** For the record of a download the wrong size is no accident: cut before the size, it reads as all ones. */
  lemma TornMarkHasWrongSize(page: seq<byte>, size: nat, k: nat)
    requires |page| >= RECORD && size < 0xFFFF_FFFF && 5 <= k <= 8
    ensures GetDown(Torn(WithRecord(page, DOWNLOAD_OK, size), k)) == (DOWNLOAD_OK, 0xFFFF_FFFF)
  {
    hide LE32;
    TornReadsAs(page, DOWNLOAD_OK, size, k);
    var t := Torn(WithRecord(page, DOWNLOAD_OK, size), k);
    assert forall i | k <= i < |t| :: t[i] == ERASED;
  }

  /** A download is pending, and the staged image is still to be copied. */
  predicate Pending(meta: seq<byte>, size: nat) {
    |meta| >= RECORD && GetDown(meta) == (DOWNLOAD_OK, size)
  }

  /** Slot A holds the staged image and no download is pending. */
  predicate Installed(meta: seq<byte>, slotA: seq<byte>, temp: seq<byte>, size: nat) {
    && |meta| >= RECORD && GetDown(meta).0 != DOWNLOAD_OK
    && size <= |slotA| && size <= |temp| && slotA[..size] == temp[..size]
  }

  class Board {
    var meta: seq<byte>    // the metadata page
    var slotA: seq<byte>   // where the application runs from
    const temp: seq<byte>  // where downloads are staged
    var power: nat         // flash steps left before the power goes

    constructor (meta: seq<byte>, slotA: seq<byte>, temp: seq<byte>, power: nat)
      ensures this.meta == meta && this.slotA == slotA && this.temp == temp && this.power == power
    {
      this.meta, this.slotA, this.temp, this.power := meta, slotA, temp, power;
    }

    ghost predicate Fits(size: nat)
      reads this
    {
      |meta| >= RECORD && 0 < size < 0x1_0000_0000 && RoundUp(size) <= |slotA| && RoundUp(size) <= |temp|
    }

    ghost predicate Safe(size: nat)
      reads this
    {
      Fits(size) && (Pending(meta, size) || Installed(meta, slotA, temp, size))
    }

    /** Erasing the slot for an image covers whole chunks; power can go after any byte of it. */
    method EraseSlot(size: nat) returns (ok: bool)
      requires RoundUp(size) <= |slotA|
      modifies this`slotA, this`power
      ensures |slotA| == old(|slotA|) && slotA[RoundUp(size)..] == old(slotA)[RoundUp(size)..]
      ensures ok <==> old(power) >= RoundUp(size)
      ensures ok ==> Clean(slotA, 0, RoundUp(size)) && power == old(power) - RoundUp(size)
    {
      var i := 0;
      while i < RoundUp(size)
        invariant 0 <= i <= RoundUp(size) && |slotA| == old(|slotA|)
        invariant Clean(slotA, 0, i) && power == old(power) - i
        invariant forall j | i <= j < |slotA| :: slotA[j] == old(slotA)[j]
      {
        if power == 0 { return false; }
        power := power - 1;
        slotA := slotA[i := ERASED];
        i := i + 1;
      }
      ok := true;
    }

    /** Programming a chunk, byte by byte. */
    method WriteSlot(addr: nat, data: seq<byte>) returns (ok: bool)
      requires addr + |data| <= |slotA| && Clean(slotA, addr, addr + |data|)
      modifies this`slotA, this`power
      ensures |slotA| == old(|slotA|)
      ensures ok <==> old(power) >= |data|
      ensures ok ==> slotA == old(slotA)[..addr] + data + old(slotA)[addr + |data|..] && power == old(power) - |data|
      ensures forall j | 0 <= j < |slotA| && !(addr <= j < addr + |data|) :: slotA[j] == old(slotA)[j]
    {
      hide And;
      var i := 0;
      while i < |data|
        invariant 0 <= i <= |data| && |slotA| == old(|slotA|) && power == old(power) - i
        invariant forall j | 0 <= j < |slotA| ::
                  slotA[j] == if addr <= j < addr + i then data[j - addr] else old(slotA)[j]
      {
        if power == 0 { return false; }
        power := power - 1;
        AndErased(data[i]);
        slotA := slotA[addr + i := And(slotA[addr + i], data[i])];
        i := i + 1;
      }
      assert slotA == old(slotA)[..addr] + data + old(slotA)[addr + |data|..];
      ok := true;
    }

    /** Programming the freshly erased metadata page: a cut leaves it torn. */
    method WriteMeta(data: seq<byte>) returns (ok: bool)
      requires |data| == |meta| && Clean(meta, 0, |meta|)
      modifies this`meta, this`power
      ensures meta == Torn(data, if old(power) < |data| then old(power) else |data|)
      ensures ok <==> old(power) >= |data|
      ensures ok ==> power == old(power) - |data|
    {
      hide And;
      var i := 0;
      assert meta == Torn(data, 0);
      while i < |data|
        invariant 0 <= i <= |data| && power == old(power) - i
        invariant meta == Torn(data, i)
      {
        if power == 0 { return false; }
        power := power - 1;
        AndErased(data[i]);
        meta := meta[i := And(meta[i], data[i])];
        assert meta == Torn(data, i + 1);
        i := i + 1;
      }
      ok := true;
    }

    /** save_image_down_state: read the page, overlay the record, erase, write all of it. */
    method Save(state: byte, size: nat) returns (ok: bool)
      requires |meta| >= RECORD && size < 0x1_0000_0000
      modifies this`meta, this`power
      ensures ok <==> old(power) >= 1 + |old(meta)|
      ensures old(power) == 0 ==> meta == old(meta)
      ensures old(power) > 0 ==> meta == Torn(WithRecord(old(meta), state, size),
                                              if ok then |old(meta)| else old(power) - 1)
    {
      var buffer := WithRecord(meta, state, size);
      if power == 0 { return false; }
      power := power - 1;
      meta := Blank(|meta|);
      ok := WriteMeta(buffer);
    }

    /** nboot_set_image_down_state: nothing is written when the record already says so. */
    method SetDown(state: byte, size: nat) returns (ok: bool)
      requires |meta| >= RECORD && size < 0x1_0000_0000
      modifies this`meta, this`power
      ensures |meta| == |old(meta)|
      ensures ok ==> GetDown(meta) == (state, size) && meta[RECORD..] == old(meta)[RECORD..]
      ensures Load(old(meta)) == Record(MAGIC, state, size) ==> ok && meta == old(meta) && power == old(power)
      ensures GetDown(meta) == GetDown(old(meta)) || GetDown(meta).0 in {state, ERASED, INVALID}
      ensures old(power) > |meta| ==> ok
    {
      hide WithRecord, Torn, FromLE32;
      var r := Load(meta);
      if r.magic == MAGIC && r.state == state && r.size == size { return true; }
      ghost var page := meta;
      ok := Save(state, size);
      if old(power) > 0 {
        SavedReadsBack(page, state, size);
        TornAll(WithRecord(page, state, size));
        TornReadsAs(page, state, size, if ok then |page| else old(power) - 1);
      }
    }

    /** Copying the staged image chunk by chunk into the erased slot. */
    method Copy(size: nat) returns (ok: bool)
      requires Fits(size) && Clean(slotA, 0, RoundUp(size))
      modifies this`slotA, this`power
      ensures |slotA| == |old(slotA)|
      ensures ok <==> old(power) >= RoundUp(size)
      ensures ok ==> slotA[..RoundUp(size)] == temp[..RoundUp(size)] && power == old(power) - RoundUp(size)
      ensures slotA[RoundUp(size)..] == old(slotA)[RoundUp(size)..]
    {
      var i := 0;
      while i < size
        invariant i % CHUNK == 0 && i <= RoundUp(size) && |slotA| == |old(slotA)|
        invariant power == old(power) - i
        invariant slotA[..i] == temp[..i] && Clean(slotA, i, RoundUp(size))
        invariant forall j | RoundUp(size) <= j < |slotA| :: slotA[j] == old(slotA)[j]
      {
        NextChunk(i, size);
        ghost var was := slotA;
        var buf := temp[i..i + CHUNK];
        ok := WriteSlot(i, buf);
        if !ok { return; }
        CopyStep(was, slotA, temp, i);
        i := i + CHUNK;
      }
      NextChunk(i, size);
      ok := true;
    }

    /** boot_app. Wherever the power goes, the board stays safe, and the application is only started when slot A holds
        the full staged image; with enough power it is started. */
    method BootApp(ghost size: nat) returns (o: Outcome)
      requires Safe(size)
      modifies this`meta, this`slotA, this`power
      ensures Safe(size) && |meta| == |old(meta)|
      ensures o == Jumped ==> Installed(meta, slotA, temp, size)
      ensures old(power) > 2 * RoundUp(size) + |old(meta)| ==> o == Jumped
      ensures var n := (size + 127) / 128 * 128;
              && n <= |slotA| == |old(slotA)| && n <= |temp| && slotA[n..] == old(slotA)[n..]
              && (o == Jumped && Pending(old(meta), size) ==>
                    slotA[..n] == temp[..n] && GetDown(meta) == (0, 0) && meta[12..] == old(meta)[12..])
      ensures Installed(old(meta), old(slotA), temp, size) ==> o == Jumped && meta == old(meta) && slotA == old(slotA)
    {
      hide Load, FromLE32, GetDown;
      assert temp[..RoundUp(size)][..size] == temp[..size];
      var (state, n) := GetDown(meta);
      if state == DOWNLOAD_OK && n > 0 {
        var ok := EraseSlot(n);
        if !ok { return Stopped; }
        ok := Copy(n);
        if !ok { return Stopped; }
        ok := SetDown(INVALID, 0);
        if !ok { return Stopped; }
      }
      o := Jumped;
    }
  }

  lemma NextChunk(i: nat, size: nat)
    requires i % CHUNK == 0 && i <= RoundUp(size)
    ensures i < size ==> i + CHUNK <= RoundUp(size)
    ensures i >= size ==> i == RoundUp(size)
  {
  }

  lemma CopyStep(was: seq<byte>, now: seq<byte>, temp: seq<byte>, i: nat)
    requires i + CHUNK <= |was| && i + CHUNK <= |temp| && was[..i] == temp[..i]
    requires now == was[..i] + temp[i..i + CHUNK] + was[i + CHUNK..]
    ensures now[..i + CHUNK] == temp[..i + CHUNK]
    ensures forall j | i + CHUNK <= j < |was| :: now[j] == was[j]
  {
    assert now[..i + CHUNK] == was[..i] + temp[i..i + CHUNK];
    assert temp[..i + CHUNK] == temp[..i] + temp[i..i + CHUNK];
  }

  /** The application's side: it marks a staged image. Once the mark is complete the board is safe. */
  method MarkDownloaded(b: Board, size: nat) returns (ok: bool)
    requires b.Fits(size)
    modifies b`meta, b`power
    ensures ok ==> Pending(b.meta, size) && b.Safe(size)
  {
    ok := b.SetDown(DOWNLOAD_OK, size);
  }

  /** Any number of boots, each with as much power as the list says: whenever one of them reaches the application,
      slot A holds the full staged image, and from then on every boot reaches it without touching the flash. */
  method PowerCycles(b: Board, size: nat, supplies: seq<nat>) returns (outcomes: seq<Outcome>)
    requires b.Safe(size)
    modifies b
    ensures b.Safe(size) && |outcomes| == |supplies|
    ensures forall i | 0 <= i < |outcomes|
            && outcomes[i] == Jumped :: forall j | i <= j < |outcomes| :: outcomes[j] == Jumped
    ensures (exists i | 0 <= i < |outcomes| :: outcomes[i] == Jumped) ==> Installed(b.meta, b.slotA, b.temp, size)
    ensures forall i | 0 <= i < |supplies| && supplies[i] > 2 * RoundUp(size) + |b.meta| :: outcomes[i] == Jumped
  {
    hide Pending, Installed, RoundUp;
    outcomes := [];
    for k := 0 to |supplies|
      invariant b.Safe(size) && |outcomes| == k && |b.meta| == |old(b.meta)|
      invariant forall i | 0 <= i < k && outcomes[i] == Jumped :: forall j | i <= j < k :: outcomes[j] == Jumped
      invariant (exists i | 0 <= i < k :: outcomes[i] == Jumped) ==> Installed(b.meta, b.slotA, b.temp, size)
      invariant forall i | 0 <= i < k && supplies[i] > 2 * RoundUp(size) + |b.meta| :: outcomes[i] == Jumped
    {
      b.power := supplies[k];
      var o := b.BootApp(size);
      outcomes := outcomes + [o];
    }
  }
}
