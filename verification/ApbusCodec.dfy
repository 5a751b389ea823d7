/** The apbus serial frame: BC CB, body length, source, destination, command, index, body, checksum. */
module ApbusCodec {
  import opened Bytes

  const MAGIC0: byte := 0xBC
  const MAGIC1: byte := 0xCB
  const HEADER: nat := 9
  const CHECKSUM: nat := 2
  const MAX_BODY: nat := 256

  datatype Message = Message(src: byte, dest: byte, cmd: byte, index: nat, body: seq<byte>)

  datatype Checked = Accepted(msg: Message) | Broken | BadChecksum

  predicate Sendable(m: Message) {
    m.index < 0x1_0000 && |m.body| <= MAX_BODY
  }

  /** The two bytes of a 16-bit word, and the word they make. */
  function Hi(w: nat): (h: byte)
    requires w < 0x1_0000
    ensures 0x100 * h <= w < 0x100 * h + 0x100
  {
    if w < 0x100 then 0 else 1 + Hi(w - 0x100)
  }

  function Lo(w: nat): byte
    requires w < 0x1_0000
  {
    w - 0x100 * Hi(w)
  }

  function Word(lo: byte, hi: byte): nat { lo + 0x100 * hi }

  /** What an unsigned 16-bit variable keeps of n. */
  function Wrapped(n: nat): (r: nat)
    ensures r < 0x1_0000 && r <= n && (n < 0x1_0000 ==> r == n)
  {
    if n < 0x1_0000 then n else Wrapped(n - 0x1_0000)
  }

  function Sum(d: seq<byte>): nat {
    if d == [] then 0 else Sum(d[..|d| - 1]) + d[|d| - 1]
  }

  /** The 16-bit two's complement of the byte sum. */
  function Lrc(d: seq<byte>): (c: nat)
    ensures c < 0x1_0000
  {
    var sum := Wrapped(Sum(d));
    if sum == 0 then 0 else 0x1_0000 - sum
  }

  /** Everything the checksum covers. */
  function Covered(m: Message): seq<byte>
    requires Sendable(m)
  {
    [Lo(|m.body|), Hi(|m.body|), m.src, m.dest, m.cmd, Lo(m.index), Hi(m.index)] + m.body
  }

  function Frame(m: Message): seq<byte>
    requires Sendable(m)
  {
    [MAGIC0, MAGIC1] + Covered(m) + [Lo(Lrc(Covered(m))), Hi(Lrc(Covered(m)))]
  }

  /** checksumLRC: the 16-bit number that brings the byte sum to a multiple of 2^16. */
  method ChecksumLRC(d: seq<byte>) returns (c: nat)
    ensures c == Lrc(d)
    ensures c < 0x1_0000 && (Sum(d) + c) % 0x1_0000 == 0
  {
    var sum: nat := 0;
    var i := 0;
    while i < |d|
      invariant 0 <= i <= |d| && sum == Wrapped(Sum(d[..i]))
    {
      assert d[..i + 1][..i] == d[..i];
      WrappedAdds(Sum(d[..i]), d[i]);
      sum := Wrapped(sum + d[i]);
      i := i + 1;
    }
    assert d[..|d|] == d;
    LrcCancels(d);
    c := if sum == 0 then 0 else 0x1_0000 - sum;
  }

  /** apbus_serial_make_msg: fills the caller's buffer byte by byte. */
  method MakeMsg(m: Message, msg: array<byte>) returns (len: nat)
    requires Sendable(m) && msg.Length >= |m.body| + HEADER + CHECKSUM
    modifies msg
    ensures len == |m.body| + HEADER + CHECKSUM && msg[..len] == Frame(m) && Transmits(msg[..len], m)
    ensures forall i | len <= i < msg.Length :: msg[i] == old(msg[i])
  {
    hide Lrc, Lo, Hi, Transmits;
    FrameTransmits(m);
    PutHeader(m, msg);
    var offset := HEADER;
    for i := 0 to |m.body|
      invariant offset == HEADER + i
      invariant msg[..HEADER] == [MAGIC0, MAGIC1] + Covered(m)[..7]
      invariant msg[HEADER..offset] == m.body[..i]
      invariant forall k | offset <= k < msg.Length :: msg[k] == old(msg[k])
    {
      msg[offset] := m.body[i];
      offset := offset + 1;
    }
    assert msg[2..offset] == Covered(m);
    var c := ChecksumLRC(msg[2..offset]);
    msg[offset] := Lo(c);
    msg[offset + 1] := Hi(c);
    len := offset + 2;
  }

  method PutHeader(m: Message, msg: array<byte>)
    requires Sendable(m) && msg.Length >= HEADER
    modifies msg
    ensures msg[..HEADER] == [MAGIC0, MAGIC1] + Covered(m)[..7]
    ensures forall i | HEADER <= i < msg.Length :: msg[i] == old(msg[i])
  {
    hide Lrc, Lo, Hi, Covered;
    CoveredHead(m);
    msg[0], msg[1] := MAGIC0, MAGIC1;
    msg[2], msg[3] := Lo(|m.body|), Hi(|m.body|);
    msg[4], msg[5], msg[6] := m.src, m.dest, m.cmd;
    msg[7], msg[8] := Lo(m.index), Hi(m.index);
  }

  lemma CoveredHead(m: Message)
    requires Sendable(m)
    ensures var c := Covered(m);
            && |c| == |m.body| + 7 && c[0] == Lo(|m.body|) && c[1] == Hi(|m.body|) && c[2] == m.src && c[3] == m.dest
            && c[4] == m.cmd && c[5] == Lo(m.index) && c[6] == Hi(m.index)
  {
  }

  /** apbus_serial_check_integrity. The buffer is at least four bytes long; msgLen says how much of it is the frame. */
  method CheckIntegrity(msg: seq<byte>, msgLen: nat) returns (r: Checked)
    requires 4 <= |msg| && msgLen <= |msg|
    ensures r == Check(msg, msgLen)
    ensures var len := msg[2] as int + 0x100 * msg[3] as int;
            && (r == Broken <==> msg[0] != 0xBC || msg[1] != 0xCB || msgLen < len + 11 || msgLen > 256 + 11)
            && (r.Accepted? <==>
                  && r != Broken
                  && (Sum(msg[2..len + 9]) + msg[msgLen - 2] + 0x100 * msg[msgLen - 1] as int) % 0x1_0000 == 0)
            && (r.Accepted? ==>
                  r.msg == Message(msg[4], msg[5], msg[6], msg[7] as int + 0x100 * msg[8] as int, msg[9..len + 9]))
  {
    CheckIsASum(msg, msgLen);
    if msg[0] != MAGIC0 || msg[1] != MAGIC1 { return Broken; }
    var bodyLen := Word(msg[2], msg[3]);
    if msgLen < bodyLen + HEADER + CHECKSUM || msgLen > MAX_BODY + HEADER + CHECKSUM { return Broken; }
    var c := ChecksumLRC(msg[2..2 + bodyLen + 7]);
    if Lo(c) != msg[msgLen - 2] || Hi(c) != msg[msgLen - 1] { return BadChecksum; }
    var body := [];
    for i := 0 to bodyLen
      invariant body == msg[HEADER..HEADER + i]
    {
      body := body + [msg[HEADER + i]];
    }
    r := Accepted(Message(msg[4], msg[5], msg[6], Word(msg[7], msg[8]), body));
  }

  function Check(msg: seq<byte>, msgLen: nat): Checked
    requires 4 <= |msg| && msgLen <= |msg|
  {
    var bodyLen := Word(msg[2], msg[3]);
    if msg[0] != MAGIC0 || msg[1] != MAGIC1 then Broken
    else if msgLen < bodyLen + HEADER + CHECKSUM || msgLen > MAX_BODY + HEADER + CHECKSUM then Broken
    else
      var c := Lrc(msg[2..2 + bodyLen + 7]);
      if Lo(c) != msg[msgLen - 2] || Hi(c) != msg[msgLen - 1] then BadChecksum
      else Accepted(Message(msg[4], msg[5], msg[6], Word(msg[7], msg[8]), msg[HEADER..HEADER + bodyLen]))
  }

  lemma WordRoundTrip(w: nat)
    requires w < 0x1_0000
    ensures Word(Lo(w), Hi(w)) == w
  {
  }

  lemma FrameParts(m: Message)
    requires Sendable(m)
    ensures var f := Frame(m);
            && |f| == |m.body| + HEADER + CHECKSUM
            && f[0] == MAGIC0 && f[1] == MAGIC1 && f[2] == Lo(|m.body|) && f[3] == Hi(|m.body|)
            && f[4] == m.src && f[5] == m.dest && f[6] == m.cmd && f[7] == Lo(m.index) && f[8] == Hi(m.index)
            && f[2..|f| - 2] == Covered(m) && f[HEADER..|f| - 2] == m.body
            && f[|f| - 2] == Lo(Lrc(Covered(m))) && f[|f| - 1] == Hi(Lrc(Covered(m)))
  {
  }

  /** The checksum brings the sum to a multiple of 2^16. */
  lemma LrcCancels(d: seq<byte>)
    ensures (Sum(d) + Lrc(d)) % 0x1_0000 == 0
  {
    hide Sum;
    WrappedIsRemainder(Sum(d));
  }

  lemma {:induction false} WrappedIsRemainder(n: nat)
    ensures Wrapped(n) == n % 0x1_0000
    decreases n
  {
    if n >= 0x1_0000 { WrappedIsRemainder(n - 0x1_0000); }
  }

  /** What the receiver relies on: BC CB, four little-endian words among single bytes, and the whole of it behind the
      magic pair adding up to a multiple of 2^16 with the trailer taken as one word. */
  predicate Transmits(f: seq<byte>, m: Message) {
    var n := |f|;
    && n == |m.body| + 11 && f[0] == 0xBC && f[1] == 0xCB && f[2] as int + 0x100 * f[3] as int == |m.body|
    && f[4] == m.src && f[5] == m.dest && f[6] == m.cmd && f[7] as int + 0x100 * f[8] as int == m.index
    && f[9..n - 2] == m.body
    && (Sum(f[2..n - 2]) + f[n - 2] + 0x100 * f[n - 1] as int) % 0x1_0000 == 0
  }

  lemma FrameTransmits(m: Message)
    requires Sendable(m)
    ensures Transmits(Frame(m), m)
  {
    hide Lrc, Frame, Covered, Sum, Lo, Hi;
    FrameParts(m);
    var c := Covered(m);
    TrailerCancels(c, Lo(Lrc(c)), Hi(Lrc(c)));
    WordRoundTrip(|m.body|);
    WordRoundTrip(m.index);
  }

  /** The words that are accepted as a trailer are those that bring the sum to a multiple of 2^16. */
  lemma CheckIsASum(msg: seq<byte>, msgLen: nat)
    requires 4 <= |msg| && msgLen <= |msg|
    ensures var r, len := Check(msg, msgLen), msg[2] as int + 0x100 * msg[3] as int;
            && (r == Broken <==> msg[0] != 0xBC || msg[1] != 0xCB || msgLen < len + 11 || msgLen > 256 + 11)
            && (r.Accepted? <==>
                  && r != Broken
                  && (Sum(msg[2..len + 9]) + msg[msgLen - 2] + 0x100 * msg[msgLen - 1] as int) % 0x1_0000 == 0)
  {
    hide Lrc, Sum, Lo, Hi;
    var len := Word(msg[2], msg[3]);
    if len + 11 <= msgLen { TrailerCancels(msg[2..len + 9], msg[msgLen - 2], msg[msgLen - 1]); }
  }

  /** No other trailer than the checksum does so. */
  lemma TrailerCancels(d: seq<byte>, lo: byte, hi: byte)
    ensures (Sum(d) + lo + 0x100 * hi as int) % 0x1_0000 == 0 <==> Lo(Lrc(d)) == lo && Hi(Lrc(d)) == hi
  {
    hide Sum, Lrc, Lo, Hi;
    LrcCancels(d);
    WordRoundTrip(Lrc(d));
    SameRemainder(Sum(d), Lrc(d), Word(lo, hi));
    BytesOfWord(lo, hi);
  }

  lemma BytesOfWord(lo: byte, hi: byte)
    ensures Word(lo, hi) < 0x1_0000 && Lo(Word(lo, hi)) == lo && Hi(Word(lo, hi)) == hi
  {
  }

  lemma SameRemainder(n: nat, v: nat, w: nat)
    requires v < 0x1_0000 && w < 0x1_0000 && (n + v) % 0x1_0000 == 0
    ensures (n + w) % 0x1_0000 == 0 <==> v == w
  {
  }

  /** Checking inverts making. */
  lemma CheckInvertsMake(m: Message)
    requires Sendable(m)
    ensures |Frame(m)| == |m.body| + HEADER + CHECKSUM
    ensures Check(Frame(m), |Frame(m)|) == Accepted(m)
  {
    hide Lrc, Frame, Covered, Hi;
    FrameParts(m);
    WordRoundTrip(|m.body|);
    WordRoundTrip(m.index);
  }

  lemma {:induction false} SumOfUpdate(d: seq<byte>, i: nat, b: byte)
    requires i < |d|
    ensures Sum(d[i := b]) == Sum(d) - d[i] + b
    decreases |d|
  {
    var e := d[i := b];
    if i == |d| - 1 {
      assert e[..|d| - 1] == d[..|d| - 1];
    } else {
      assert e[..|d| - 1] == d[..|d| - 1][i := b];
      SumOfUpdate(d[..|d| - 1], i, b);
    }
  }

  lemma {:induction false} SumOfConcat(d: seq<byte>, e: seq<byte>)
    ensures Sum(d + e) == Sum(d) + Sum(e)
    decreases |e|
  {
    if e == [] {
      assert d + e == d;
    } else {
      assert (d + e)[..|d + e| - 1] == d + e[..|e| - 1];
      SumOfConcat(d, e[..|e| - 1]);
    }
  }

  lemma {:induction false} SumBound(d: seq<byte>)
    ensures Sum(d) <= 0xFF * |d|
    decreases |d|
  {
    if d != [] { SumBound(d[..|d| - 1]); }
  }

  /** Sums that differ by less than 2^16, but do differ, have different checksums. */
  lemma LrcDiffers(d: seq<byte>, e: seq<byte>)
    requires Sum(d) < Sum(e) < Sum(d) + 0x1_0000
    ensures Lrc(d) != Lrc(e)
  {
    hide Sum;
    WrappedDiffers(Sum(d), Sum(e));
  }

  lemma {:induction false} WrappedAdds(a: nat, b: nat)
    requires b < 0x1_0000
    ensures Wrapped(Wrapped(a) + b) == Wrapped(a + b)
    decreases a
  {
    if a >= 0x1_0000 { WrappedAdds(a - 0x1_0000, b); }
  }

  lemma {:induction false} WrappedDiffers(a: nat, b: nat)
    requires a < b < a + 0x1_0000
    ensures Wrapped(a) != Wrapped(b)
    decreases a
  {
    if a >= 0x1_0000 { WrappedDiffers(a - 0x1_0000, b - 0x1_0000); }
  }

  lemma DifferentWordsDifferInAByte(v: nat, w: nat)
    requires v != w && v < 0x1_0000 && w < 0x1_0000
    ensures Lo(v) != Lo(w) || Hi(v) != Hi(w)
  {
    WordRoundTrip(v);
    WordRoundTrip(w);
  }

  /** Changing any single byte of a made frame, the length bytes included, makes the check fail. */
  lemma AnyByteChangeIsDetected(m: Message, i: nat, b: byte)
    requires Sendable(m) && i < |Frame(m)| && b != Frame(m)[i]
    ensures !Check(Frame(m)[i := b], |Frame(m)|).Accepted?
  {
    hide Lrc, Frame, Covered, Sum, Lo, Hi, Word;
    FrameParts(m);
    var f, n := Frame(m), |Frame(m)|;
    WordRoundTrip(|m.body|);
    if i == 2 || i == 3 {
      LengthChangeIsDetected(m, i, b);
    } else if i >= n - 2 {
      assert f[i := b][2..n - 2] == Covered(m);
    } else if i >= 2 {
      assert f[i := b][2..n - 2] == Covered(m)[i - 2 := b];
      ContentChange(Covered(m), i - 2, b);
    }
  }

  lemma ContentChange(c: seq<byte>, i: nat, b: byte)
    requires i < |c| && b != c[i]
    ensures Lo(Lrc(c)) != Lo(Lrc(c[i := b])) || Hi(Lrc(c)) != Hi(Lrc(c[i := b]))
  {
    hide Sum, Lrc;
    SumOfUpdate(c, i, b);
    if c[i] < b { LrcDiffers(c, c[i := b]); } else { LrcDiffers(c[i := b], c); }
    DifferentWordsDifferInAByte(Lrc(c), Lrc(c[i := b]));
  }

  /** A longer length makes the frame too short; a shorter one changes the sum by the dropped bytes and the length
      byte together, which is more than 0 and less than 2^16. */
  lemma LengthChangeIsDetected(m: Message, i: nat, b: byte)
    requires Sendable(m) && 2 <= i <= 3 && i < |Frame(m)| && b != Frame(m)[i]
    ensures !Check(Frame(m)[i := b], |Frame(m)|).Accepted?
  {
    hide Lrc, Frame, Covered, Sum, Hi;
    FrameParts(m);
    var f, g, n := Frame(m), Frame(m)[i := b], |Frame(m)|;
    WordRoundTrip(|m.body|);
    var len := Word(g[2], g[3]);
    if len < |m.body| {
      var c := Covered(m);
      assert c[0] == f[2..n - 2][0] && c[1] == f[2..n - 2][1];
      assert g[2..n - 2] == c[i - 2 := b];
      assert g[2..2 + len + 7] == c[i - 2 := b][..len + 7];
      assert c[i - 2] + len <= b + |m.body| + 0xFF;
      PrefixChange(c, i - 2, b, len + 7);
    }
  }

  /** A prefix of a changed sequence whose dropped rest cannot make up for the change. */
  lemma PrefixChange(c: seq<byte>, i: nat, b: byte, k: nat)
    requires i < k < |c| && |c| - k <= 0x100 && b < c[i] && (c[i] - b) + 0xFF * (|c| - k) < 0x1_0000
    ensures Lo(Lrc(c[i := b][..k])) != Lo(Lrc(c)) || Hi(Lrc(c[i := b][..k])) != Hi(Lrc(c))
  {
    hide Sum, Lrc;
    var d := c[i := b];
    assert d == d[..k] + d[k..];
    SumOfConcat(d[..k], d[k..]);
    SumOfUpdate(c, i, b);
    SumBound(d[k..]);
    LrcDiffers(d[..k], c);
    DifferentWordsDifferInAByte(Lrc(d[..k]), Lrc(c));
  }
}
