/** The resumable frame reader of the apbus: it hunts for the two magic bytes one byte at a time, reads the length
    and then the rest in chunks, yielding to the scheduler whenever the UART has nothing to offer. */
module ApbusReader {
  import opened Bytes
  import opened ApbusCodec

  const BUFFER: nat := 280

  datatype Outcome = Yielded | Finished

  /** The first position of BC CB in s, or |s| if there is none. */
  function FirstPair(s: seq<byte>): (p: nat)
    ensures p <= |s|
    ensures p < |s| ==> p + 1 < |s| && s[p] == MAGIC0 && s[p + 1] == MAGIC1
    ensures forall i | 0 <= i < p && i + 1 < |s| :: !(s[i] == MAGIC0 && s[i + 1] == MAGIC1)
  {
    if |s| < 2 then |s| else if s[0] == MAGIC0 && s[1] == MAGIC1 then 0 else 1 + FirstPair(s[1..])
  }

  lemma {:induction false} FirstPairIs(s: seq<byte>, p: nat)
    requires p + 1 < |s| && s[p] == MAGIC0 && s[p + 1] == MAGIC1
    requires forall i | 0 <= i < p :: !(s[i] == MAGIC0 && s[i + 1] == MAGIC1)
    ensures FirstPair(s) == p
  {
    if p > 0 {
      assert !(s[0] == MAGIC0 && s[1] == MAGIC1);
      forall i | 0 <= i < p - 1 ensures !(s[1..][i] == MAGIC0 && s[1..][i + 1] == MAGIC1) {
        assert s[1..][i] == s[i + 1] && s[1..][i + 1] == s[i + 2];
      }
      FirstPairIs(s[1..], p - 1);
    }
  }

  /** The length field behind the first pair, if it has arrived, fits the protocol. */
  predicate LengthOk(s: seq<byte>) {
    var p := FirstPair(s);
    p + 3 < |s| ==> Word(s[p + 2], s[p + 3]) <= MAX_BODY
  }

  /** The frame at position p is complete. */
  predicate CompleteAt(s: seq<byte>, p: nat) {
    p + 3 < |s| && |s| == p + Word(s[p + 2], s[p + 3]) + HEADER + CHECKSUM
  }

  /** The UART's receive queue. */
  class Uart {
    var queue: seq<byte>

    constructor (bytes: seq<byte>)
      ensures queue == bytes
    {
      queue := bytes;
    }

    method Read(n: nat) returns (d: seq<byte>)
      modifies this
      ensures |d| == (if n < |old(queue)| then n else |old(queue)|)
      ensures d == old(queue)[..|d|] && queue == old(queue)[|d|..]
    {
      var k := if n < |queue| then n else |queue|;
      d := queue[..k];
      queue := queue[k..];
    }
  }

  class Reader {
    const rbuff: array<byte>
    var sum: nat
    var step: nat
    var remaining: nat
    var bodyLen: nat
    var timeout: nat
    ghost var seen: seq<byte>   // every byte taken from the UART since the read began

    ghost predicate Valid()
      reads this, rbuff
    {
      rbuff.Length == BUFFER && ReaderOk(rbuff[..], sum, step, remaining, bodyLen, seen)
    }

    constructor ()
      ensures rbuff.Length == BUFFER && fresh(rbuff)
    {
      rbuff := new byte[BUFFER](i => 0);
      sum, step, remaining, bodyLen, timeout, seen := 0, 0, 0, 0, 0, [];
    }

    /** The start of the thread: the state is cleared, the buffer is not. */
    method Begin(responseTimeout: nat)
      requires rbuff.Length == BUFFER
      modifies this
      ensures Valid() && seen == [] && timeout == responseTimeout && sum == 0
    {
      sum, step, remaining, bodyLen := 0, 0, 0, 0;
      timeout, seen := responseTimeout, [];
    }

    /** What one byte does while the reader hunts for the start of a frame. */
    method Hunt(b: byte)
      requires Valid() && step == 0 && sum <= 3 && LengthOk(seen + [b])
      modifies this, rbuff
      ensures Valid() && seen == old(seen) + [b] && timeout == old(timeout)
      ensures step == 1 ==> remaining > 0
    {
      hide Word, ReaderOk, FirstPair, LengthOk;
      ghost var s0, was := seen, rbuff[..];
      HuntRange(was, sum, step, remaining, bodyLen, seen);
      seen := seen + [b];
      rbuff[sum] := b;
      assert rbuff[..] == was[sum := b];
      match sum {
        case 0 =>
          HuntFirst(was, remaining, bodyLen, s0, b);
          if rbuff[0] == 0xBC { sum := sum + 1; }
        case 1 =>
          HuntSecond(was, remaining, bodyLen, s0, b);
          if rbuff[1] == 0xCB {
            sum := sum + 1;
          } else if rbuff[1] == 0xBC {
            rbuff[0] := 0xBC;
          } else {
            sum := sum - 1;
          }
        case 2 =>
          HuntThird(was, remaining, bodyLen, s0, b);
          bodyLen := rbuff[2];
          sum := sum + 1;
        case _ =>
          HuntFourth(was, remaining, bodyLen, s0, b);
          bodyLen := Word(bodyLen, rbuff[3]);
          remaining := bodyLen + 7;
          sum := sum + 1;
          step := 1;
      }
    }

    /** Taking the next chunk of a frame whose length is known. */
    method Fill(uart: Uart) returns (rl: nat)
      requires Valid() && step == 1 && remaining > 0
      modifies this, rbuff, uart
      ensures Valid() && step == 1 && timeout == old(timeout)
      ensures rl == (if old(remaining) < |old(uart.queue)| then old(remaining) else |old(uart.queue)|)
      ensures seen == old(seen) + old(uart.queue)[..rl] && uart.queue == old(uart.queue)[rl..]
      ensures sum == old(sum) + rl && remaining == old(remaining) - rl && bodyLen == old(bodyLen)
    {
      hide Word, FirstPair, ReaderOk;
      FrameFits(rbuff[..], sum, step, remaining, bodyLen, seen);
      ghost var was := rbuff[..];
      var d := uart.Read(remaining);
      rl := |d|;
      forall i | 0 <= i < rl { rbuff[sum + i] := d[i]; }
      FillKeeps(was, rbuff[..], sum, remaining, bodyLen, seen, d);
      seen := seen + d;
      sum := sum + rl;
      remaining := remaining - rl;
    }

    /** The reading half of one turn of the loop: a byte while hunting, a chunk once the length is known. The result
        rl is the last read count, idle says that there was nothing to hunt in at all. */
    method Take(uart: Uart) returns (rl: nat, idle: bool)
      requires Valid() && LengthOk(seen + uart.queue) && !CompleteFrame(seen)
      modifies this, rbuff, uart
      ensures Valid() && timeout == old(timeout) && seen + uart.queue == old(seen) + old(uart.queue)
      ensures |uart.queue| <= |old(uart.queue)| && (rl > 0 ==> |uart.queue| < |old(uart.queue)|)
      ensures idle <==> old(step) == 0 && old(uart.queue) == []
      ensures idle ==> rl == 0 && seen == old(seen) && step == 0 && sum == old(sum)
      ensures rl == 0 ==> uart.queue == [] && (idle || step == 1)
    {
      hide Word, ReaderOk, FirstPair, LengthOk, CompleteFrame;
      rl, idle := 0, false;
      HuntRange(rbuff[..], sum, step, remaining, bodyLen, seen);
      RoomLeft(rbuff[..], sum, step, remaining, bodyLen, seen);
      if step == 0 {
        ghost var s0, q0 := seen, uart.queue;
        var d := uart.Read(1);
        rl := |d|;
        if rl == 1 {
          assert s0 + q0 == (s0 + [d[0]]) + uart.queue;
          LengthOkPrefix(s0 + [d[0]], uart.queue);
          Hunt(d[0]);
          HuntRange(rbuff[..], sum, step, remaining, bodyLen, seen);
        } else {
          idle := true;
        }
      }
      if step == 1 {
        ghost var s0, q0 := seen, uart.queue;
        rl := Fill(uart);
        assert s0 + q0 == seen + uart.queue;
      }
    }

    /** apbus_serial_read from one scheduling to the next. A thread that is resumed after a yield first pays for the
        time it waited. The result psum is what the caller is told when the thread has finished. */
    method Poll(uart: Uart, wait: bool, resumed: bool) returns (o: Outcome, psum: nat)
      requires Valid() && LengthOk(seen + uart.queue) && (resumed ==> timeout > 0) && !CompleteFrame(seen)
      modifies this, rbuff, uart
      ensures rbuff.Length == BUFFER && seen + uart.queue == old(seen) + old(uart.queue)
      ensures o == Yielded ==> Valid() && uart.queue == [] && !CompleteFrame(seen)
                               && timeout == (if resumed then old(timeout) - 1 else old(timeout)) && timeout > 0
      ensures o == Finished ==> psum <= BUFFER && (Frames(psum) || Check(rbuff[..], psum) == Broken)
      ensures o == Finished && wait && (if resumed then old(timeout) > 1 else old(timeout) > 0) ==> Frames(psum)
      ensures resumed && old(timeout) == 1 ==>
                o == Finished && psum == old(sum) && seen == old(seen) && uart.queue == old(uart.queue)
      ensures o == Finished && !Frames(psum) && !(resumed && old(timeout) == 1) ==>
                psum == 0 && (old(timeout) == 0 || (!wait && uart.queue == [] && NothingOfAFrame(seen)))
      ensures o == Yielded ==> wait || !NothingOfAFrame(seen)
    {
      hide Word, ReaderOk, FirstPair, LengthOk, CompleteFrame, Check, NothingOfAFrame;
      psum := 0;
      if resumed {
        timeout := timeout - 1;
        if timeout == 0 {
          psum := sum;
          PartialIsBroken(rbuff[..], sum, step, remaining, bodyLen, seen);
          return Finished, psum;
        }
      }
      while true
        invariant Valid() && LengthOk(seen + uart.queue) && !CompleteFrame(seen)
        invariant seen + uart.queue == old(seen) + old(uart.queue)
        invariant timeout == if resumed then old(timeout) - 1 else old(timeout)
        decreases |uart.queue|
      {
        RoomLeft(rbuff[..], sum, step, remaining, bodyLen, seen);
        if BUFFER - sum == 0 {
          assert false;
        }
        var rl, idle := Take(uart);
        SumTells(rbuff[..], sum, step, remaining, bodyLen, seen);
        if idle && !wait && sum == 0 {
          PartialIsBroken(rbuff[..], sum, step, remaining, bodyLen, seen);
          return Finished, 0;
        }
        if step == 1 && sum == bodyLen + 7 + 4 {
          FrameComplete(rbuff[..], sum, step, remaining, bodyLen, seen);
          return Finished, sum;
        }
        NotYetComplete(rbuff[..], sum, step, remaining, bodyLen, seen);
        if timeout == 0 {
          ZeroIsBroken(rbuff[..]);
          sum := 0;
          return Finished, 0;
        }
        if rl == 0 { return Yielded, 0; }
      }
    }

    /** The caller is given the whole frame, from its first magic byte to its checksum, and nothing else. */
    ghost predicate Frames(psum: nat)
      reads this, rbuff
    {
      && rbuff.Length == BUFFER && psum <= BUFFER && CompleteFrame(seen)
      && psum == |seen| - FirstPair(seen) && rbuff[..psum] == seen[|seen| - psum..]
    }
  }

  /** The stream up to here ends with the last byte of the frame at its first magic pair. */
  predicate CompleteFrame(s: seq<byte>) {
    FirstPair(s) < |s| && CompleteAt(s, FirstPair(s))
  }

  /** The reader's state after having taken `seen` from the UART: where in a frame it is, and that the buffer holds
      what has arrived of it. */
  ghost predicate ReaderOk(rb: seq<byte>, sum: nat, step: nat, remaining: nat, bodyLen: nat, seen: seq<byte>) {
    && |rb| == BUFFER && LengthOk(seen) && sum <= BUFFER && sum <= |seen|
    && (step == 0 || step == 1)
    && (sum == 0 ==> step == 0 && FirstPair(seen) == |seen| && !EndsInMagic0(seen))
    && (sum == 1 ==> step == 0 && FirstPair(seen) == |seen| && EndsInMagic0(seen) && rb[0] == MAGIC0)
    && (sum >= 2 ==> FirstPair(seen) == |seen| - sum && rb[..sum] == seen[|seen| - sum..])
    && (step == 0 ==> sum <= 3)
    && (sum == 3 ==> step == 0 && bodyLen == rb[2])
    && (step == 1 ==> sum >= 4 && bodyLen == Word(rb[2], rb[3]) && sum + remaining == bodyLen + HEADER + CHECKSUM)
  }

  predicate EndsInMagic0(s: seq<byte>) {
    s != [] && s[|s| - 1] == MAGIC0
  }

  /** Nothing that has arrived can be the beginning of a frame. */
  predicate NothingOfAFrame(s: seq<byte>) {
    !(exists i :: 0 <= i < |s| && s[i] == MAGIC0 && (i + 1 < |s| ==> s[i + 1] == MAGIC1))
  }

  lemma SumTells(rb: seq<byte>, sum: nat, step: nat, remaining: nat, bodyLen: nat, seen: seq<byte>)
    requires ReaderOk(rb, sum, step, remaining, bodyLen, seen)
    ensures sum == 0 <==> NothingOfAFrame(seen)
    ensures step == 1 ==> sum >= 4
  {
    hide FirstPair;
    if sum == 1 {
      assert seen[|seen| - 1] == MAGIC0;
    } else if sum >= 2 {
      var p := FirstPair(seen);
      assert seen[p] == MAGIC0 && seen[p + 1] == MAGIC1;
    }
  }

  lemma FrameFits(rb: seq<byte>, sum: nat, step: nat, remaining: nat, bodyLen: nat, seen: seq<byte>)
    requires ReaderOk(rb, sum, step, remaining, bodyLen, seen) && step == 1
    ensures bodyLen <= MAX_BODY && sum + remaining <= MAX_BODY + HEADER + CHECKSUM < |rb| && 4 <= sum
  {
    var p := |seen| - sum;
    assert rb[..sum][2] == seen[p..][2] && rb[..sum][3] == seen[p..][3];
  }

  lemma FillKeeps(rb: seq<byte>, rb': seq<byte>, sum: nat, remaining: nat, bodyLen: nat, seen: seq<byte>, d: seq<byte>)
    requires ReaderOk(rb, sum, 1, remaining, bodyLen, seen) && |d| <= remaining
    requires |rb'| == |rb| && sum + |d| <= |rb| && 4 <= sum
    requires forall i | 0 <= i < |rb| :: rb'[i] == if sum <= i < sum + |d| then d[i - sum] else rb[i]
    ensures ReaderOk(rb', sum + |d|, 1, remaining - |d|, bodyLen, seen + d)
  {
    hide Word;
    PairStays(seen, d);
    assert rb'[..sum + |d|] == rb[..sum] + d;
    assert (seen + d)[|seen| - sum..] == seen[|seen| - sum..] + d;
  }

  lemma RoomLeft(rb: seq<byte>, sum: nat, step: nat, remaining: nat, bodyLen: nat, seen: seq<byte>)
    requires ReaderOk(rb, sum, step, remaining, bodyLen, seen) && !CompleteFrame(seen)
    ensures sum < BUFFER && (step == 0 || step == 1)
    ensures step == 1 ==> remaining > 0
  {
    if step == 1 {
      FrameFits(rb, sum, step, remaining, bodyLen, seen);
      LengthFromBuffer(rb, sum, seen);
    }
  }

  /** From the fourth byte on, buffer and stream agree on the announced length. */
  lemma LengthFromBuffer(rb: seq<byte>, sum: nat, seen: seq<byte>)
    requires 4 <= sum <= |rb| && sum <= |seen| && rb[..sum] == seen[|seen| - sum..]
    ensures var p := |seen| - sum;
            Word(rb[2], rb[3]) == Word(seen[p + 2], seen[p + 3]) && rb[0] == seen[p] && rb[1] == seen[p + 1]
  {
    var p := |seen| - sum;
    forall i | 0 <= i < 4 ensures rb[i] == seen[p + i] {
      assert rb[..sum][i] == seen[p..][i];
    }
  }

  lemma FrameComplete(rb: seq<byte>, sum: nat, step: nat, remaining: nat, bodyLen: nat, seen: seq<byte>)
    requires ReaderOk(rb, sum, step, remaining, bodyLen, seen) && step == 1 && sum == bodyLen + HEADER + CHECKSUM
    ensures CompleteFrame(seen) && sum == |seen| - FirstPair(seen) && rb[..sum] == seen[|seen| - sum..] && sum <= BUFFER
  {
    hide Word;
    LengthFromBuffer(rb, sum, seen);
  }

  lemma NotYetComplete(rb: seq<byte>, sum: nat, step: nat, remaining: nat, bodyLen: nat, seen: seq<byte>)
    requires ReaderOk(rb, sum, step, remaining, bodyLen, seen) && (step == 1 ==> sum != bodyLen + HEADER + CHECKSUM)
    ensures !CompleteFrame(seen)
  {
    hide Word;
    if step == 1 { LengthFromBuffer(rb, sum, seen); }
  }

  lemma LengthOkPrefix(s: seq<byte>, t: seq<byte>)
    requires LengthOk(s + t)
    ensures LengthOk(s)
  {
    hide FirstPair;
    if FirstPair(s) + 3 < |s| {
      PairStays(s, t);
    }
  }

  /** What has arrived of a frame when the time runs out is never accepted: even if fewer than four bytes are there
      and the length is read from an old frame, the count is too small. */
  lemma PartialIsBroken(rb: seq<byte>, sum: nat, step: nat, remaining: nat, bodyLen: nat, seen: seq<byte>)
    requires ReaderOk(rb, sum, step, remaining, bodyLen, seen) && !CompleteFrame(seen)
    ensures sum <= |rb| && 4 <= |rb| && Check(rb, sum) == Broken
  {
    if sum >= 4 {
      LengthFromBuffer(rb, sum, seen);
      RoomLeft(rb, sum, step, remaining, bodyLen, seen);
    }
  }

  lemma ZeroIsBroken(rb: seq<byte>)
    requires |rb| >= 4
    ensures Check(rb, 0) == Broken
  {
  }

  lemma HuntRange(rb: seq<byte>, sum: nat, step: nat, remaining: nat, bodyLen: nat, seen: seq<byte>)
    requires ReaderOk(rb, sum, step, remaining, bodyLen, seen)
    ensures |rb| == BUFFER && (step == 0 ==> sum <= 3) && (sum == 3 ==> bodyLen == rb[2])
    ensures sum == 1 ==> rb[0] == MAGIC0
  {
  }

  lemma HuntFirst(rb: seq<byte>, remaining: nat, bodyLen: nat, seen: seq<byte>, b: byte)
    requires ReaderOk(rb, 0, 0, remaining, bodyLen, seen) && LengthOk(seen + [b])
    ensures ReaderOk(rb[0 := b], if b == MAGIC0 then 1 else 0, 0, remaining, bodyLen, seen + [b])
  {
    PairAfter(seen, b);
  }

  lemma HuntSecond(rb: seq<byte>, remaining: nat, bodyLen: nat, seen: seq<byte>, b: byte)
    requires ReaderOk(rb, 1, 0, remaining, bodyLen, seen) && LengthOk(seen + [b])
    ensures ReaderOk(rb[1 := b], if b == MAGIC1 then 2 else if b == MAGIC0 then 1 else 0, 0, remaining, bodyLen,
            seen + [b])
    ensures b == MAGIC0 ==> rb[1 := b][0 := MAGIC0] == rb[1 := b]
  {
    PairAfter(seen, b);
    if b == MAGIC1 {
      assert rb[1 := b][..2] == [MAGIC0, MAGIC1];
      assert (seen + [b])[|seen| - 1..] == [MAGIC0, MAGIC1];
    }
  }

  lemma HuntThird(rb: seq<byte>, remaining: nat, bodyLen: nat, seen: seq<byte>, b: byte)
    requires ReaderOk(rb, 2, 0, remaining, bodyLen, seen) && LengthOk(seen + [b])
    ensures ReaderOk(rb[2 := b], 3, 0, remaining, b, seen + [b])
  {
    PairStays(seen, [b]);
    assert rb[2 := b][..3] == rb[..2] + [b];
    assert (seen + [b])[|seen| - 2..] == seen[|seen| - 2..] + [b];
  }

  lemma HuntFourth(rb: seq<byte>, remaining: nat, bodyLen: nat, seen: seq<byte>, b: byte)
    requires ReaderOk(rb, 3, 0, remaining, bodyLen, seen) && LengthOk(seen + [b])
    ensures var len := Word(rb[2], b); ReaderOk(rb[3 := b], 4, 1, len + 7, len, seen + [b])
  {
    hide Word;
    PairStays(seen, [b]);
    assert rb[3 := b][..4] == rb[..3] + [b];
    assert (seen + [b])[|seen| - 3..] == seen[|seen| - 3..] + [b];
  }

  lemma {:induction false} NoPairIs(s: seq<byte>)
    requires forall i | 0 <= i < |s| - 1 :: !(s[i] == MAGIC0 && s[i + 1] == MAGIC1)
    ensures FirstPair(s) == |s|
  {
    if |s| >= 2 {
      assert !(s[0] == MAGIC0 && s[1] == MAGIC1);
      forall i | 0 <= i < |s[1..]| - 1 ensures !(s[1..][i] == MAGIC0 && s[1..][i + 1] == MAGIC1) {
        assert s[1..][i] == s[i + 1] && s[1..][i + 1] == s[i + 2];
      }
      NoPairIs(s[1..]);
    }
  }

  /** One more byte behind a stretch without a pair. */
  lemma PairAfter(s: seq<byte>, b: byte)
    requires FirstPair(s) == |s|
    ensures FirstPair(s + [b]) == if s != [] && s[|s| - 1] == MAGIC0 && b == MAGIC1 then |s| - 1 else |s| + 1
  {
    hide FirstPair;
    var t := s + [b];
    forall i | 0 <= i < |s| - 1 ensures !(t[i] == MAGIC0 && t[i + 1] == MAGIC1) {
      assert t[i] == s[i] && t[i + 1] == s[i + 1];
    }
    if s != [] && s[|s| - 1] == MAGIC0 && b == MAGIC1 {
      FirstPairIs(t, |s| - 1);
    } else {
      NoPairIs(t);
    }
  }

  /** A pair once found stays the first one. */
  lemma PairStays(s: seq<byte>, t: seq<byte>)
    requires FirstPair(s) < |s|
    ensures FirstPair(s + t) == FirstPair(s)
  {
    hide FirstPair;
    var p := FirstPair(s);
    forall i | 0 <= i < p ensures !((s + t)[i] == MAGIC0 && (s + t)[i + 1] == MAGIC1) {
      assert (s + t)[i] == s[i] && (s + t)[i + 1] == s[i + 1];
    }
    FirstPairIs(s + t, p);
  }
}
