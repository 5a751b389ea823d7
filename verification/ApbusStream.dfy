/** What the frame reader makes of a whole byte stream, however the UART chunks it across yields. */
module ApbusStream {
  import opened Bytes
  import opened ApbusCodec
  import opened ApbusReader

  /** Where the frame at the first magic pair ends, or |s| + 1 if the stream stops before that. */
  function FrameEnd(s: seq<byte>): (e: nat)
    ensures e <= |s| ==> FirstPair(s) + HEADER + CHECKSUM <= e
  {
    var p := FirstPair(s);
    if p + 3 < |s| && p + Word(s[p + 2], s[p + 3]) + HEADER + CHECKSUM <= |s|
    then p + Word(s[p + 2], s[p + 3]) + HEADER + CHECKSUM
    else |s| + 1
  }

  /** The frames of a stream: hunt for the first pair, take the announced number of bytes, start again behind them. */
  function Recover(s: seq<byte>): seq<seq<byte>> {
    if FrameEnd(s) <= |s| then [s[FirstPair(s)..FrameEnd(s)]] + Recover(s[FrameEnd(s)..]) else []
  }

  /** No header on the way announces more than the protocol's maximum. */
  predicate LengthsOk(s: seq<byte>)
    decreases |s|
  {
    LengthOk(s) && (FrameEnd(s) <= |s| ==> LengthsOk(s[FrameEnd(s)..]))
  }

  predicate Noise(n: seq<byte>) {
    FirstPair(n) == |n|
  }

  datatype Burst = Burst(noise: seq<byte>, msg: Message)

  predicate Sensible(bs: seq<Burst>) {
    forall i | 0 <= i < |bs| :: Noise(bs[i].noise) && Sendable(bs[i].msg)
  }

  function OnTheWire(bs: seq<Burst>): seq<byte>
    requires Sensible(bs)
  {
    if bs == [] then [] else bs[0].noise + Frame(bs[0].msg) + OnTheWire(bs[1..])
  }

  function FramesOf(bs: seq<Burst>): seq<seq<byte>>
    requires Sensible(bs)
  {
    if bs == [] then [] else [Frame(bs[0].msg)] + FramesOf(bs[1..])
  }

  /** The reader's first pair in noise followed by a frame is the frame's own: noise that ends in BC does not pair
      with the BC of the frame. */
  lemma FirstPairBehindNoise(noise: seq<byte>, f: seq<byte>, rest: seq<byte>)
    requires Noise(noise) && |f| >= 4 && f[0] == MAGIC0 && f[1] == MAGIC1
    requires Word(f[2], f[3]) <= MAX_BODY && |f| == Word(f[2], f[3]) + HEADER + CHECKSUM
    ensures var s := noise + f + rest;
            FirstPair(s) == |noise| && FrameEnd(s) == |noise| + |f| && LengthOk(s)
  {
    hide FirstPair, Word;
    var s := noise + f + rest;
    var p := |noise|;
    forall i | 0 <= i < p ensures !(s[i] == MAGIC0 && s[i + 1] == MAGIC1) {
      assert s[i] == noise[i];
      if i + 1 < p { assert s[i + 1] == noise[i + 1]; }
    }
    assert forall k | 0 <= k < |f| :: s[p + k] == f[k];
    assert s[p + 0] == MAGIC0 && s[p + 1] == MAGIC1;
    FirstPairIs(s, p);
    assert s[p + 2] == f[2] && s[p + 3] == f[3];
  }

  lemma RecoverFirst(noise: seq<byte>, f: seq<byte>, rest: seq<byte>)
    requires Noise(noise) && |f| >= 4 && f[0] == MAGIC0 && f[1] == MAGIC1
    requires Word(f[2], f[3]) <= MAX_BODY && |f| == Word(f[2], f[3]) + HEADER + CHECKSUM
    ensures Recover(noise + f + rest) == [f] + Recover(rest)
    ensures LengthsOk(rest) ==> LengthsOk(noise + f + rest)
  {
    hide FirstPair, Word, FrameEnd, LengthOk;
    var s := noise + f + rest;
    FirstPairBehindNoise(noise, f, rest);
    assert s[|noise|..|noise| + |f|] == f;
    assert s[|noise| + |f|..] == rest;
  }

  /** Frames separated by noise without the magic pair are all recovered, in order. */
  lemma {:induction false} NoisyFramesAreRecovered(bs: seq<Burst>, tail: seq<byte>)
    requires Sensible(bs)
    ensures Recover(OnTheWire(bs) + tail) == FramesOf(bs) + Recover(tail)
    ensures LengthsOk(tail) ==> LengthsOk(OnTheWire(bs) + tail)
  {
    hide Recover, LengthsOk, Frame, Word, Noise, Lo, Hi, Covered;
    if bs == [] {
      assert OnTheWire(bs) + tail == tail;
      assert FramesOf(bs) + Recover(tail) == Recover(tail);
    } else {
      var b, rest := bs[0], OnTheWire(bs[1..]) + tail;
      assert OnTheWire(bs) + tail == b.noise + Frame(b.msg) + rest;
      FrameParts(b.msg);
      WordRoundTrip(|b.msg.body|);
      RecoverFirst(b.noise, Frame(b.msg), rest);
      NoisyFramesAreRecovered(bs[1..], tail);
      assert FramesOf(bs) + Recover(tail) == [Frame(b.msg)] + (FramesOf(bs[1..]) + Recover(tail));
    }
  }

  /** However much of the stream had been read when the frame was complete, it is the stream's first frame. */
  lemma FirstFrameIsUnique(seen: seq<byte>, later: seq<byte>)
    requires CompleteFrame(seen)
    ensures FirstPair(seen + later) == FirstPair(seen) && FrameEnd(seen + later) == |seen|
  {
    hide FirstPair;
    PairStays(seen, later);
  }

  /** The bytes handed to the caller are the first frame of the stream, and what follows it has not been touched. */
  lemma FinishedRead(seen: seq<byte>, later: seq<byte>, s: seq<byte>, frame: seq<byte>)
    requires s == seen + later && CompleteFrame(seen) && |frame| == |seen| - FirstPair(seen)
    requires frame == seen[|seen| - |frame|..]
    ensures FrameEnd(s) <= |s| && frame == s[FirstPair(s)..FrameEnd(s)] && s[FrameEnd(s)..] == later
  {
    hide FirstPair, FrameEnd;
    FirstFrameIsUnique(seen, later);
  }

  function Flatten(cs: seq<seq<byte>>): seq<byte> {
    if cs == [] then [] else cs[0] + Flatten(cs[1..])
  }

  lemma FlattenAll(cs: seq<seq<byte>>)
    ensures cs[0..] == cs
  {
  }

  lemma FlattenNext(cs: seq<seq<byte>>, k: nat)
    requires k < |cs|
    ensures Flatten(cs[k..]) == cs[k] + Flatten(cs[k + 1..])
  {
    assert cs[k..][1..] == cs[k + 1..];
  }

  lemma FlattenAtEnd(cs: seq<seq<byte>>, k: nat)
    requires k <= |cs|
    ensures k == |cs| ==> Flatten(cs[k..]) == []
  {
  }

  /** One whole read, with the UART receiving one chunk during every yield. For every chunking, the caller gets the
      first frame of the stream and the rest of the stream is still there. */
  method ReadFrame(r: Reader, uart: Uart, chunks: seq<seq<byte>>, responseTimeout: nat)
    returns (psum: nat, used: nat)
    requires r.rbuff.Length == BUFFER && responseTimeout > |chunks|
    requires var s := uart.queue + Flatten(chunks); LengthOk(s) && FrameEnd(s) <= |s|
    modifies r, r.rbuff, uart
    ensures used <= |chunks| && psum <= BUFFER
    ensures var s := old(uart.queue) + Flatten(chunks);
            && r.rbuff[..psum] == s[FirstPair(s)..FrameEnd(s)]
            && uart.queue + Flatten(chunks[used..]) == s[FrameEnd(s)..]
  {
    hide LengthOk, CompleteFrame, FirstPair, FrameEnd, ReaderOk, Flatten;
    ghost var s := uart.queue + Flatten(chunks);
    FlattenAll(chunks);
    r.Begin(responseTimeout);
    NothingReadYet();
    used := 0;
    var resumed := false;
    while true
      invariant used <= |chunks| && r.Valid() && !CompleteFrame(r.seen)
      invariant r.seen + uart.queue + Flatten(chunks[used..]) == s
      invariant r.timeout == responseTimeout - (if used == 0 then 0 else used - 1)
      invariant resumed == (used > 0)
      decreases |chunks| - used
    {
      ghost var later := Flatten(chunks[used..]);
      LengthOkPrefix(r.seen + uart.queue, later);
      var o;
      o, psum := r.Poll(uart, true, resumed);
      if o == Finished {
        assert r.seen + uart.queue + later == r.seen + (uart.queue + later);
        FinishedRead(r.seen, uart.queue + later, s, r.rbuff[..psum]);
        return psum, used;
      }
      assert later == [] ==> s == r.seen;
      FlattenAtEnd(chunks, used);
      NeverPastTheFrame(r.rbuff[..], r.sum, r.step, r.remaining, r.bodyLen, r.seen);
      uart.queue := chunks[used];
      FlattenNext(chunks, used);
      used := used + 1;
      resumed := true;
    }
  }

  lemma RecoverStep(s: seq<byte>)
    requires LengthsOk(s) && Recover(s) != []
    ensures LengthOk(s) && FrameEnd(s) <= |s| && LengthsOk(s[FrameEnd(s)..])
    ensures Recover(s) == [s[FirstPair(s)..FrameEnd(s)]] + Recover(s[FrameEnd(s)..])
  {
    hide FirstPair, FrameEnd, LengthOk;
  }

  /** Reading n times recovers the first n frames of the stream, whatever the chunks were. */
  method ReadFrames(r: Reader, uart: Uart, chunks: seq<seq<byte>>, responseTimeout: nat, n: nat)
    returns (frames: seq<seq<byte>>, used: nat)
    requires r.rbuff.Length == BUFFER && responseTimeout > |chunks|
    requires var s := uart.queue + Flatten(chunks); LengthsOk(s) && n <= |Recover(s)|
    modifies r, r.rbuff, uart
    ensures frames == Recover(old(uart.queue) + Flatten(chunks))[..n]
  {
    hide FirstPair, FrameEnd, LengthOk, LengthsOk, Recover, CompleteFrame, ReaderOk, Flatten;
    ghost var s := uart.queue + Flatten(chunks);
    frames, used := [], 0;
    assert chunks[0..] == chunks;
    assert s == uart.queue + Flatten(chunks[0..]);
    for i := 0 to n
      invariant used <= |chunks| && |frames| == i
      invariant var left := uart.queue + Flatten(chunks[used..]);
                LengthsOk(left) && Recover(s) == frames + Recover(left)
    {
      ghost var left := uart.queue + Flatten(chunks[used..]);
      RecoverStep(left);
      var psum, k := ReadFrame(r, uart, chunks[used..], responseTimeout);
      assert chunks[used..][k..] == chunks[used + k..];
      assert frames + ([r.rbuff[..psum]] + Recover(left[FrameEnd(left)..]))
          == frames + [r.rbuff[..psum]] + Recover(left[FrameEnd(left)..]);
      frames, used := frames + [r.rbuff[..psum]], used + k;
    }
  }

  lemma NothingReadYet()
    ensures !CompleteFrame([])
  {
  }

  /** The reader never takes a byte past the frame, so it can only go idle while part of the frame is still to come. */
  lemma NeverPastTheFrame(rb: seq<byte>, sum: nat, step: nat, remaining: nat, bodyLen: nat, seen: seq<byte>)
    requires ReaderOk(rb, sum, step, remaining, bodyLen, seen) && !CompleteFrame(seen)
    ensures FrameEnd(seen) > |seen|
  {
    hide FirstPair, Word;
    if sum >= 4 { LengthFromBuffer(rb, sum, seen); }
  }
}
