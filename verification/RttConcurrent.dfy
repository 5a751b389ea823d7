/** The blocking RTT writer on the target and the host reader, interleaved step by step: the writer samples the
    read offset, copies a chunk byte by byte and publishes its write offset; the host samples both offsets, takes
    bytes one by one and publishes its read offset. Nothing orders the steps of one side relative to the other. */
module RttConcurrent {
  import opened Bytes
  import opened Cyclic
  import opened RttRing

  datatype Writer =
    | Idle
    | Ready                      // about to sample the read offset
    | Copying(n: nat, k: nat)    // k of the n bytes of the chunk are in the buffer

  /** `rd` and `wr` are the host's local offsets and `left` the space in its buffer. `taken` and `limit` count the
      same in absolute terms and do not influence any step. */
  datatype Reader =
    | Resting
    | Reading(rd: nat, wr: nat, left: nat, taken: nat, limit: nat)

  /** `input` is everything handed to the writer so far and `received` everything the host has taken out;
      `published` and `consumed` count the bytes behind the two shared offsets. */
  datatype State = State(buf: seq<byte>, rd: nat, wr: nat, writer: Writer, reader: Reader,
                         input: seq<byte>, received: seq<byte>, published: nat, consumed: nat)

  datatype Step =
    | Call(data: seq<byte>)
    | SampleRead
    | CopyByte
    | PublishWrite
    | Poll(room: nat)
    | TakeByte
    | PublishRead

  predicate InRange(s: State) {
    s.rd < |s.buf| && s.wr < |s.buf| < 0x8000_0000 && s.published <= |s.input|
  }

  predicate Enabled(s: State, step: Step)
    requires InRange(s)
  {
    match step
    case Call(data) => s.writer == Idle
    case SampleRead => s.writer == Ready
    case CopyByte => s.writer.Copying? && s.writer.k < s.writer.n && s.wr + s.writer.k < |s.buf|
                     && s.published + s.writer.k < |s.input|
    case PublishWrite => s.writer.Copying? && s.writer.k == s.writer.n && s.wr + s.writer.n <= |s.buf|
    case Poll(room) => s.reader == Resting
    case TakeByte => s.reader.Reading? && s.reader.rd != s.reader.wr && s.reader.left > 0 && s.reader.rd < |s.buf|
    case PublishRead => s.reader.Reading? && (s.reader.rd == s.reader.wr || s.reader.left == 0)
  }

  function Next(s: State, step: Step): State
    requires InRange(s) && Enabled(s, step)
  {
    match step
    case Call(data) => s.(input := s.input + data, writer := Ready)
    case SampleRead => s.(writer := Copying(ChunkSize(|s.buf|, s.rd, s.wr, |s.input| - s.published), 0))
    case CopyByte =>
      s.(buf := s.buf[s.wr + s.writer.k := s.input[s.published + s.writer.k]],
        writer := Copying(s.writer.n, s.writer.k + 1))
    case PublishWrite =>
      var wr := s.wr + s.writer.n;
      var published := s.published + s.writer.n;
      s.(wr := if wr == |s.buf| then 0 else wr, published := published,
         writer := if published < |s.input| then Ready else Idle)
    case Poll(room) => s.(reader := Reading(s.rd, s.wr, room, 0, s.published))
    case TakeByte =>
      var r := s.reader;
      s.(received := s.received + [s.buf[r.rd]],
         reader := Reading(if r.rd + 1 == |s.buf| then 0 else r.rd + 1, r.wr, r.left - 1, r.taken + 1, r.limit))
    case PublishRead => s.(rd := s.reader.rd, consumed := s.consumed + s.reader.taken, reader := Resting)
  }

  function Initial(buf: seq<byte>): State {
    State(buf, 0, 0, Idle, Resting, [], [], 0, 0)
  }

  /** How many bytes the writer has put into the buffer, published or not. */
  function Filled(s: State): nat {
    s.published + (if s.writer.Copying? then s.writer.k else 0)
  }

  ghost predicate Inv(s: State) {
    var size := |s.buf|;
    && InRange(s)
    && s.rd == Pos(size, s.consumed) && s.wr == Pos(size, s.published)
    && s.consumed <= s.published < s.consumed + size
    && (s.writer == Idle ==> s.published == |s.input|)
    && (s.writer.Copying? ==>
          && s.writer.k <= s.writer.n && s.wr + s.writer.n <= size
          && s.published + s.writer.n <= |s.input| && s.published + s.writer.n < s.consumed + size)
    && (forall c | s.consumed <= c < Filled(s) :: s.buf[Pos(size, c)] == s.input[c])
    && ReaderInv(s)
  }

  ghost predicate ReaderInv(s: State)
    requires InRange(s)
  {
    if s.reader.Resting? then s.consumed <= |s.input| && s.received == s.input[..s.consumed]
    else
      var r := s.reader;
      && r.rd == Pos(|s.buf|, s.consumed + r.taken) && r.wr == Pos(|s.buf|, r.limit)
      && s.consumed + r.taken <= r.limit <= s.published
      && s.received == s.input[..s.consumed + r.taken]
  }

  /** The byte the writer stores next goes to an offset that no unread byte occupies. */
  lemma NoUnreadByteOverwritten(s: State)
    requires Inv(s) && Enabled(s, CopyByte)
    ensures forall c | s.consumed <= c < Filled(s) :: Pos(|s.buf|, c) != s.wr + s.writer.k
    ensures s.wr + s.writer.k == Pos(|s.buf|, Filled(s))
  {
    PosAdd(|s.buf|, s.published, s.writer.k);
    forall c | s.consumed <= c < Filled(s) ensures Pos(|s.buf|, c) != s.wr + s.writer.k {
      PosTells(|s.buf|, c, Filled(s));
    }
  }

  /** What the host takes next is the next byte of the stream. */
  lemma TakesTheNextByte(s: State)
    requires Inv(s) && Enabled(s, TakeByte)
    ensures s.consumed + s.reader.taken < s.reader.limit
    ensures s.buf[s.reader.rd] == s.input[s.consumed + s.reader.taken]
  {
    PosTells(|s.buf|, s.consumed + s.reader.taken, s.reader.limit);
  }

  lemma CopyKeeps(s: State)
    requires Inv(s) && Enabled(s, CopyByte)
    ensures Inv(Next(s, CopyByte))
  {
    hide Pos, Pending;
    NoUnreadByteOverwritten(s);
    var s' := Next(s, CopyByte);
    forall c | s'.consumed <= c < Filled(s') ensures s'.buf[Pos(|s'.buf|, c)] == s'.input[c] {}
  }

  lemma TakeKeeps(s: State)
    requires Inv(s) && Enabled(s, TakeByte)
    ensures Inv(Next(s, TakeByte))
  {
    hide Pos, Pending;
    TakesTheNextByte(s);
    PosNext(|s.buf|, s.consumed + s.reader.taken);
    var c := s.consumed + s.reader.taken;
    assert s.input[..c + 1] == s.input[..c] + [s.input[c]];
  }

  lemma PublishWriteKeeps(s: State)
    requires Inv(s) && Enabled(s, PublishWrite)
    ensures Inv(Next(s, PublishWrite))
  {
    PosAdd(|s.buf|, s.published, s.writer.n);
    hide Pos, Pending;
  }

  lemma SampleKeeps(s: State)
    requires Inv(s) && Enabled(s, SampleRead)
    ensures Inv(Next(s, SampleRead))
    ensures Next(s, SampleRead).writer.n == 0 <==> s.published == |s.input| || s.published == s.consumed + |s.buf| - 1
  {
    PosTells(|s.buf|, s.consumed, s.published);
  }

  lemma CallKeeps(s: State, data: seq<byte>)
    requires Inv(s) && Enabled(s, Call(data))
    ensures Inv(Next(s, Call(data)))
  {
    hide Pos, Pending;
    assert s.reader.Resting? ==> (s.input + data)[..s.consumed] == s.input[..s.consumed];
    if s.reader.Reading? {
      var k := s.consumed + s.reader.taken;
      assert (s.input + data)[..k] == s.input[..k];
    }
  }

  lemma PollKeeps(s: State, room: nat)
    requires Inv(s) && Enabled(s, Poll(room))
    ensures Inv(Next(s, Poll(room)))
  {
    hide Pos, Pending;
  }

  lemma PublishReadKeeps(s: State)
    requires Inv(s) && Enabled(s, PublishRead)
    ensures Inv(Next(s, PublishRead))
  {
    hide Pos, Pending;
  }

  lemma StepKeeps(s: State, step: Step)
    requires Inv(s) && Enabled(s, step)
    ensures Inv(Next(s, step))
  {
    hide Inv, Next, Enabled, Pos, Pending;
    match step
    case Call(data) => CallKeeps(s, data);
    case SampleRead => SampleKeeps(s);
    case CopyByte => CopyKeeps(s);
    case PublishWrite => PublishWriteKeeps(s);
    case Poll(room) => PollKeeps(s, room);
    case TakeByte => TakeKeeps(s);
    case PublishRead => PublishReadKeeps(s);
  }

  /** Any interleaving: each step is taken only where its side is ready for it. */
  ghost predicate IsRun(s: State, steps: seq<Step>)
    decreases |steps|
  {
    steps == [] || (InRange(s) && Enabled(s, steps[0]) && IsRun(Next(s, steps[0]), steps[1..]))
  }

  ghost function After(s: State, steps: seq<Step>): State
    requires IsRun(s, steps)
    decreases |steps|
  {
    if steps == [] then s else After(Next(s, steps[0]), steps[1..])
  }

  lemma {:induction false} RunKeeps(s: State, steps: seq<Step>)
    requires Inv(s) && IsRun(s, steps)
    ensures Inv(After(s, steps))
    decreases |steps|
  {
    if steps != [] {
      StepKeeps(s, steps[0]);
      RunKeeps(Next(s, steps[0]), steps[1..]);
    }
  }

  /** In every interleaving the host has received a prefix of what was written, at most one byte less than the
      buffer holds is pending, and once both sides rest with equal offsets nothing is missing. */
  lemma EveryRunIsFaithful(buf: seq<byte>, steps: seq<Step>)
    requires 0 < |buf| < 0x8000_0000 && IsRun(Initial(buf), steps)
    ensures var s := After(Initial(buf), steps);
            && s.received <= s.input
            && s.consumed <= s.published <= |s.input| && s.published - s.consumed <= |buf| - 1
            && (s.writer == Idle && s.reader == Resting && s.rd == s.wr ==> s.received == s.input)
  {
    RunKeeps(Initial(buf), steps);
    var s := After(Initial(buf), steps);
    SizeKept(Initial(buf), steps);
    PosTells(|s.buf|, s.consumed, s.published);
  }

  lemma {:induction false} SizeKept(s: State, steps: seq<Step>)
    requires IsRun(s, steps)
    ensures |After(s, steps).buf| == |s.buf|
    decreases |steps|
  {
    if steps != [] { SizeKept(Next(s, steps[0]), steps[1..]); }
  }

  /** The writer never gets stuck while the host keeps reading: when the ring has been emptied, a sample yields a
      chunk as long as there is data left. */
  lemma EmptyRingMeansProgress(s: State)
    requires Inv(s) && Enabled(s, SampleRead) && s.consumed == s.published < |s.input| && |s.buf| > 1
    ensures Next(s, SampleRead).writer.n > 0
  {
    SampleKeeps(s);
  }
}
