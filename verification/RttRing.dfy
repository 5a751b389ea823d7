/** The SEGGER RTT ring buffers: non-blocking, blocking and overwriting writers and the two-chunk reader. */
module RttRing {
  import opened Bytes
  import opened Cyclic

  // The modes of a buffer
  const SKIP: nat := 0
  const TRIM: nat := 1
  const BLOCK: nat := 2

  /** Unsigned 32-bit arithmetic. */
  function U32(x: int): (r: nat)
    ensures r < 0x1_0000_0000
    ensures 0 <= x < 0x1_0000_0000 ==> r == x
    ensures -0x1_0000_0000 <= x < 0 ==> r == x + 0x1_0000_0000
    ensures 0x1_0000_0000 <= x < 0x2_0000_0000 ==> r == x - 0x1_0000_0000
  {
    x % 0x1_0000_0000
  }

  function Min(a: nat, b: nat): nat { if a < b then a else b }

  /** The bytes waiting in the ring, oldest first. */
  function Fifo(b: seq<byte>, rd: nat, wr: nat): (s: seq<byte>)
    requires rd < |b| && wr < |b|
    ensures |s| == Pending(|b|, rd, wr)
    ensures forall k | 0 <= k < |s| :: s[k] == b[Wrap(|b|, rd + k)]
  {
    seq(Pending(|b|, rd, wr), k requires 0 <= k < Pending(|b|, rd, wr) => b[Wrap(|b|, rd + k)])
  }

  /** The two chunks of a read together take all that is waiting, as far as there is room. */
  lemma ReadSizes(size: nat, rd: nat, wr: nat, room: nat)
    requires rd < size && wr < size < 0x8000_0000
    ensures var n1 := if rd > wr then Min(size - rd, room) else 0;
            var rd1 := if rd + n1 == size then 0 else rd + n1;
            && n1 <= room && rd + n1 <= size
            && var n2 := Min(U32(wr - rd1), room - n1);
               && n1 + n2 == Min(room, Pending(size, rd, wr)) <= Pending(size, rd, wr)
               && (n1 > 0 && n2 > 0 ==> rd + n1 == size) && rd1 + n2 < size && n2 <= room - n1
  {
  }

  /** A first chunk up to the end of the buffer and a second one from where that leads to are the oldest bytes. */
  lemma TwoChunks(b: seq<byte>, rd: nat, wr: nat, n1: nat, n2: nat)
    requires rd < |b| && wr < |b| && rd + n1 <= |b| && n1 + n2 <= Pending(|b|, rd, wr)
    requires n1 > 0 && n2 > 0 ==> rd + n1 == |b|
    requires var rd1 := if rd + n1 == |b| then 0 else rd + n1; rd1 + n2 < |b|
    ensures var rd1 := if rd + n1 == |b| then 0 else rd + n1;
            && b[rd..rd + n1] + b[rd1..rd1 + n2] == Fifo(b, rd, wr)[..n1 + n2]
            && rd1 + n2 == Wrap(|b|, rd + (n1 + n2)) && (n1 + n2 == 0 ==> Wrap(|b|, rd + (n1 + n2)) == rd)
  {
  }

  /** Storing d from offset wr on, continuing at the start of the buffer and there on top of what has been stored. */
  function Stored(b: seq<byte>, wr: nat, d: seq<byte>): (r: seq<byte>)
    requires wr < |b|
    ensures |r| == |b|
  {
    seq(|b|, i requires 0 <= i < |b| =>
      if i + |b| < wr + |d| then d[i + |b| - wr] else if wr <= i < wr + |d| then d[i - wr] else b[i])
  }

  /** Storing into the free space appends, and leaves what was waiting as it was. */
  lemma StoredAppends(b: seq<byte>, rd: nat, wr: nat, d: seq<byte>)
    requires rd < |b| && wr < |b| && Pending(|b|, rd, wr) + |d| < |b|
    ensures Fifo(Stored(b, wr, d), rd, Wrap(|b|, wr + |d|)) == Fifo(b, rd, wr) + d
  {
    var n := Pending(|b|, rd, wr);
    forall k | 0 <= k < n + |d|
      ensures Stored(b, wr, d)[Wrap(|b|, rd + k)] == (Fifo(b, rd, wr) + d)[k]
    {
    }
  }

  /** Storing a buffer full or more leaves its last bytes, all but one, behind the offset reached. */
  lemma StoredLast(b: seq<byte>, wr: nat, d: seq<byte>)
    requires wr < |b| <= |d| && wr + |d| < 2 * |b| - 1
    ensures var end := wr + |d| - |b|; Fifo(Stored(b, wr, d), end + 1, end) == d[|d| - (|b| - 1)..]
  {
    var end := wr + |d| - |b|;
    var s, t := Fifo(Stored(b, wr, d), end + 1, end), d[|d| - (|b| - 1)..];
    assert forall k | 0 <= k < |b| - 1 :: s[k] == t[k];
  }

  /** Moving the read offset on by n drops the n oldest bytes. */
  lemma AdvanceDrops(b: seq<byte>, rd: nat, wr: nat, n: nat)
    requires rd < |b| && wr < |b| && n <= Pending(|b|, rd, wr)
    ensures Fifo(b, Wrap(|b|, rd + n), wr) == Fifo(b, rd, wr)[n..]
  {
  }

  class Ring {
    var buf: array<byte>
    var rdOff: nat
    var wrOff: nat
    var flags: nat

    ghost predicate Valid()
      reads this
    {
      rdOff < buf.Length && wrOff < buf.Length < 0x8000_0000
    }

    ghost function Contents(): seq<byte>
      requires Valid()
      reads this, buf
    {
      Fifo(buf[..], rdOff, wrOff)
    }

    constructor (size: nat, flags: nat)
      requires 0 < size < 0x8000_0000
      ensures Valid() && fresh(buf) && buf.Length == size && Contents() == [] && this.flags == flags
      ensures rdOff == wrOff == 0
    {
      buf := new byte[size](i => 0);
      rdOff, wrOff, this.flags := 0, 0, flags;
    }

    /** SEGGER_RTT_MEMCPY into the buffer. */
    method CopyIn(off: nat, d: seq<byte>)
      requires off + |d| <= buf.Length
      modifies buf
      ensures forall i | 0 <= i < buf.Length :: buf[i] == if off <= i < off + |d| then d[i - off] else old(buf[i])
    {
      forall i | 0 <= i < |d| { buf[off + i] := d[i]; }
    }

    /** _GetAvailWriteSpace. */
    method GetAvailWriteSpace() returns (r: nat)
      requires Valid()
      ensures r == buf.Length - 1 - |Contents()|
    {
      if rdOff <= wrOff {
        r := U32(U32(buf.Length - 1 - wrOff) + rdOff);
      } else {
        r := U32(rdOff - wrOff - 1);
      }
    }

    /** _WriteNoCheck: the caller has made sure that the data fits. */
    method WriteNoCheck(d: seq<byte>)
      requires Valid() && |Contents()| + |d| < buf.Length
      modifies this`wrOff, buf
      ensures Valid() && buf[..] == Stored(old(buf[..]), old(wrOff), d) && wrOff == Wrap(buf.Length, old(wrOff) + |d|)
      ensures Contents() == old(Contents()) + d
    {
      ghost var b, wr := buf[..], wrOff;
      var rem := buf.Length - wrOff;
      if rem > |d| {
        CopyIn(wrOff, d);
        wrOff := wrOff + |d|;
      } else {
        CopyIn(wrOff, d[..rem]);
        CopyIn(0, d[rem..]);
        wrOff := |d| - rem;
      }
      assert buf[..] == Stored(b, wr, d);
      StoredAppends(b, rdOff, wr, d);
    }

    /** The host takes up to n of the waiting bytes. */
    method HostReads(n: nat) returns (data: seq<byte>)
      requires Valid()
      modifies this`rdOff
      ensures Valid() && |data| == Min(n, old(|Contents()|))
      ensures data == old(Contents())[..|data|] && Contents() == old(Contents())[|data|..]
    {
      data := ReadNoLock(Min(n, buf.Length));
    }

    /** One round of the blocking writer: a chunk is copied and the write offset published. */
    method CopyChunk(d: seq<byte>)
      requires Valid() && wrOff + |d| <= buf.Length && |Contents()| + |d| < buf.Length
      modifies this`wrOff, buf
      ensures Valid() && Contents() == old(Contents()) + d
      ensures buf[..] == Stored(old(buf[..]), old(wrOff), d) && wrOff == Wrap(buf.Length, old(wrOff) + |d|)
    {
      ghost var b, wr := buf[..], wrOff;
      CopyIn(wrOff, d);
      assert buf[..] == Stored(b, wr, d);
      StoredAppends(b, rdOff, wr, d);
      wrOff := if wrOff + |d| == buf.Length then 0 else wrOff + |d|;
    }

    /** _WriteBlocking while the host reads: it takes host[k] bytes before the k-th sample of its offset, and `taken` is
        what it gets. `done` is false if the writer has come to wait for a host that reads no more. It gets done exactly
        if the host makes enough room, and nothing is lost or reordered either way. */
    method WriteBlocking(d: seq<byte>, host: seq<nat>) returns (written: nat, taken: seq<byte>, done: bool)
      requires Valid()
      modifies this`wrOff, this`rdOff, buf
      ensures Valid() && written <= |d| && taken + Contents() == old(Contents()) + d[..written]
      ensures done <==> written == |d|
      ensures done <==> old(|Contents()|) + |d| - |taken| < buf.Length
      ensures host == [] ==> taken == []
    {
      hide Stored, Fifo, Wrap, Pending, ChunkSize;
      written, taken, done := 0, [], true;
      var rest, left := d, host;
      ghost var c0 := Contents();
      assert d[..0] == [] && [] + Contents() == c0 + [];
      while true
        invariant Valid() && buf == old(buf) && written <= |d| && rest == d[written..] && done
        invariant taken + Contents() == c0 + d[..written]
        invariant host == [] ==> left == [] && taken == []
        decreases |left|, |rest|
      {
        var had := |left|;
        ghost var was := Contents();
        if |left| > 0 {
          var data := HostReads(left[0]);
          Passed(taken, was, |data|);
          taken, left := taken + data, left[1..];
        }
        ContentsLength();
        var n := ChunkSize(buf.Length, rdOff, wrOff, |rest|);
        ghost var now := Contents();
        CopyChunk(rest[..n]);
        CopiedOn(taken, now, c0, d, written, n);
        written := written + n;
        rest := rest[n..];
        if |rest| == 0 { break; }
        if n == 0 && had == 0 {
          done := false;
          break;
        }
      }
      ContentsLength();
    }

    lemma ContentsLength()
      requires Valid()
      ensures |Contents()| == Pending(buf.Length, rdOff, wrOff)
    {
    }

    /** Copying the next piece to where the last one ended, or over the start of the buffer. */
    method CopyPiece(ghost b: seq<byte>, ghost wr0: nat, ghost d: seq<byte>, e: seq<byte>, ghost k: nat)
      requires wr0 < |b| == buf.Length && 1 < |b| && wrOff + |e| <= |b| && Laid(buf[..], b, wr0, d, k, wrOff)
      requires if |d| == 0 then k == 0 && wrOff == wr0
               else wrOff == 0 && |e| < |b| && (k == 0 ==> |d| == |b| - wr0)
      modifies buf
      ensures if |d| > 0 && |e| == |b| - 1 then Laid(buf[..], b, wr0, d + e, k + 1, 0)
              else Laid(buf[..], b, wr0, d + e, k, if k > 0 then |e| else 0)
    {
      hide Stored, Lapped;
      ghost var before := buf[..];
      CopyIn(wrOff, e);
      if |d| > 0 && |e| == |b| - 1 {
        LapDone(b, before, buf[..], d, e, wr0, k == 0);
      } else if k > 0 {
        LapsOn(before, buf[..], d, e, wr0);
      } else {
        StoredExtends(b, wr0, d, e, before, buf[..]);
      }
    }

    /** SEGGER_RTT_WriteNoLock and its twin for down buffers. The host only matters to the mode that blocks. */
    method WriteNoLock(d: seq<byte>, host: seq<nat>) returns (status: nat, taken: seq<byte>, done: bool)
      requires Valid()
      modifies this`wrOff, this`rdOff, buf
      ensures Valid() && status <= |d| && taken + Contents() == old(Contents()) + d[..status]
      ensures flags == BLOCK ==> (done <==> status == |d|) && (done <==> old(|Contents()|) + |d| - |taken| < buf.Length)
      ensures flags != BLOCK ==>
                && done && taken == [] && rdOff == old(rdOff)
                && buf[..] == Stored(old(buf[..]), old(wrOff), d[..status])
                && wrOff == Wrap(buf.Length, old(wrOff) + status)
                && status == if flags == SKIP then (if old(|Contents()|) + |d| < buf.Length then |d| else 0)
                             else if flags == TRIM then Min(|d|, buf.Length - 1 - old(|Contents()|)) else 0
    {
      hide Stored, Fifo, Wrap, Pending;
      status, taken, done := 0, [], true;
      if flags == SKIP {
        var avail := GetAvailWriteSpace();
        if avail < |d| {
          status := 0;
        } else {
          status := |d|;
          assert d[..status] == d;
          WriteNoCheck(d);
        }
      } else if flags == TRIM {
        var avail := GetAvailWriteSpace();
        status := if avail < |d| then avail else |d|;
        WriteNoCheck(d[..status]);
      } else if flags == BLOCK {
        status, taken, done := WriteBlocking(d, host);
      } else {
        status := 0;
      }
      if status == 0 { NothingStored(old(buf[..]), old(wrOff)); }
    }

    /** SEGGER_RTT_WriteSkipNoLock: the hand-optimised form of the skip mode. */
    method WriteSkipNoLock(d: seq<byte>) returns (ok: bool)
      requires Valid()
      modifies this`wrOff, buf
      ensures Valid() && ok == (old(|Contents()|) + |d| < buf.Length)
      ensures var e := if ok then d else [];
              && Contents() == old(Contents()) + e
              && buf[..] == Stored(old(buf[..]), old(wrOff), e) && wrOff == Wrap(buf.Length, old(wrOff) + |e|)
    {
      ghost var b, wr := buf[..], wrOff;
      NothingStored(b, wr);
      if rdOff <= wrOff {
        var avail := buf.Length - wrOff - 1;
        if avail >= |d| {
          CopyIn(wrOff, d);
          wrOff := wrOff + |d|;
          assert buf[..] == Stored(b, wr, d);
          StoredAppends(b, rdOff, wr, d);
          return true;
        }
        avail := avail + rdOff;
        if avail >= |d| {
          var rem := buf.Length - wrOff;
          CopyIn(wrOff, d[..rem]);
          var left := |d| - rem;
          if left > 0 { CopyIn(0, d[rem..]); }
          wrOff := left;
          assert buf[..] == Stored(b, wr, d);
          StoredAppends(b, rdOff, wr, d);
          return true;
        }
      } else {
        var avail := rdOff - wrOff - 1;
        if avail >= |d| {
          CopyIn(wrOff, d);
          wrOff := wrOff + |d|;
          assert buf[..] == Stored(b, wr, d);
          StoredAppends(b, rdOff, wr, d);
          return true;
        }
      }
      ok := false;
    }

    /** SEGGER_RTT_ReadUpBufferNoLock and SEGGER_RTT_ReadNoLock: up to two chunks, the second of which is sized by
        an unsigned difference that wraps around when the first chunk has used up the caller's buffer. */
    method ReadNoLock(bufferSize: nat) returns (data: seq<byte>)
      requires Valid() && bufferSize < 0x1_0000_0000
      modifies this`rdOff
      ensures Valid() && |data| == Min(bufferSize, old(|Contents()|))
      ensures data == old(Contents())[..|data|] && Contents() == old(Contents())[|data|..]
    {
      hide Fifo, Wrap, Pending, U32, Min;
      ghost var b, rd0 := buf[..], rdOff;
      ContentsLength();
      ReadSizes(buf.Length, rdOff, wrOff, bufferSize);
      var rd, wr, left, rem := rdOff, wrOff, bufferSize, 0;
      data, rd := FirstChunk(bufferSize);
      left := left - |data|;
      ghost var n1 := |data|;
      rem := Min(U32(wr - rd), left);
      TwoChunks(b, rd0, wr, n1, rem);
      if rem > 0 {
        data := data + buf[rd..rd + rem];
        left := left - rem;
        rd := rd + rem;
      }
      if |data| > 0 { rdOff := rd; }
      assert rdOff == Wrap(|b|, rd0 + |data|);
      AdvanceDrops(b, rd0, wrOff, |data|);
    }

    /** The first chunk of a read, up to the end of the buffer, if what is waiting goes on at its start. */
    method FirstChunk(room: nat) returns (data: seq<byte>, rd: nat)
      requires Valid()
      ensures |data| == if rdOff > wrOff then Min(buf.Length - rdOff, room) else 0
      ensures rdOff + |data| <= buf.Length && data == buf[..][rdOff..rdOff + |data|]
      ensures rd == if rdOff + |data| == buf.Length then 0 else rdOff + |data|
    {
      rd, data := rdOff, [];
      if rd > wrOff {
        var rem := Min(buf.Length - rd, room);
        data := buf[rd..rd + rem];
        rd := rd + rem;
        if rd == buf.Length { rd := 0; }
      }
    }

    /** SEGGER_RTT_WriteWithOverwriteNoLock: the oldest bytes make room, so that the ring holds the last ones of all.
        That is so as long as the data does not reach the end of the buffer but one for a second time. From then on each
        further round stops one byte short of the end, and the write offset lags behind where the read offset takes it
        to be: after one such round the ring looks empty, and whenever it looks full again it holds a byte of the first
        round in the midst of the newest. Where those happen to be all the same byte nobody can tell. */
    method WriteWithOverwrite(d: seq<byte>)
      requires Valid() && 1 < buf.Length && |d| < 0x8000_0000
      modifies this`rdOff, this`wrOff, buf
      ensures Valid() && buf == old(buf)
      ensures var all, q := old(Contents()) + d, Rounds(buf.Length, old(wrOff) + |d|);
              && (q == 0 ==> IsLastOf(Contents(), all, buf.Length - 1))
              && (q > 0 ==> |Contents()| == Pos(buf.Length, q - 1) && Lapped(buf[..], d, old(wrOff), wrOff))
              && (IsLastOf(Contents(), all, buf.Length - 1) <==>
                  (q == 0 || (|Contents()| == buf.Length - 1 && AllOne(d, buf.Length, old(wrOff), wrOff))))
    {
      ghost var b, rd0, wr0 := buf[..], rdOff, wrOff;
      MakeRoom(|d|);
      Overwrite(d);
      OverwriteResult(b, rd0, wr0, d, rdOff, buf[..], wrOff);
    }

    /** The overwriting writer's look at the space: the read offset goes on by as many bytes as are missing. */
    method MakeRoom(n: nat)
      requires Valid() && n < 0x8000_0000
      modifies this`rdOff
      ensures Valid() && rdOff == Pos(buf.Length, old(rdOff) + Dropped(buf.Length, old(rdOff), wrOff, n))
    {
      hide Pos;
      ghost var rd0, size, drop := rdOff, buf.Length, Dropped(buf.Length, rdOff, wrOff, n);
      var avail: nat;
      if wrOff == rdOff {
        avail := U32(buf.Length - 1);
      } else if wrOff < rdOff {
        avail := U32(rdOff - wrOff - 1);
      } else {
        avail := U32(U32(rdOff - wrOff - 1) + buf.Length);
      }
      if n > avail {
        rdOff := U32(rdOff + (n - avail));
        while rdOff >= buf.Length
          invariant Pos(size, rdOff) == Pos(size, rd0 + drop) && buf == old(buf)
        {
          PosPeriod(size, rdOff - size);
          rdOff := rdOff - buf.Length;
        }
      }
      PosSmall(size, rdOff);
    }

    /** The copy loop of the overwriting writer. */
    method Overwrite(d: seq<byte>)
      requires Valid() && 1 < buf.Length
      modifies this`wrOff, buf
      ensures Valid()
      ensures var q, end := Rounds(buf.Length, old(wrOff) + |d|), old(wrOff) + |d|;
              && Laid(buf[..], old(buf[..]), old(wrOff), d, q, wrOff)
              && (q == 0 ==> wrOff == Wrap(buf.Length, end)) && wrOff == Pos(buf.Length, end + q)
    {
      hide Laid, Pos, Rounds, Contents, Wrap, GoingRound, Fifo, Pending, Stored, Lapped, U32, Min;
      ghost var b, wr0, size := buf[..], wrOff, buf.Length;
      NothingLaid(b, wr0);
      WholeAgain(d, 0);
      var avail: nat, rest := buf.Length - wrOff, d;
      ghost var done: nat, k: nat := 0, 0;
      RoundBegins(size, wr0, |d|);
      while true
        invariant wrOff < buf.Length && buf == old(buf) && done <= |d| && rest == d[done..]
        invariant GoingRound(size, wr0, |d|, done, k, wrOff, avail)
        invariant Laid(buf[..], b, wr0, d[..done], k, wrOff)
        decreases |rest|
      {
        PieceFits(size, wr0, |d|, done, k, wrOff, avail);
        WholeAgain(d, done);
        if avail > |rest| {
          CopyPiece(b, wr0, d[..done], rest, k);
          LastPiece(size, wr0, |d|, done, k, wrOff, avail);
          LaidFirst(buf[..], b, wr0, d, k, |rest|, wrOff + |rest|);
          wrOff := wrOff + |rest|;
          break;
        } else {
          TakenOn(d, done, avail);
          CopyPiece(b, wr0, d[..done], rest[..avail], k);
          FullPiece(size, wr0, |d|, done, k, wrOff, avail);
          wrOff := 0;
          k := if done > 0 then k + 1 else 0;
          done := done + avail;
          rest := rest[avail..];
          avail := buf.Length - 1;
        }
        if |rest| == 0 {
          LastPiece(size, wr0, |d|, done, k, wrOff, avail);
          break;
        }
      }
    }

    /** _PostTerminalSwitch. */
    method PostTerminalSwitch(id: nat, host: seq<nat>) returns (ghost n: nat, taken: seq<byte>, done: bool)
      requires Valid() && id < 16
      modifies this`wrOff, this`rdOff, buf
      ensures Valid() && n <= 2 && taken + Contents() == old(Contents()) + [0xFF, TerminalName(id)][..n]
      ensures (done <==> n == 2) && (done <==> old(|Contents()|) + 2 - |taken| < buf.Length)
      ensures host == [] ==> taken == []
    {
      var w;
      w, taken, done := WriteBlocking([0xFF, TerminalName(id)], host);
      n := w;
    }

    /** SEGGER_RTT_TerminalOut. It always uses the blocking writer; in the modes that must not block only ever with data
        that fits, so that a host is not needed. */
    method TerminalOut(terminal: nat, active: nat, s: seq<byte>, host1: seq<nat>, host2: seq<nat>, host3: seq<nat>)
      returns (status: int, taken: seq<byte>, done: bool, ghost out: seq<byte>)
      requires Valid() && active < 16 && |s| < 0x8000_0000
      modifies this`wrOff, this`rdOff, buf
      ensures Valid() && taken + Contents() == old(Contents()) + out
      ensures var room := buf.Length - 1 - old(|Contents()|);
              var n := if flags % 4 == TRIM then Min(|s|, if room < 4 then 0 else room - 4) else |s|;
              if terminal >= 16 || flags % 4 == 3 || (flags % 4 == TRIM && room < 4) then
                status == -1 && out == [] && done && taken == []
              else if flags % 4 == SKIP && room < |s| + 4 then
                status == 0 && out == [] && done && taken == []
              else
                && Message(terminal, active, s[..n], out, done) && (done ==> status == n)
                && (flags % 4 != BLOCK ==> done && taken == [])
    {
      hide Fifo;
      status, taken, done, out := -1, [], true, [];
      if terminal < 16 {
        var avail := GetAvailWriteSpace();
        if flags % 4 == SKIP {
          if avail < |s| + 4 {
            status := 0;
          } else {
            assert s[..|s|] == s;
            status, taken, done, out := SwitchWriteSwitch(terminal, active, s, [], [], []);
          }
        } else if flags % 4 == TRIM {
          if avail < 4 {
            status := -1;
          } else {
            var n := if |s| < avail - 4 then |s| else avail - 4;
            status, taken, done, out := SwitchWriteSwitch(terminal, active, s[..n], [], [], []);
          }
        } else if flags % 4 == BLOCK {
          assert s[..|s|] == s;
          status, taken, done, out := SwitchWriteSwitch(terminal, active, s, host1, host2, host3);
        } else {
          status := -1;
        }
      } else {
        status := -1;
      }
    }

    /** The three writes that the modes share: where the writer comes to wait, the ones behind are not begun. */
    method SwitchWriteSwitch(terminal: nat, active: nat, s: seq<byte>,
          host1: seq<nat>, host2: seq<nat>, host3: seq<nat>)
      returns (status: nat, taken: seq<byte>, done: bool, ghost out: seq<byte>)
      requires Valid() && active < 16 && terminal < 16
      modifies this`wrOff, this`rdOff, buf
      ensures Valid() && taken + Contents() == old(Contents()) + out && Message(terminal, active, s, out, done)
      ensures done ==> status == |s|
      ensures host1 == host2 == host3 == [] ==> taken == []
      ensures host1 == host2 == host3 == [] && old(|Contents()|) + |s| + 4 < buf.Length ==> done
    {
      hide Fifo;
      status := 0;
      ghost var n1, c0 := 0, Contents();
      n1, taken, done := PostTerminalSwitch(terminal, host1);
      out := [0xFF, TerminalName(terminal)][..n1];
      if !done { return; }
      ghost var c1, t1, o1 := Contents(), taken, out;
      var w, t2, d2 := WriteBlocking(s, host2);
      status, taken, done, out := w, taken + t2, d2, out + s[..w];
      Joined(c0, t1, c1, o1, t2, Contents(), s[..w]);
      if !done { return; }
      ghost var c2, t12, o2, n3 := Contents(), taken, out, 0;
      var t3;
      n3, t3, done := PostTerminalSwitch(active, host3);
      taken, out := taken + t3, out + [0xFF, TerminalName(active)][..n3];
      Joined(c0, t12, c2, o2, t3, Contents(), [0xFF, TerminalName(active)][..n3]);
    }
  }

  /** What has been handed over is a beginning of switch, text and switch back, and all of it when the call is done. */
  ghost predicate Message(terminal: nat, active: nat, s: seq<byte>, out: seq<byte>, done: bool)
    requires terminal < 16 && active < 16
  {
    var all := [0xFF, TerminalName(terminal)] + s + [0xFF, TerminalName(active)];
    out <= all && (done <==> out == all)
  }

  lemma Joined(c0: seq<byte>, t1: seq<byte>, c1: seq<byte>, o1: seq<byte>, t2: seq<byte>, c2: seq<byte>, o2: seq<byte>)
    requires t1 + c1 == c0 + o1 && t2 + c2 == c1 + o2
    ensures (t1 + t2) + c2 == c0 + (o1 + o2)
  {
    assert (t1 + t2) + c2 == t1 + (t2 + c2) == (t1 + c1) + o2;
  }

  /** Seven bytes written over an empty ring of four leave it empty. */
  method SevenIntoFour(d: seq<byte>) returns (ring: Ring)
    requires |d| == 7
    ensures fresh(ring) && ring.Valid() && ring.buf.Length == 4 && ring.Contents() == []
  {
    ring := new Ring(4, SKIP);
    assert Rounds(4, 4) == 0 && Rounds(4, 7) == 1;
    ring.WriteWithOverwrite(d);
  }

  /** _aTerminalId: the hexadecimal digits. */
  function TerminalName(id: nat): (name: byte)
    requires id < 16
    ensures name as int == "0123456789ABCDEF"[id] as int
  {
    if id < 10 then 0x30 + id else 0x41 + (id - 10)
  }

  /** The chunk one round of the blocking writer copies: what is free, up to the end of the buffer, up to what is
      left. */
  function ChunkSize(size: nat, rd: nat, wr: nat, left: nat): (n: nat)
    requires rd < size && wr < size < 0x8000_0000
    ensures n <= left && wr + n <= size && Pending(size, rd, wr) + n < size
    ensures n == 0 <==> left == 0 || Pending(size, rd, wr) == size - 1
    ensures n == left || wr + n == size || Pending(size, rd, wr) + n == size - 1
  {
    var free := if rd > wr then U32(rd - wr - 1) else U32(size - U32(wr - rd + 1));
    Min(Min(free, size - wr), left)
  }

  /** What the host takes from the front goes on the end of what it has. */
  lemma Passed(taken: seq<byte>, waiting: seq<byte>, n: nat)
    requires n <= |waiting|
    ensures (taken + waiting[..n]) + waiting[n..] == taken + waiting
  {
  }

  lemma CopiedOn(taken: seq<byte>, waiting: seq<byte>, before: seq<byte>, d: seq<byte>, written: nat, n: nat)
    requires written + n <= |d| && taken + waiting == before + d[..written]
    ensures var rest := d[written..];
            taken + (waiting + rest[..n]) == before + d[..written + n] && rest[n..] == d[written + n..]
  {
    assert d[..written + n] == d[..written] + d[written..][..n];
    assert taken + (waiting + d[written..][..n]) == (taken + waiting) + d[written..][..n];
  }

  /** The newest bytes of all, as many as there is room for. */
  ghost predicate IsLastOf(s: seq<byte>, all: seq<byte>, room: nat) {
    |s| == Min(|all|, room) && s == all[|all| - |s|..]
  }

  lemma LastOfAll(c: seq<byte>, d: seq<byte>, drop: nat)
    requires drop <= |c|
    ensures c[drop..] + d == (c + d)[|c + d| - |c[drop..] + d|..]
  {
  }

  lemma LastOfMuch(c: seq<byte>, d: seq<byte>, room: nat)
    requires room <= |d|
    ensures IsLastOf(d[|d| - room..], c + d, room)
  {
  }

  // ---------- the rounds of the overwriting writer ----------

  /** How often the writer fills the buffer but for its last byte: m counts from the start of the buffer in which it
      begins. */
  function Rounds(size: nat, m: nat): nat {
    if size <= 1 || m < 2 * size - 1 then 0 else 1 + Rounds(size, m - (size - 1))
  }

  lemma RoundsNone(size: nat, m: nat)
    requires 1 < size
    ensures Rounds(size, m) == 0 <==> m < 2 * size - 1
  {
  }

  lemma PosPeriod(size: nat, c: nat)
    requires size > 0
    ensures Pos(size, c + size) == Pos(size, c)
  {
    PosAdd(size, c, size);
  }

  lemma {:induction false} PosSmall(size: nat, c: nat)
    requires size > 0
    ensures c < size ==> Pos(size, c) == c
  {
    if 0 < c < size { PosSmall(size, c - 1); }
  }

  /** Stream positions k apart lie k apart in the ring, up to whole rings. */
  lemma {:induction false} PendingOf(size: nat, x: nat, k: nat)
    requires size > 0
    ensures Pending(size, Pos(size, x), Pos(size, x + k)) == Pos(size, k)
  {
    if k > 0 {
      PendingOf(size, x, k - 1);
      PosNext(size, x + (k - 1));
      PosNext(size, k - 1);
    }
  }

  /** The overwriting writer between two rounds: `done` of n bytes are stored, and k times the buffer but for its last
      byte has been filled since it first came to the end. */
  ghost predicate GoingRound(size: nat, wr0: nat, n: nat, done: nat, k: nat, wr: nat, avail: nat) {
    && 1 < size && wr0 < size && done <= n
    && if done == 0 then k == 0 && wr == wr0 && avail == size - wr0
       else && wr == 0 && avail == size - 1 && (k == 0 ==> done == size - wr0)
            && k + Rounds(size, size + (n - done)) == Rounds(size, wr0 + n)
            && Pos(size, wr0 + n + k) == Pos(size, size + (n - done))
  }

  lemma RoundBegins(size: nat, wr0: nat, n: nat)
    requires 1 < size && wr0 < size
    ensures GoingRound(size, wr0, n, 0, 0, wr0, size - wr0)
  {
  }

  lemma PieceFits(size: nat, wr0: nat, n: nat, done: nat, k: nat, wr: nat, avail: nat)
    requires GoingRound(size, wr0, n, done, k, wr, avail)
    ensures wr + avail <= size && avail > 0 && (done == 0 ==> k == 0 && wr == wr0)
    ensures done > 0 ==> wr == 0 && avail == size - 1 && (k == 0 ==> done == size - wr0)
    ensures k == 0 ==> wr0 + done < 2 * size && wr == Wrap(size, wr0 + done)
  {
  }

  lemma FullPiece(size: nat, wr0: nat, n: nat, done: nat, k: nat, wr: nat, avail: nat)
    requires GoingRound(size, wr0, n, done, k, wr, avail) && avail <= n - done
    ensures GoingRound(size, wr0, n, done + avail, if done > 0 then k + 1 else 0, 0, size - 1)
  {
    if done > 0 { AnotherRound(size, wr0 + n + k, n - done); }
  }

  lemma LastPiece(size: nat, wr0: nat, n: nat, done: nat, k: nat, wr: nat, avail: nat)
    requires GoingRound(size, wr0, n, done, k, wr, avail) && avail > n - done
    ensures k == Rounds(size, wr0 + n) && wr + (n - done) == Pos(size, wr0 + n + k) < size
    ensures k == 0 ==> wr0 + n < 2 * size && wr + (n - done) == Wrap(size, wr0 + n)
  {
    PosSmall(size, wr0 + n);
    PosPeriod(size, n - done);
    PosSmall(size, n - done);
  }

  lemma AnotherRound(size: nat, m: nat, left: nat)
    requires 1 < size && size - 1 <= left && Pos(size, m) == Pos(size, size + left)
    ensures Rounds(size, size + left) == 1 + Rounds(size, size + (left - (size - 1)))
    ensures Pos(size, m + 1) == Pos(size, size + (left - (size - 1)))
  {
    PosNext(size, m);
    PosNext(size, size + left);
    PosPeriod(size, size + (left - (size - 1)));
  }

  /** Making room for n more bytes takes the read offset to the place behind the write offset that they lead to. */
  lemma PosShift(size: nat, rd0: nat, wr0: nat, n: nat, drop: nat)
    requires rd0 < size && wr0 < size && n >= size - 1 - Pending(size, rd0, wr0)
    requires drop == n - (size - 1 - Pending(size, rd0, wr0))
    ensures Pos(size, rd0 + drop) == Pos(size, wr0 + n + 1)
  {
    PosPeriod(size, rd0 + drop);
    if wr0 < rd0 { PosPeriod(size, wr0 + n + 1); }
  }

  /** How many of the waiting bytes, and of the new ones if need be, there is no room for. */
  function Dropped(size: nat, rd: nat, wr: nat, n: nat): nat
    requires rd < size && wr < size
  {
    var avail := size - 1 - Pending(size, rd, wr);
    if n > avail then n - avail else 0
  }

  /** The buffer after more than one way round: a byte of the first round at the very end, in front of it the last
      full round, and on top of that what the write offset has passed since. */
  ghost predicate Lapped(after: seq<byte>, d: seq<byte>, wr0: nat, wr: nat) {
    var size := |after|;
    && wr0 < size && wr < size - 1 && size - wr0 + (size - 1) + wr <= |d|
    && after[size - 1] == d[size - 1 - wr0]
    && forall i | 0 <= i < size - 1 :: after[i] == d[if i < wr then |d| - wr + i else |d| - wr - (size - 1) + i]
  }

  /** The newest bytes but those that the write offset has passed last are all the one left from the first round. */
  ghost predicate AllOne(d: seq<byte>, size: nat, wr0: nat, wr: nat) {
    && wr0 < size <= |d| + 1 && size - 1 - wr0 < |d|
    && forall j | |d| - (size - 1) <= j < |d| - wr :: d[j] == d[size - 1 - wr0]
  }

  lemma WholeAgain(d: seq<byte>, n: nat)
    requires n <= |d|
    ensures d[..n] + d[n..] == d && d[..|d|] == d && d[..0] == []
  {
  }

  lemma TakenOn(d: seq<byte>, n: nat, k: nat)
    requires n + k <= |d|
    ensures d[..n] + d[n..][..k] == d[..n + k] && d[n..][k..] == d[n + k..]
  {
  }

  /** What the overwriting writer has made of the buffer b after d, with k full rounds behind the first. */
  ghost predicate Laid(after: seq<byte>, b: seq<byte>, wr0: nat, d: seq<byte>, k: nat, wr: nat) {
    wr0 < |b| == |after| && if k == 0 then after == Stored(b, wr0, d) else Lapped(after, d, wr0, wr)
  }

  lemma NothingLaid(b: seq<byte>, wr0: nat)
    requires wr0 < |b|
    ensures Laid(b, b, wr0, [], 0, wr0)
  {
    NothingStored(b, wr0);
  }

  /** On the first way round the write offset does not matter to what has been stored. */
  lemma LaidFirst(after: seq<byte>, b: seq<byte>, wr0: nat, d: seq<byte>, k: nat, wr: nat, wr': nat)
    requires Laid(after, b, wr0, d, k, if k > 0 then wr else 0) && (k > 0 ==> wr == wr')
    ensures Laid(after, b, wr0, d, k, wr')
  {
  }

  lemma LapsOn(before: seq<byte>, after: seq<byte>, d: seq<byte>, e: seq<byte>, wr0: nat)
    requires Lapped(before, d, wr0, 0) && |after| == |before| && |e| < |before| - 1
    requires forall i | 0 <= i < |before| :: after[i] == if i < |e| then e[i] else before[i]
    ensures Lapped(after, d + e, wr0, |e|)
  {
  }

  lemma LapDone(b: seq<byte>, before: seq<byte>, after: seq<byte>, d: seq<byte>, e: seq<byte>, wr0: nat, first: bool)
    requires wr0 < |b| == |before| == |after| && |b| > 1 && |e| == |b| - 1
    requires if first then |d| == |b| - wr0 && before == Stored(b, wr0, d) else Lapped(before, d, wr0, 0)
    requires forall i | 0 <= i < |b| :: after[i] == if i < |e| then e[i] else before[i]
    ensures Lapped(after, d + e, wr0, 0)
  {
  }

  /** A ring that looks full after several rounds: behind the write offset the end of the last full round, the byte left
      from the first, and then the newest. */
  lemma FullAfterLaps(after: seq<byte>, d: seq<byte>, wr0: nat, rd: nat, wr: nat)
    requires Lapped(after, d, wr0, wr) && rd < |after| && Pending(|after|, rd, wr) == |after| - 1
    ensures var n, size := |d|, |after|;
            Fifo(after, rd, wr) == d[n - size + 2..n - wr] + [d[size - 1 - wr0]] + d[n - wr..]
  {
    var n, size := |d|, |after|;
    assert rd == wr + 1;
    var s, t := Fifo(after, rd, wr), d[n - size + 2..n - wr] + [d[size - 1 - wr0]] + d[n - wr..];
    assert |s| == |t|;
    forall k | 0 <= k < size - 1 ensures s[k] == t[k] {
    }
  }

  /** A window that a byte pushed in from behind leaves the same consists of that byte. */
  lemma {:induction false} ShiftedIsConstant(d: seq<byte>, lo: nat, hi: nat, x: byte)
    requires lo < hi <= |d|
    ensures d[lo + 1..hi] + [x] == d[lo..hi] <==> forall j | lo <= j < hi :: d[j] == x
    decreases hi - lo
  {
    var s, t := d[lo + 1..hi] + [x], d[lo..hi];
    if s == t {
      assert s[hi - lo - 1] == x == d[hi - 1];
      if lo + 1 < hi {
        var s', t' := d[lo + 2..hi] + [x], d[lo + 1..hi];
        forall k | 0 <= k < hi - lo - 1 ensures s'[k] == t'[k] {
          assert s[k + 1] == t[k + 1];
        }
        ShiftedIsConstant(d, lo + 1, hi, x);
        assert s[0] == t[0];
      }
    }
  }

  lemma NewestAfterLaps(c: seq<byte>, d: seq<byte>, after: seq<byte>, wr0: nat, rd: nat, wr: nat)
    requires Lapped(after, d, wr0, wr) && rd < |after|
    ensures IsLastOf(Fifo(after, rd, wr), c + d, |after| - 1) <==>
            Pending(|after|, rd, wr) == |after| - 1 && AllOne(d, |after|, wr0, wr)
  {
    hide Fifo;
    var n, size := |d|, |after|;
    if Pending(size, rd, wr) == size - 1 {
      hide Lapped;
      LapSizes(after, d, wr0, wr);
      FullAfterLaps(after, d, wr0, rd, wr);
      var x := d[size - 1 - wr0];
      var lo, hi := n - (size - 1), n - wr;
      ShiftedIsConstant(d, lo, hi, x);
      assert (c + d)[|c + d| - (size - 1)..] == d[lo..] == d[lo..hi] + d[hi..];
      SamePrefix(d[lo + 1..hi] + [x], d[lo..hi], d[hi..]);
    }
  }

  lemma LapSizes(after: seq<byte>, d: seq<byte>, wr0: nat, wr: nat)
    requires Lapped(after, d, wr0, wr)
    ensures wr0 < |after| && wr < |after| - 1 && |after| - wr0 + (|after| - 1) + wr <= |d|
  {
  }

  lemma SamePrefix(a: seq<byte>, b: seq<byte>, c: seq<byte>)
    requires |a| == |b|
    ensures a + c == b + c <==> a == b
  {
    assert (a + c)[..|a|] == a && (b + c)[..|a|] == b;
  }

  lemma OverwriteResult(b: seq<byte>, rd0: nat, wr0: nat, d: seq<byte>, rd: nat, after: seq<byte>, wr: nat)
    requires rd0 < |b| && wr0 < |b| == |after| && 1 < |b| && rd < |b| && wr < |b|
    requires rd == Pos(|b|, rd0 + Dropped(|b|, rd0, wr0, |d|))
    requires var q, end := Rounds(|b|, wr0 + |d|), wr0 + |d|;
             && (q == 0 ==> after == Stored(b, wr0, d) && wr == Wrap(|b|, end)) && wr == Pos(|b|, end + q)
             && (q > 0 ==> Lapped(after, d, wr0, wr))
    ensures var all, q, c := Fifo(b, rd0, wr0) + d, Rounds(|b|, wr0 + |d|), Fifo(after, rd, wr);
            && (q == 0 ==> IsLastOf(c, all, |b| - 1))
            && (q > 0 ==> |c| == Pos(|b|, q - 1) && Lapped(after, d, wr0, wr))
            && (IsLastOf(c, all, |b| - 1) <==> (q == 0 || (|c| == |b| - 1 && AllOne(d, |b|, wr0, wr))))
  {
    hide Rounds, Pos, Stored, Fifo, Dropped, Wrap, Pending, Lapped, AllOne, IsLastOf;
    var q := Rounds(|b|, wr0 + |d|);
    RoundsNone(|b|, wr0 + |d|);
    if q == 0 {
      if |d| < |b| { OverwriteLittle(b, rd0, wr0, d, rd); } else { OverwriteMuch(b, rd0, wr0, d, rd); }
    } else {
      OverwriteLate(|b|, rd0, wr0, |d|, rd, wr, q);
      NewestAfterLaps(Fifo(b, rd0, wr0), d, after, wr0, rd, wr);
    }
  }

  lemma OverwriteLittle(b: seq<byte>, rd0: nat, wr0: nat, d: seq<byte>, rd: nat)
    requires rd0 < |b| && wr0 < |b| && |d| < |b|
    requires rd == Pos(|b|, rd0 + Dropped(|b|, rd0, wr0, |d|))
    ensures IsLastOf(Fifo(Stored(b, wr0, d), rd, Wrap(|b|, wr0 + |d|)), Fifo(b, rd0, wr0) + d, |b| - 1)
  {
    hide Pos, Stored, Fifo;
    var size, drop := |b|, Dropped(|b|, rd0, wr0, |d|);
    PosSmall(size, rd0 + drop);
    if rd0 + drop >= size { PosPeriod(size, rd0 + drop - size); PosSmall(size, rd0 + drop - size); }
    KeepsLast(b, rd0, wr0, d, drop);
    LastOfAll(Fifo(b, rd0, wr0), d, drop);
  }

  lemma OverwriteMuch(b: seq<byte>, rd0: nat, wr0: nat, d: seq<byte>, rd: nat)
    requires rd0 < |b| && wr0 < |b| <= |d| && wr0 + |d| < 2 * |b| - 1
    requires rd == Pos(|b|, rd0 + Dropped(|b|, rd0, wr0, |d|))
    ensures IsLastOf(Fifo(Stored(b, wr0, d), rd, Wrap(|b|, wr0 + |d|)), Fifo(b, rd0, wr0) + d, |b| - 1)
  {
    hide Pos, Stored, Fifo, IsLastOf, Pending;
    PosShift(|b|, rd0, wr0, |d|, Dropped(|b|, rd0, wr0, |d|));
    StoredLast(b, wr0, d);
    PosSmall(|b|, wr0 + |d| + 1 - |b|);
    PosPeriod(|b|, wr0 + |d| + 1 - |b|);
    LastOfMuch(Fifo(b, rd0, wr0), d, |b| - 1);
  }

  lemma OverwriteLate(size: nat, rd0: nat, wr0: nat, n: nat, rd: nat, wr: nat, q: nat)
    requires rd0 < size && wr0 < size && n >= size - 1 && q > 0
    requires rd == Pos(size, rd0 + Dropped(size, rd0, wr0, n)) && wr == Pos(size, wr0 + n + q)
    ensures Pending(size, rd, wr) == Pos(size, q - 1)
  {
    hide Pos, Pending;
    PosShift(size, rd0, wr0, n, Dropped(size, rd0, wr0, n));
    PendingOf(size, wr0 + n + 1, q - 1);
    assert wr0 + n + 1 + (q - 1) == wr0 + n + q;
  }

  /** Less than a buffer full: dropping the oldest and storing behind the rest. */
  lemma KeepsLast(b: seq<byte>, rd0: nat, wr0: nat, d: seq<byte>, drop: nat)
    requires rd0 < |b| && wr0 < |b| && |d| < |b|
    requires drop == if |d| > |b| - 1 - Pending(|b|, rd0, wr0) then |d| - (|b| - 1 - Pending(|b|, rd0, wr0)) else 0
    ensures Fifo(Stored(b, wr0, d), Wrap(|b|, rd0 + drop), Wrap(|b|, wr0 + |d|)) == Fifo(b, rd0, wr0)[drop..] + d
  {
    AdvanceDrops(b, rd0, wr0, drop);
    StoredAppends(b, Wrap(|b|, rd0 + drop), wr0, d);
  }

  lemma NothingStored(b: seq<byte>, wr: nat)
    requires wr < |b|
    ensures Stored(b, wr, []) == b && Wrap(|b|, wr) == wr && Wrap(|b|, |b|) == 0
  {
  }

  /** Copying the next piece to where the last one ended stores the two in a row. */
  lemma StoredExtends(b: seq<byte>, wr: nat, d: seq<byte>, e: seq<byte>, before: seq<byte>, after: seq<byte>)
    requires wr < |b| && wr + |d| < 2 * |b| && before == Stored(b, wr, d) && |after| == |b|
    requires Wrap(|b|, wr + |d|) + |e| <= |b|
    requires var off := Wrap(|b|, wr + |d|);
             forall i | 0 <= i < |b| :: after[i] == if off <= i < off + |e| then e[i - off] else before[i]
    ensures after == Stored(b, wr, d + e)
  {
    forall i | 0 <= i < |b| ensures after[i] == Stored(b, wr, d + e)[i] {}
  }
}
