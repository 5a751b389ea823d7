/** The abstract state of the time-series database, how it relates to flash and to the handle, and how
    each step of an append moves it. */
module TsdbState {
  import opened Bytes
  import opened FlashDevice
  import opened TsdbLayout
  import opened TsdbRing

  /** All sectors oldest first, how many of them hold entries, every record ever accepted, and how many
      of those have been rolled over. */
  datatype Image = Image(oldest: nat, view: seq<Sector>, live: nat, log: seq<Record>, dropped: nat)

  /** Flash holds the image, and what it retains is exactly the suffix of the accepted records. */
  ghost predicate Stored(mem: seq<byte>, size: nat, n: nat, im: Image) {
    && BytesHold(mem, size, n, im.oldest, im.view)
    && im.live <= n && Settled(im.view, im.live)
    && Increasing(im.log) && im.dropped <= |im.log|
    && Records(im.view) == im.log[im.dropped..]
  }

  /** The states between two calls. */
  ghost predicate Quiet(mem: seq<byte>, size: nat, n: nat, im: Image) {
    Stored(mem, size, n, im) && Shape(n, im.oldest, im.view, im.live) && (im.live == 0 ==> im.log == [])
  }

  /** Sector `live` of the view is empty and about to be taken into use. */
  ghost predicate Waiting(mem: seq<byte>, size: nat, n: nat, im: Image) {
    && Stored(mem, size, n, im) && im.live < n
    && (im.live + 1 < n ==> im.oldest == 0)
    && (forall i | 0 <= i < im.live :: im.view[i].store == FULL)
    && (forall i | im.live <= i < n :: im.view[i] == EMPTY_SECTOR)
  }

  /** The last live sector is being written and may not have an entry yet. */
  ghost predicate Open(mem: seq<byte>, size: nat, n: nat, im: Image, time: int) {
    && BytesHold(mem, size, n, im.oldest, im.view)
    && Shape(n, im.oldest, im.view, im.live) && im.live > 0
    && Settled(im.view, im.live - 1)
    && (var sec := im.view[im.live - 1]; sec.start == if sec.entries == [] then time else sec.entries[0].rec.time)
    && Increasing(im.log) && im.dropped <= |im.log| && Records(im.view) == im.log[im.dropped..]
  }

  /** The address of the sector being written. */
  function CurBase(size: nat, n: nat, im: Image): nat
    requires 0 < im.live <= n && im.oldest < n
  {
    Base(size, Phys(n, im.oldest, im.live - 1))
  }

  /** The handle's current-sector description and last time are functions of the image. */
  ghost predicate HandleOk(size: nat, n: nat, im: Image, cur: SecInfo, lastTime: int)
    requires im.oldest < n && |im.view| == n && im.live <= n && HDR <= size
  {
    if im.live == 0 then
      lastTime == 0 && cur == HeaderInfo(0, size, EMPTY_SECTOR, cur)
    else
      var sec := im.view[im.live - 1];
      && sec.entries != [] && Used(sec.entries) <= size
      && cur == UsingInfo(CurBase(size, n, im), size, sec)
      && lastTime == sec.entries[|sec.entries| - 1].rec.time
  }

  /** The handle's description of a sector that is open for writing; the end fields may still be stale. */
  ghost predicate CurOpen(size: nat, base: nat, sec: Sector, cur: SecInfo) {
    && Used(sec.entries) <= size
    && cur == SecInfo(true, USING, base, sec.start, cur.endTime, cur.endIdx, UNUSED, UNUSED,
                      size - Used(sec.entries), IndexAddr(base, |sec.entries|), base + size - Size(sec.entries))
  }

  function Closed(im: Image): Image
    requires 0 < im.live <= |im.view|
  {
    im.(view := im.view[im.live - 1 := im.view[im.live - 1].(store := FULL)])
  }

  /** The oldest sector is dropped and becomes the empty one behind all others. */
  function Rotated(n: nat, im: Image): Image
    requires 0 < n == |im.view| && im.oldest < n
  {
    Image(NextPhys(n, im.oldest), im.view[1..] + [EMPTY_SECTOR], n - 1, im.log, im.dropped + |im.view[0].entries|)
  }

  function Started(im: Image, time: int): Image
    requires im.live < |im.view|
  {
    im.(view := im.view[im.live := Sector(USING, time, [])], live := im.live + 1)
  }

  function Appended(im: Image, rec: Record): Image
    requires 0 < im.live <= |im.view|
  {
    var sec := im.view[im.live - 1];
    im.(view := im.view[im.live - 1 := sec.(entries := sec.entries + [Entry(rec, WRITE)])], log := im.log + [rec])
  }

  /** Whether appending `len` bytes closes the current sector. */
  predicate Rolls(size: nat, im: Image, len: nat)
    requires im.live <= |im.view|
  {
    im.live > 0 && size < Used(im.view[im.live - 1].entries) + IDX + len
  }

  /** What one accepted append does: possibly close the current sector, possibly drop the oldest one,
      possibly start a new one, and add the entry. */
  function AfterRoll(size: nat, n: nat, im: Image, len: nat): (r: Image)
    requires im.live <= n == |im.view| && im.oldest < n
    ensures |r.view| == n && r.oldest < n && r.log == im.log
    ensures Rolls(size, im, len) ==> r.live < n
    ensures !Rolls(size, im, len) ==> r == im
  {
    if !Rolls(size, im, len) then im
    else if im.live < n then Closed(im)
    else Rotated(n, Closed(im))
  }

  /** The state in which the entry is written. */
  function AfterStart(size: nat, n: nat, im: Image, len: nat, time: int): (r: Image)
    requires im.live <= n == |im.view| && im.oldest < n && n > 0
    ensures |r.view| == n && r.oldest < n && r.log == im.log && 0 < r.live <= n
  {
    var r := AfterRoll(size, n, im, len);
    if Rolls(size, im, len) || im.live == 0 then Started(r, time) else r
  }

  function AfterAppend(size: nat, n: nat, im: Image, rec: Record): (r: Image)
    requires im.live <= n == |im.view| && im.oldest < n && n > 0
    ensures |r.view| == n && r.oldest < n && r.log == im.log + [rec]
  {
    Appended(AfterStart(size, n, im, |rec.blob|, rec.time), rec)
  }

  // ---------- what an append retains ----------

  /** The newest sector has room for the entry. */
  ghost predicate HasRoom(size: nat, im: Image, len: nat) {
    0 < im.live <= |im.view| && Used(im.view[im.live - 1].entries) + IDX + len <= size
  }

  ghost predicate SomeEmpty(view: seq<Sector>) {
    exists i :: 0 <= i < |view| && view[i].entries == []
  }

  /** Nothing is given up as long as the newest sector has room or another one is empty; otherwise it is what the oldest
      sector holds. */
  lemma AppendRetains(mem: seq<byte>, size: nat, n: nat, im: Image, rec: Record)
    requires Quiet(mem, size, n, im) && n >= 2
    ensures var im' := AfterAppend(size, n, im, rec);
            && (HasRoom(size, im, |rec.blob|) || SomeEmpty(im.view) ==>
                  im'.dropped == im.dropped && im'.oldest == im.oldest
                  && Records(im'.view) == Records(im.view) + [rec])
            && (HasRoom(size, im, |rec.blob|) ==>
                  im'.live == im.live
                  && forall i | 0 <= i < n && i != im.live - 1 :: im'.view[i] == im.view[i])
            && (!HasRoom(size, im, |rec.blob|) && SomeEmpty(im.view) ==> im'.live == im.live + 1)
            && (!HasRoom(size, im, |rec.blob|) && !SomeEmpty(im.view) ==>
                  && var gone := |im.view[0].entries|;
                     im'.dropped == im.dropped + gone && im'.live == n && im'.oldest == NextPhys(n, im.oldest)
                     && gone <= |Records(im.view)| && Records(im'.view) == Records(im.view)[gone..] + [rec])
  {
    hide Holds, Records, Size, Recs, Increasing, BytesHold;
    assert SomeEmpty(im.view) <==> im.live < n by {
      if im.live < n { assert im.view[im.live].entries == []; }
    }
    StartRetains(mem, size, n, im, |rec.blob|, rec.time);
    var open := AfterStart(size, n, im, |rec.blob|, rec.time);
    RecordsAfterAppend(open.view, open.live, Entry(rec, WRITE));
  }

  lemma StartRetains(mem: seq<byte>, size: nat, n: nat, im: Image, len: nat, time: int)
    requires Quiet(mem, size, n, im) && n >= 2
    ensures var r := AfterStart(size, n, im, len, time);
            && (forall i | r.live <= i < n :: r.view[i].entries == [])
            && if Rolls(size, im, len) && im.live == n
               then |im.view[0].entries| <= |Records(im.view)|
                    && Records(r.view) == Records(im.view)[|im.view[0].entries|..]
               else Records(r.view) == Records(im.view)
  {
    hide Holds, Records, Size, Recs, Increasing, BytesHold;
    var mid := AfterRoll(size, n, im, len);
    if Rolls(size, im, len) {
      RecordsIgnoreMarks(im.view, Closed(im).view);
      if im.live == n { RecordsAfterRotation(n, Closed(im)); }
    }
    RecordsIgnoreMarks(mid.view, AfterStart(size, n, im, len, time).view);
  }

  lemma RecordsAfterRotation(n: nat, im: Image)
    requires 0 < n == |im.view| && im.oldest < n
    ensures |Records(im.view)| >= |im.view[0].entries|
    ensures Records(Rotated(n, im).view) == Records(im.view)[|im.view[0].entries|..]
  {
    RecordsDropFirst(im.view);
    RecordsConcat(im.view[1..], [EMPTY_SECTOR]);
    RecordsOne(EMPTY_SECTOR);
  }

  /** Records have been given up only from a full ring, and no sector but the newest has room for a longest entry. */
  ghost predicate WellFilled(size: nat, maxLen: nat, n: nat, im: Image) {
    && im.live <= n == |im.view| && (im.dropped > 0 ==> im.live == n)
    && forall i | 0 <= i < im.live - 1 :: Used(im.view[i].entries) + IDX + maxLen > size
  }

  lemma AppendKeepsFilled(mem: seq<byte>, size: nat, maxLen: nat, n: nat, im: Image, rec: Record)
    requires Quiet(mem, size, n, im) && n >= 2 && WellFilled(size, maxLen, n, im) && |rec.blob| <= maxLen
    ensures WellFilled(size, maxLen, n, AfterAppend(size, n, im, rec))
  {
    hide Holds, Records, Size, Recs, Increasing;
    var mid, im' := AfterRoll(size, n, im, |rec.blob|), AfterAppend(size, n, im, rec);
    forall i | 0 <= i < im'.live - 1 ensures Used(im'.view[i].entries) + IDX + maxLen > size {
      assert im'.view[i] == mid.view[i];
      if Rolls(size, im, |rec.blob|) && im.live == n {
        assert mid.view[i].entries == im.view[i + 1].entries;
      } else {
        assert mid.view[i].entries == im.view[i].entries;
      }
    }
  }

  lemma CurSectorHolds(mem: seq<byte>, size: nat, n: nat, im: Image)
    requires BytesHold(mem, size, n, im.oldest, im.view) && 0 < im.live <= n
    ensures Holds(mem, CurBase(size, n, im), size, im.view[im.live - 1])
    ensures CurBase(size, n, im) + size <= |mem|
    ensures Used(im.view[im.live - 1].entries) <= size
  {
  }

  /** Closing the current sector of a quiet state that has a sector left. */
  lemma CloseStep(mem: seq<byte>, mem': seq<byte>, size: nat, n: nat, im: Image)
    requires Quiet(mem, size, n, im) && im.live > 0
    requires var b := CurBase(size, n, im);
             SameExcept(mem, mem', b, b + size) && Holds(mem', b, size, im.view[im.live - 1].(store := FULL))
    ensures Stored(mem', size, n, Closed(im))
    ensures forall i | 0 <= i < im.live :: Closed(im).view[i].store == FULL
    ensures im.live < n ==> Waiting(mem', size, n, Closed(im))
  {
    hide Holds, Records, Base, Size, Recs, Increasing;
    BytesHoldAfterWrite(mem, mem', size, n, im.oldest, im.view, im.live - 1, im.view[im.live - 1].(store := FULL));
    RecordsIgnoreMarks(im.view, Closed(im).view);
  }

  /** The sector physically behind a just closed one: empty if the ring has not been filled yet, else the oldest. */
  lemma NextAfterClose(mem: seq<byte>, size: nat, n: nat, im: Image)
    requires Stored(mem, size, n, im) && im.live > 0 && size > 0
    requires if im.live < n then Waiting(mem, size, n, im) else forall i | 0 <= i < n :: im.view[i].store == FULL
    ensures var at := Phys(n, im.oldest, if im.live < n then im.live else 0);
            var b, sec := CurBase(size, n, im), im.view[if im.live < n then im.live else 0];
            && (if b + size < |mem| then b + size else 0) == Base(size, at)
            && Base(size, at) + size <= |mem|
            && Holds(mem, Base(size, at), size, sec)
            && (im.live < n ==> sec == EMPTY_SECTOR) && (im.live == n ==> sec.store == FULL)
  {
    hide Holds, Records, Settled, Increasing;
    var c := Phys(n, im.oldest, im.live - 1);
    WalkBounds(size, n, c);
    var i := if im.live < n then im.live else 0;
    WalkBounds(size, n, Phys(n, im.oldest, i));
    assert NextPhys(n, c) == Phys(n, im.oldest, i);
  }

  /** Formatting the oldest of n full sectors drops exactly its records. */
  lemma RotateStep(mem: seq<byte>, mem': seq<byte>, size: nat, n: nat, im: Image)
    requires Stored(mem, size, n, im) && im.live == n > 0
    requires forall i | 0 <= i < n :: im.view[i].store == FULL
    requires var b := Base(size, Phys(n, im.oldest, 0));
             SameExcept(mem, mem', b, b + size) && Holds(mem', b, size, EMPTY_SECTOR)
    ensures Waiting(mem', size, n, Rotated(n, im))
  {
    hide Holds, Base, Size, Records, Recs, Increasing;
    var im' := Rotated(n, im);
    BytesHoldAfterWrite(mem, mem', size, n, im.oldest, im.view, 0, EMPTY_SECTOR);
    BytesHoldRotate(mem', size, n, im.oldest, im.view[0 := EMPTY_SECTOR]);
    assert im.view[0 := EMPTY_SECTOR][1..] == im.view[1..];
    RecordsDropFirst(im.view);
    RecordsConcat(im.view[1..], [EMPTY_SECTOR]);
    RecordsOne(EMPTY_SECTOR);
    assert Records(im'.view) == Records(im.view)[|im.view[0].entries|..];
    assert im.log[im'.dropped..] == im.log[im.dropped..][|im.view[0].entries|..];
  }

  lemma RecordsDropFirst(view: seq<Sector>)
    requires view != []
    ensures |Records(view)| >= |view[0].entries|
    ensures Records(view)[|view[0].entries|..] == Records(view[1..])
  {
    RecordsConcat([view[0]], view[1..]);
    RecordsOne(view[0]);
    assert [view[0]] + view[1..] == view;
  }

  /** Taking the waiting sector into use. */
  lemma StartStep(mem: seq<byte>, mem': seq<byte>, size: nat, n: nat, im: Image, time: int)
    requires Waiting(mem, size, n, im)
    requires var b := Base(size, Phys(n, im.oldest, im.live));
             SameExcept(mem, mem', b, b + size) && Holds(mem', b, size, Sector(USING, time, []))
    ensures Open(mem', size, n, Started(im, time), time)
  {
    hide Holds, Records, Base, Size, Recs, Increasing;
    BytesHoldAfterWrite(mem, mem', size, n, im.oldest, im.view, im.live, Sector(USING, time, []));
    RecordsIgnoreMarks(im.view, Started(im, time).view);
  }

  lemma LogExtends(log: seq<Record>, dropped: nat, rec: Record)
    requires Increasing(log) && dropped <= |log| && GoodTime(rec.time)
    requires forall i | 0 <= i < |log| :: log[i].time < rec.time
    ensures Increasing(log + [rec]) && (log + [rec])[dropped..] == log[dropped..] + [rec]
  {
  }

  /** Adding an entry to the open sector completes the append. */
  lemma AppendStep(mem: seq<byte>, mem': seq<byte>, size: nat, n: nat, im: Image, rec: Record)
    requires Open(mem, size, n, im, rec.time)
    requires GoodTime(rec.time) && forall i | 0 <= i < |im.log| :: im.log[i].time < rec.time
    requires var b := CurBase(size, n, im);
             SameExcept(mem, mem', b, b + size) && Holds(mem', b, size, Appended(im, rec).view[im.live - 1])
    ensures Quiet(mem', size, n, Appended(im, rec))
  {
    hide Holds, Records, Used, Size;
    var im' := Appended(im, rec);
    BytesHoldAfterWrite(mem, mem', size, n, im.oldest, im.view, im.live - 1, im'.view[im.live - 1]);
    RecordsAfterAppend(im.view, im.live, Entry(rec, WRITE));
    LogExtends(im.log, im.dropped, rec);
  }

  /** A freshly formatted flash. */
  function FreshImage(n: nat): Image {
    Image(0, seq(n, i => EMPTY_SECTOR), 0, [], 0)
  }

  lemma FreshIsQuiet(mem: seq<byte>, size: nat, n: nat)
    requires EmptyUpTo(mem, size, n) && |mem| == Base(size, n) && n > 0
    ensures Quiet(mem, size, n, FreshImage(n))
  {
    EmptyFlash(mem, size, n);
  }

  /** In a quiet state every time in the log is at most the handle's last time, and the current sector's
      last entry is the newest record. */
  lemma LastTimeIsNewest(mem: seq<byte>, size: nat, n: nat, im: Image, cur: SecInfo, lastTime: int)
    requires Quiet(mem, size, n, im) && HDR <= size && HandleOk(size, n, im, cur, lastTime) && n > 0
    ensures lastTime >= 0
    ensures forall i | 0 <= i < |im.log| :: im.log[i].time <= lastTime
  {
    hide Holds;
    if im.live > 0 {
      NewestRecord(im.view, im.live);
      var all := Records(im.view);
      assert im.log[|im.log| - 1] == all[|all| - 1];
    }
  }
}
