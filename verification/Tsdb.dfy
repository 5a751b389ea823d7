/** The time-series database of fdb_tsdb.c: appending, rolling over, restarting and querying. */
module Tsdb {
  import opened Bytes
  import opened StatusTable
  import opened FlashDevice
  import opened TsdbLayout
  import opened TsdbRing
  import opened TsdbWrite
  import opened TsdbState
  import opened TsdbQuery
  import opened TsdbQueryProof
  import opened TsdbQueryExact

  datatype Err = NoErr | ReadErr | WriteErr | InitFailed

  /** The walk over the index of a sector ends at an unused entry or with the space of the sector. It reads past the
      end of the flash only if the sector is the last one, is not full, and has fewer than sixteen bytes behind its
      index; then what the buffer happens to hold decides. */
  ghost predicate WalkClear(mem: seq<byte>, addr: nat, size: nat, sec: Sector, maxLen: nat, noises: seq<Noise>) {
    Used(sec.entries) == size || IndexAddr(addr, |sec.entries|) + IDX <= |mem|
    || noises == [] || TslAt(noises[0], 0, maxLen).status == UNUSED
  }

  /** The same for the sector that is being written. */
  ghost predicate StartClear(mem: seq<byte>, size: nat, n: nat, im: Image, maxLen: nat, noises: seq<Noise>) {
    im.oldest < n && im.live <= n == |im.view| &&
    (im.live > 0 ==> WalkClear(mem, CurBase(size, n, im), size, im.view[im.live - 1], maxLen, noises))
  }

  /** A description of a sector in use whose last entry is none of those in it. */
  predicate Astray(s: SecInfo, base: nat, entries: nat) {
    s.status == USING && s.addr == base && s.endIdx >= IndexAddr(base, entries)
  }

  ghost predicate AstrayIn(size: nat, n: nat, im: Image, cur: SecInfo) {
    im.oldest < n && 0 < im.live <= n == |im.view| && Astray(cur, CurBase(size, n, im), |im.view[im.live - 1].entries|)
  }

  class TsDb {
    const flash: Flash
    const secSize: nat
    const maxSize: nat
    const maxLen: nat
    ghost const n: nat

    var oldestAddr: nat
    var cur: SecInfo
    var lastTime: int

    ghost var image: Image

    ghost predicate Geometry() {
      n >= 2 && maxSize == Base(secSize, n) < 0x8000_0000 && HDR + IDX + maxLen <= secSize
    }

    ghost predicate Valid()
      reads this, flash
    {
      && Geometry() && |flash.mem| == maxSize
      && Quiet(flash.mem, secSize, n, image)
      && oldestAddr == Base(secSize, image.oldest)
      && HandleOk(secSize, n, image, cur, lastTime)
    }

    /** fdb_tsdb_init. `check` and `reload` are what failing reads find in their buffer during the check of the headers
        and the walk behind it. */
    constructor (flash: Flash, secSize: nat, maxSize: nat, maxLen: nat, check: seq<Noise>, reload: seq<Noise>,
          ghost n: nat, ghost image: Image, ghost blank: bool)
      requires n >= 2 && maxSize == Base(secSize, n) == |flash.mem| < 0x8000_0000 && HDR + IDX + maxLen <= secSize
      requires if blank then Word(flash.mem, 4) != MAGIC else Quiet(flash.mem, secSize, n, image)
      modifies flash
      ensures blank ==> Valid()
      ensures !blank ==> (Valid() <==> StartClear(flash.mem, secSize, n, image, maxLen, reload))
      ensures !blank && !Valid() ==> AstrayIn(secSize, n, image, cur)
      ensures this.flash == flash && this.secSize == secSize && this.maxSize == maxSize && this.maxLen == maxLen
              && this.n == n
      ensures !blank ==> flash.mem == old(flash.mem) && this.image == image
      ensures blank ==> this.image == FreshImage(n)
      ensures flash.exact == old(flash.exact)
    {
      this.flash, this.secSize, this.maxSize, this.maxLen, this.n := flash, secSize, maxSize, maxLen, n;
      oldestAddr, lastTime := FAILED, 0;
      cur := SecInfo(false, 0, FAILED, 0, 0, 0, 0, 0, 0, 0, 0);
      this.image := image;
      new;
      Load(check, reload, blank);
    }

    /** The body of fdb_tsdb_init after the fields have their defaults. */
    method Load(check: seq<Noise>, reload: seq<Noise>, ghost blank: bool)
      requires Geometry() && |flash.mem| == maxSize && cur.addr == FAILED && lastTime == 0
      requires if blank then Word(flash.mem, 4) != MAGIC else Quiet(flash.mem, secSize, n, image)
      modifies this, flash
      ensures blank ==> Valid()
      ensures !blank ==> (Valid() <==> StartClear(flash.mem, secSize, n, image, maxLen, reload))
      ensures !blank && !Valid() ==> AstrayIn(secSize, n, image, cur)
      ensures !blank ==> flash.mem == old(flash.mem) && image == old(image)
      ensures blank ==> image == FreshImage(n)
      ensures flash.exact == old(flash.exact)
    {
      hide Holds, HandleOk, WalkClear, AstrayIn, HeaderInfo, Size;
      if !blank { QuietBounds(flash.mem, secSize, n, image); }
      var failed, emptyNum, emptyAddr := CheckHeaders(check, image, blank);
      if failed {
        FormatAll();
      } else {
        WalkBounds(secSize, n, if image.live > 0 then Phys(n, image.oldest, image.live - 1) else 0);
        WalkBounds(secSize, n, n - 1);
        var latest := if emptyNum > 0 then emptyAddr else cur.addr;
        oldestAddr := if latest + secSize >= maxSize then 0 else latest + secSize;
      }
      ReloadCur(reload);
    }

    /** Re-reading the current sector with a full walk, and the time of its last entry. */
    method ReloadCur(noises: seq<Noise>)
      requires Geometry() && Quiet(flash.mem, secSize, n, image)
      requires oldestAddr == Base(secSize, image.oldest)
      requires cur.addr == if image.live > 0 then CurBase(secSize, n, image) else 0
      requires lastTime == 0
      modifies this`cur, this`lastTime
      ensures Valid() <==> StartClear(flash.mem, secSize, n, image, maxLen, noises)
      ensures !Valid() ==> AstrayIn(secSize, n, image, cur)
    {
      hide Holds, Quiet, WalkClear, Size, UsingInfo, HeaderInfo;
      QuietBounds(flash.mem, secSize, n, image);
      ghost var sec := SectorToReload(image);
      ReloadFacts(flash.mem, secSize, n, image);
      HeaderFacts(flash.mem, cur.addr, secSize, sec);
      var addr := cur.addr;
      var err;
      err, cur := ReadSectorInfo(cur.addr, cur, true, noises, sec);
      ReloadedStatus(addr, secSize, sec, cur);
      if cur.status == USING {
        lastTime := cur.endTime;
      } else if cur.status == EMPTY && oldestAddr != cur.addr {
        assert false; // reachable only after a power cut between formatting a sector and taking it into use
      }
    }

    /** The header check at start-up: which sector is being written, and how many are empty. */
    method CheckHeaders(noises: seq<Noise>, ghost im: Image, ghost blank: bool)
      returns (failed: bool, emptyNum: nat, emptyAddr: nat)
      requires Geometry() && |flash.mem| == maxSize && cur.addr == FAILED
      requires if blank then Word(flash.mem, 4) != MAGIC else Quiet(flash.mem, secSize, n, im)
      modifies this`cur
      ensures failed == blank
      ensures !blank ==> emptyNum == n - im.live
      ensures !blank && emptyNum > 0 ==> emptyAddr == Base(secSize, n - 1)
      ensures !blank ==> cur.addr == if im.live > 0 then CurBase(secSize, n, im) else 0
    {
      hide Holds, Records, Increasing, Settled, Shape;
      failed, emptyNum, emptyAddr := false, 0, 0;
      var addr, traversed, s := 0, 0, cur;
      ghost var k := 0;
      SectorWalk(secSize, n, 0, 0);
      while addr != FAILED
        invariant 0 <= k <= n && traversed == Base(secSize, k)
        invariant addr == if k < n then Base(secSize, k) else FAILED
        invariant k < n ==> addr < maxSize
        invariant !failed && (blank ==> k == 0)
        invariant !blank ==> emptyNum == EmptyAmong(n, im, k)
        invariant !blank && emptyNum > 0 ==> k > 0 && emptyAddr == Base(secSize, k - 1)
        invariant !blank ==> cur.addr == FoundCur(secSize, n, im, k)
        decreases n - k
      {
        failed, emptyNum, emptyAddr, s := CheckSector(addr, s, emptyNum, emptyAddr, noises, im, blank, k);
        if failed { break; }
        traversed := traversed + secSize;
        SectorWalk(secSize, n, k, k + 1);
        addr := NextSectorAddr(secSize, maxSize, addr, traversed);
        k := k + 1;
        if k < n { BaseBounds(secSize, n, k); }
      }
    }

    /** One round of sector_iterator with check_sec_hdr_cb as its callback. */
    method CheckSector(addr: nat, s0: SecInfo, emptyNum: nat, emptyAddr: nat, noises: seq<Noise>, ghost im: Image,
          ghost blank: bool, ghost k: nat)
      returns (failed: bool, num: nat, at: nat, s: SecInfo)
      requires Geometry() && |flash.mem| == maxSize && k < n && addr == Base(secSize, k)
      requires if blank then Word(flash.mem, 4) != MAGIC && k == 0
               else Quiet(flash.mem, secSize, n, im)
                    && emptyNum == EmptyAmong(n, im, k) && cur.addr == FoundCur(secSize, n, im, k)
      modifies this`cur
      ensures failed == blank
      ensures !blank ==> num == EmptyAmong(n, im, k + 1) && cur.addr == FoundCur(secSize, n, im, k + 1)
      ensures !blank && num > 0 ==> at == addr
    {
      hide Holds, Quiet, WalkClear, Phys, Base, Records, Used, Word;
      SectorWalk(secSize, n, k, k);
      if !blank { QuietBounds(flash.mem, secSize, n, im); }
      ghost var sec := if blank then EMPTY_SECTOR else im.view[Logical(n, im.oldest, k)];
      if !blank {
        KindOfSector(flash.mem, secSize, n, im, k);
        HeaderFacts(flash.mem, addr, secSize, sec);
      }
      var err;
      err, s := ReadSectorInfo(addr, s0, false, [], sec);
      err, s := ReadSectorInfo(addr, s, true, noises, sec);
      failed, num, at := CheckHeader(s, emptyNum, emptyAddr);
    }

    /** check_sec_hdr_cb. */
    method CheckHeader(s: SecInfo, emptyNum: nat, emptyAddr: nat) returns (failed: bool, num: nat, at: nat)
      modifies this`cur
      ensures failed <==> !s.checkOk || (s.status == USING && old(cur).addr != FAILED)
      ensures cur == if s.checkOk && (s.status == USING || (s.status == EMPTY && emptyNum == 0))
              && old(cur).addr == FAILED
                     then s else old(cur)
      ensures num == (if s.checkOk && s.status == EMPTY then emptyNum + 1 else emptyNum)
      ensures at == (if s.checkOk && s.status == EMPTY then s.addr else emptyAddr)
    {
      failed, num, at := false, emptyNum, emptyAddr;
      if !s.checkOk {
        failed := true;
      } else if s.status == USING {
        if cur.addr == FAILED { cur := s; } else { failed := true; }
      } else if s.status == EMPTY {
        num := num + 1;
        at := s.addr;
        if num == 1 && cur.addr == FAILED { cur := s; }
      }
    }

    method FormatSectors()
      requires Geometry() && |flash.mem| == maxSize
      modifies flash
      ensures |flash.mem| == maxSize && EmptyUpTo(flash.mem, secSize, n)
      ensures flash.exact == old(flash.exact)
    {
      hide Holds;
      var addr, traversed := 0, 0;
      ghost var k := 0;
      SectorWalk(secSize, n, 0, 0);
      while addr != FAILED
        invariant 0 <= k <= n && |flash.mem| == maxSize && flash.exact == old(flash.exact)
        invariant traversed == Base(secSize, k)
        invariant addr == if k < n then Base(secSize, k) else FAILED
        invariant k < n ==> addr < maxSize
        invariant EmptyUpTo(flash.mem, secSize, k)
        decreases n - k
      {
        ghost var m := flash.mem;
        SectorWalk(secSize, n, k, k);
        FormatSector(flash, addr, secSize);
        EmptyUpToNext(m, flash.mem, secSize, k);
        traversed := traversed + secSize;
        SectorWalk(secSize, n, k, k + 1);
        addr := NextSectorAddr(secSize, maxSize, addr, traversed);
        k := k + 1;
        if k < n { BaseBounds(secSize, n, k); }
      }
    }

    /** fdb_tsl_clean: every sector is formatted and the log starts afresh. */
    method FormatAll()
      requires Geometry() && |flash.mem| == maxSize
      modifies this, flash
      ensures Valid() && image == FreshImage(n) && cur.addr == 0 && lastTime == 0
      ensures |flash.mem| == maxSize
      ensures flash.exact == old(flash.exact)
    {
      hide Holds;
      FormatSectors();
      FreshIsQuiet(flash.mem, secSize, n);
      image := FreshImage(n);
      oldestAddr, lastTime := 0, 0;
      WalkBounds(secSize, n, 0);
      assert Phys(n, 0, 0) == 0;
      HeaderFacts(flash.mem, 0, secSize, EMPTY_SECTOR);
      var err;
      err, cur := ReadSectorInfo(0, cur, false, [], EMPTY_SECTOR);
    }

    /** tsl_append: refuses an oversized blob or a time that is not later than the last one, otherwise adds the record,
        rolling over to the next sector when the current one has no room. */
    method TslAppend(blob: seq<byte>, time: int) returns (err: Err)
      requires Valid() && time < 0x8000_0000
      modifies this, flash
      ensures Valid() && flash.exact == old(flash.exact)
      ensures err == if |blob| > maxLen || time <= old(lastTime) then WriteErr else NoErr
      ensures err == WriteErr ==> image == old(image) && flash.mem == old(flash.mem) && lastTime == old(lastTime)
      ensures err == NoErr ==> image == AfterAppend(secSize, n, old(image), Record(time, blob)) && lastTime == time
    {
      hide Holds;
      if |blob| > maxLen { return WriteErr; }
      LastTimeIsNewest(flash.mem, secSize, n, image, cur, lastTime);
      if time <= lastTime { return WriteErr; }
      UpdateSecStatus(|blob|, time);
      AddEntry(blob, time);
      err := NoErr;
    }

    /** fdb_tsl_append_with_ts. Nothing is given up as long as the newest sector has room for the entry or another one
        is empty; otherwise it is exactly what the oldest sector holds. */
    method Append(blob: seq<byte>, time: int) returns (err: Err)
      requires Valid() && time < 0x8000_0000
      modifies this, flash
      ensures Valid() && flash.exact == old(flash.exact)
      ensures err == if |blob| > maxLen || time <= old(lastTime) then WriteErr else NoErr
      ensures err == WriteErr ==> image == old(image) && flash.mem == old(flash.mem) && lastTime == old(lastTime)
      ensures err == NoErr ==> image == AfterAppend(secSize, n, old(image), Record(time, blob)) && lastTime == time
      ensures err == NoErr ==>
                var im, rec := old(image), Record(time, blob);
                var room := im.live > 0 && Used(im.view[im.live - 1].entries) + IDX + |blob| <= secSize;
                && image.log == im.log + [rec]
                && (if room || exists i :: 0 <= i < n && im.view[i].entries == []
                    then image.dropped == im.dropped && image.oldest == im.oldest
                         && Records(image.view) == Records(im.view) + [rec]
                    else image.dropped == im.dropped + |im.view[0].entries|
                         && Records(image.view) == Records(im.view)[|im.view[0].entries|..] + [rec])
                && (room ==> image.live == im.live)
      ensures WellFilled(secSize, maxLen, n, old(image)) ==> WellFilled(secSize, maxLen, n, image)
    {
      hide Stored, Shape, HandleOk, Records, Used, WellFilled, AfterAppend;
      ghost var m, im, rec := flash.mem, image, Record(time, blob);
      QuietBounds(m, secSize, n, im);
      err := TslAppend(blob, time);
      if err == NoErr {
        AppendRetains(m, secSize, n, im, rec);
        if WellFilled(secSize, maxLen, n, im) { AppendKeepsFilled(m, secSize, maxLen, n, im, rec); }
      }
    }

    /** The second half of tsl_append: writing the entry and recalculating the handle. */
    method AddEntry(blob: seq<byte>, time: int)
      requires Geometry() && GoodTime(time) && Open(flash.mem, secSize, n, image, time)
      requires forall i | 0 <= i < |image.log| :: image.log[i].time < time
      requires CurOpen(secSize, CurBase(secSize, n, image), image.view[image.live - 1], cur)
      requires IDX + |blob| <= cur.remain && oldestAddr == Base(secSize, image.oldest)
      modifies this, flash
      ensures Valid() && flash.exact == old(flash.exact)
      ensures image == Appended(old(image), Record(time, blob)) && lastTime == time
    {
      hide Holds, Records, Settled, Increasing, Base, Size, StatusByte, And;
      ghost var sec := image.view[image.live - 1];
      ghost var m := flash.mem;
      CurSectorHolds(m, secSize, n, image);
      WriteTsl(flash, cur.addr, secSize, sec, cur.emptyIdx, cur.emptyData, blob, time);
      AppendStep(m, flash.mem, secSize, n, image, Record(time, blob));
      SizeAppend(sec.entries, Entry(Record(time, blob), WRITE));
      cur := cur.(endIdx := cur.emptyIdx, endTime := time, emptyIdx := cur.emptyIdx + IDX,
                  emptyData := cur.emptyData - |blob|, remain := cur.remain - (IDX + |blob|));
      lastTime := time;
      image := Appended(image, Record(time, blob));
    }

    /** update_sec_status: makes sure that the current sector is in use and has room for `len` bytes. */
    method UpdateSecStatus(len: nat, time: int)
      requires Valid() && len <= maxLen && GoodTime(time)
      modifies this, flash
      ensures Geometry() && Open(flash.mem, secSize, n, image, time) && flash.exact == old(flash.exact)
      ensures image == AfterStart(secSize, n, old(image), len, time)
      ensures CurOpen(secSize, CurBase(secSize, n, image), image.view[image.live - 1], cur)
      ensures IDX + len <= cur.remain && oldestAddr == Base(secSize, image.oldest)
    {
      hide Holds, Records, Increasing;
      if cur.status == USING && cur.remain < IDX + len {
        Roll(len);
      } else if cur.status == FULL {
        assert false; // only with rollover switched off
      }
      if cur.status == EMPTY {
        Start(time);
      }
    }

    /** Closing the current sector and moving on to the next one, which is formatted if it holds data. */
    method Roll(ghost len: nat)
      requires Valid() && image.live > 0 && Rolls(secSize, image, len)
      modifies this, flash
      ensures Geometry() && Waiting(flash.mem, secSize, n, image) && flash.exact == old(flash.exact)
      ensures image == AfterRoll(secSize, n, old(image), len)
      ensures cur == HeaderInfo(Base(secSize, Phys(n, image.oldest, image.live)), secSize, EMPTY_SECTOR, cur)
      ensures oldestAddr == Base(secSize, image.oldest)
    {
      hide Holds, Stored, Waiting, Quiet, UsingInfo, Used, Size, Recs, Phys;
      QuietBounds(flash.mem, secSize, n, image);
      CloseCur();
      cur := cur.(status := FULL);
      TakeNextSector();
    }

    /** Behind a closed sector: the next one becomes current, and if it is not empty the oldest records go. */
    method TakeNextSector()
      requires Geometry() && |flash.mem| == maxSize && Stored(flash.mem, secSize, n, image)
      requires image.oldest < n == |image.view| && 0 < image.live <= n
      requires if image.live < n then Waiting(flash.mem, secSize, n, image)
               else forall i | 0 <= i < n :: image.view[i].store == FULL
      requires cur.addr == CurBase(secSize, n, image) && oldestAddr == Base(secSize, image.oldest)
      modifies this, flash
      ensures Geometry() && Waiting(flash.mem, secSize, n, image) && flash.exact == old(flash.exact)
      ensures image == if old(image).live < n then old(image) else Rotated(n, old(image))
      ensures image.oldest < n && image.live < n
      ensures cur == HeaderInfo(Base(secSize, Phys(n, image.oldest, image.live)), secSize, EMPTY_SECTOR, cur)
      ensures oldestAddr == Base(secSize, image.oldest)
    {
      hide Holds, Stored, Waiting, UsingInfo, Used, Size, Recs, Phys;
      NextAfterClose(flash.mem, secSize, n, image);
      var next := if cur.addr + secSize < maxSize then cur.addr + secSize else 0;
      ghost var sec := image.view[if image.live < n then image.live else 0];
      HeaderFacts(flash.mem, next, secSize, sec);
      var err;
      err, cur := ReadSectorInfo(next, cur, false, [], sec);
      if cur.status != EMPTY {
        Reuse(next);
      }
    }

    /** The ring is full: the next sector is the oldest one, whose records are given up. */
    method Reuse(next: nat)
      requires Geometry() && Stored(flash.mem, secSize, n, image) && image.live == n
      requires forall i | 0 <= i < n :: image.view[i].store == FULL
      requires next == Base(secSize, Phys(n, image.oldest, 0))
      modifies this, flash
      ensures Geometry() && Waiting(flash.mem, secSize, n, image) && flash.exact == old(flash.exact)
      ensures image == Rotated(n, old(image))
      ensures cur == HeaderInfo(next, secSize, EMPTY_SECTOR, cur)
      ensures next == Base(secSize, Phys(n, image.oldest, image.live))
      ensures oldestAddr == Base(secSize, image.oldest)
    {
      hide Holds, Records, Increasing, Size, Recs;
      WalkBounds(secSize, n, image.oldest);
      oldestAddr := if next + secSize < maxSize then next + secSize else 0;
      ghost var m := flash.mem;
      FormatSector(flash, next, secSize);
      RotateStep(m, flash.mem, secSize, n, image);
      image := Rotated(n, image);
      HeaderFacts(flash.mem, next, secSize, EMPTY_SECTOR);
      var err;
      err, cur := ReadSectorInfo(next, cur, false, [], EMPTY_SECTOR);
    }

    /** Saving the end of the current sector and marking it full. */
    method CloseCur()
      requires Valid() && image.live > 0
      modifies this`image, flash
      ensures |flash.mem| == maxSize && cur.addr == CurBase(secSize, n, old(image))
      ensures image == Closed(old(image)) && flash.exact == old(flash.exact)
      ensures Stored(flash.mem, secSize, n, image)
      ensures forall i | 0 <= i < image.live :: image.view[i].store == FULL
      ensures image.live < n ==> Waiting(flash.mem, secSize, n, image)
    {
      hide Holds;
      ghost var m := flash.mem;
      CurSectorHolds(m, secSize, n, image);
      if cur.endStat0 == UNUSED {
        CloseSector(flash, cur.addr, secSize, image.view[image.live - 1], lastTime, cur.emptyIdx - IDX);
      } else {
        assert false; // a sector is closed only once, so its first end record is still unused
      }
      CloseStep(m, flash.mem, secSize, n, image);
      image := Closed(image);
    }

    /** Taking the empty current sector into use. */
    method Start(time: int)
      requires Geometry() && Waiting(flash.mem, secSize, n, image) && GoodTime(time)
      requires cur == HeaderInfo(Base(secSize, Phys(n, image.oldest, image.live)), secSize, EMPTY_SECTOR, cur)
      modifies this`cur, this`image, flash
      ensures Open(flash.mem, secSize, n, image, time) && flash.exact == old(flash.exact)
      ensures image == Started(old(image), time)
      ensures CurOpen(secSize, CurBase(secSize, n, image), image.view[image.live - 1], cur)
    {
      hide Holds;
      ghost var m := flash.mem;
      StartSector(flash, cur.addr, secSize, time);
      StartStep(m, flash.mem, secSize, n, image, time);
      cur := cur.(status := USING, startTime := time);
      image := Started(image, time);
    }

    /** Writing a status over one already written leaves the larger of the two. */
    method PutStatus(addr: nat, status: nat, ghost before: nat)
      requires addr < |flash.mem| && WRITE <= before < TSL_NUM && status < TSL_NUM
               && flash.mem[addr] == StatusByte(before)
      modifies flash
      ensures flash.mem == old(flash.mem)[addr := StatusByte(if status > before then status else before)]
      ensures status >= before ==> flash.exact == old(flash.exact)
    {
      hide And, Mask;
      if status > 0 {
        if status >= before { MasksCombine(before, status); } else { MasksCombine(status, before); }
        flash.WriteStatusByte(addr, TSL_NUM, status);
      }
    }

    /** Reading a sector's description on a walk: the one being written comes from RAM. */
    method LoadSector(addr: nat, ghost i: nat) returns (s: SecInfo)
      requires Valid() && i < n && addr == Base(secSize, Phys(n, image.oldest, i))
      ensures Holds(flash.mem, addr, secSize, image.view[i])
      ensures Used(image.view[i].entries) <= secSize && addr + secSize <= maxSize
      ensures s.addr == addr && s.status == image.view[i].store && EMPTY <= s.status <= FULL
      ensures image.view[i].entries == [] <==> s.status == EMPTY
      ensures image.view[i].entries != [] ==>
                var es := image.view[i].entries;
                && s.status != EMPTY && s.startTime == image.view[i].start
                && s.endTime == es[|es| - 1].rec.time && s.endIdx == IndexAddr(addr, |es| - 1)
    {
      hide Holds, Records, Increasing, Size;
      ghost var sec := image.view[i];
      HeaderFacts(flash.mem, addr, secSize, sec);
      SectorWalk(secSize, n, Phys(n, image.oldest, i), 0);
      var err;
      err, s := ReadSectorInfo(addr, cur, false, [], sec);
      if s.status == USING {
        s := cur;
      }
    }

    /** The inner loop of fdb_tsl_iter. */
    method VisitUp(s: SecInfo, cb: Tsl -> bool, ghost sec: Sector) returns (visited: seq<Tsl>, stopped: bool)
      requires Holds(flash.mem, s.addr, secSize, sec) && sec.entries != [] && s.status != EMPTY
      requires s.endIdx == IndexAddr(s.addr, |sec.entries| - 1)
      ensures Used(sec.entries) <= secSize
      ensures visited == Until(cb, Tsls(s.addr, secSize, sec.entries))
      ensures stopped <==> !NoneStops(cb, Tsls(s.addr, secSize, sec.entries))
    {
      hide Holds, Until;
      HoldsFits(flash.mem, s.addr, secSize, sec);
      ghost var all := Tsls(s.addr, secSize, sec.entries);
      var index := s.addr + HDR;
      visited := [];
      ghost var j := 0;
      while true
        invariant 0 <= j < |all| && index == IndexAddr(s.addr, j)
        invariant visited == all[..j] && NoneStops(cb, visited)
        decreases |all| - j
      {
        var t := ReadEntry(index, s.addr, sec, j);
        assert all == all[..j] + [all[j]] + all[j + 1..];
        visited := visited + [t];
        if cb(t) {
          UntilStops(cb, all[..j], t, all[j + 1..]);
          assert t in all;
          return visited, true;
        }
        assert all[..j + 1] == visited;
        if index + IDX <= s.endIdx { index := index + IDX; } else { break; }
        j := j + 1;
      }
      assert all == visited;
      UntilAll(cb, all);
      stopped := false;
    }

    /** The inner loop of fdb_tsl_iter_reverse. */
    method VisitDown(s: SecInfo, cb: Tsl -> bool, ghost sec: Sector) returns (visited: seq<Tsl>, stopped: bool)
      requires Holds(flash.mem, s.addr, secSize, sec) && sec.entries != [] && s.status != EMPTY
      requires s.endIdx == IndexAddr(s.addr, |sec.entries| - 1)
      ensures Used(sec.entries) <= secSize
      ensures visited == Until(cb, Reverse(Tsls(s.addr, secSize, sec.entries)))
      ensures stopped <==> !NoneStops(cb, Reverse(Tsls(s.addr, secSize, sec.entries)))
    {
      hide Holds, Until;
      HoldsFits(flash.mem, s.addr, secSize, sec);
      ghost var all := Reverse(Tsls(s.addr, secSize, sec.entries));
      var index := s.endIdx;
      visited := [];
      ghost var j := 0;
      while true
        invariant 0 <= j < |all| && index == IndexAddr(s.addr, |all| - 1 - j)
        invariant visited == all[..j] && NoneStops(cb, visited)
        decreases |all| - j
      {
        var t := ReadEntry(index, s.addr, sec, |all| - 1 - j);
        assert all == all[..j] + [all[j]] + all[j + 1..];
        visited := visited + [t];
        if cb(t) {
          UntilStops(cb, all[..j], t, all[j + 1..]);
          assert t in all;
          return visited, true;
        }
        assert all[..j + 1] == visited;
        if index >= s.addr + HDR + IDX { index := index - IDX; } else { break; }
        j := j + 1;
      }
      assert all == visited;
      UntilAll(cb, all);
      stopped := false;
    }

    /** One sector of a walk: its description, and what the callback sees of it. */
    method VisitStop(addr: nat, up: bool, cb: Tsl -> bool, ghost t: nat) returns (s: SecInfo, v: seq<Tsl>,
          stopped: bool)
      requires Valid() && Fits(secSize, image.view) && t < n
      requires addr == Base(secSize, Phys(n, image.oldest, Stop(n, image, up, t)))
      ensures s.addr == addr && EMPTY <= s.status <= FULL && s.status != UNUSED
      ensures s.status == EMPTY <==> image.view[Stop(n, image, up, t)].entries == []
      ensures v == Until(cb, VisitDir(secSize, n, image, up, t))
      ensures stopped <==> !NoneStops(cb, VisitDir(secSize, n, image, up, t))
    {
      hide Holds, Quiet, HandleOk, Used, Fits, Base;
      QuietBounds(flash.mem, secSize, n, image);
      ghost var i := Stop(n, image, up, t);
      s := LoadSector(addr, i);
      v, stopped := [], false;
      if s.status == USING || s.status == FULL {
        if up {
          v, stopped := VisitUp(s, cb, image.view[i]);
        } else {
          v, stopped := VisitDown(s, cb, image.view[i]);
        }
      }
    }

    /** Where a walk starts. */
    lemma WalkStarts(up: bool, cb: Tsl -> bool)
      requires Valid()
      ensures Quiet(flash.mem, secSize, n, image)
      ensures Fits(secSize, image.view) && image.oldest < n == |image.view| && image.live <= n
      ensures maxSize == Base(secSize, n) < FAILED && 0 < secSize <= maxSize && 0 < n && Base(secSize, 0) == 0
      ensures Walk(secSize, n, image, up, 0) == [] && NoneStops(cb, [])
      ensures (if up then oldestAddr else cur.addr) == Base(secSize, Phys(n, image.oldest, Stop(n, image, up, 0)))
      ensures (if up then oldestAddr else cur.addr) < maxSize
    {
      hide Holds, Records;
      FitsFromBytes(flash.mem, secSize, n, image);
      StopAddr(secSize, n, image, up, 0);
    }

    /** fdb_tsl_iter. */
    method Iter(cb: Tsl -> bool) returns (visited: seq<Tsl>)
      requires Valid()
      ensures Fits(secSize, image.view)
      ensures visited == Until(cb, Visits(secSize, n, image, n))
    {
      hide *;
      visited := [];
      WalkStarts(true, cb);
      UpWalkIsVisits(secSize, n, image, n);
      var addr, traversed := oldestAddr, 0;
      ghost var t := 0;
      while addr != FAILED
        invariant 0 <= t <= n && traversed == Base(secSize, t)
        invariant t < n ==> addr == Base(secSize, Phys(n, image.oldest, Stop(n, image, true, t)))
        invariant t < n ==> addr < maxSize
        invariant t == n ==> addr == FAILED
        invariant visited == Walk(secSize, n, image, true, t)
        invariant NoneStops(cb, visited)
        decreases n - t
      {
        StopAddr(secSize, n, image, true, t);
        traversed := traversed + secSize;
        var s, v, stopped := VisitStop(addr, true, cb, t);
        visited := visited + v;
        if stopped {
          StoppedInWalk(cb, secSize, n, image, true, t);
          return;
        }
        UntilAll(cb, VisitDir(secSize, n, image, true, t));
        WalkStepNone(cb, secSize, n, image, true, t);
        addr := NextSectorAddr(secSize, maxSize, s.addr, traversed);
        t := t + 1;
        if t < n { StopAddr(secSize, n, image, true, t); }
      }
      UntilAll(cb, visited);
    }

    /** fdb_tsl_iter_reverse. */
    method IterReverse(cb: Tsl -> bool) returns (visited: seq<Tsl>)
      requires Valid()
      ensures Fits(secSize, image.view)
      ensures visited == Until(cb, Reverse(Visits(secSize, n, image, n)))
    {
      hide *;
      visited := [];
      WalkStarts(false, cb);
      WholeDownWalk(flash.mem, secSize, n, image);
      var addr, traversed := cur.addr, 0;
      ghost var t := 0;
      while addr != FAILED
        invariant 0 <= t <= n && traversed == Base(secSize, t)
        invariant t < n ==> addr == Base(secSize, Phys(n, image.oldest, Stop(n, image, false, t)))
        invariant t < n ==> addr < maxSize
        invariant t == n ==> addr == FAILED
        invariant visited == Walk(secSize, n, image, false, t)
        invariant NoneStops(cb, visited)
        decreases n - t
      {
        StopAddr(secSize, n, image, false, t);
        traversed := traversed + secSize;
        var s, v, stopped := VisitStop(addr, false, cb, t);
        if s.status == EMPTY || s.status == UNUSED {
          WalkEndsHere(flash.mem, secSize, n, image, false, t);
          UntilAll(cb, visited);
          return;
        }
        visited := visited + v;
        if stopped {
          StoppedInWalk(cb, secSize, n, image, false, t);
          return;
        }
        UntilAll(cb, VisitDir(secSize, n, image, false, t));
        WalkStepNone(cb, secSize, n, image, false, t);
        addr := LastSectorAddr(secSize, maxSize, s.addr, traversed);
        t := t + 1;
        if t < n { StopAddr(secSize, n, image, false, t); }
      }
      UntilAll(cb, visited);
    }

    /** Reading index position i of a sector, which may be the one behind the last entry. */
    method ReadItem(addr: nat, noise: Noise, ghost base: nat, ghost sec: Sector, ghost past: Past, ghost i: nat)
      returns (t: Tsl)
      requires Holds(flash.mem, base, secSize, sec) && Used(sec.entries) <= secSize
      requires i <= |sec.entries| && addr == IndexAddr(base, i)
      requires i == |sec.entries| ==> past.seen == ReadAs(flash.mem, addr, maxLen, noise)
      ensures t == Item(base, secSize, sec.entries, past, i)
    {
      hide Holds;
      if i < |sec.entries| { EntryReadsBack(flash.mem, base, secSize, sec, i, maxLen); }
      t := ReadTsl(addr, noise);
    }

    /** search_start_tsl_addr: a binary search over the index for the position at which a query starts. */
    method SearchStart(start0: int, end0: int, from: int, to: int, noise: Noise, ghost base: nat, ghost sec: Sector,
          ghost past: Past)
      returns (addr: int)
      requires Holds(flash.mem, base, secSize, sec) && sec.entries != [] && SortedEntries(sec.entries)
      requires start0 == IndexAddr(base, 0) && end0 == IndexAddr(base, |sec.entries| - 1)
      requires past.sought == ReadAs(flash.mem, IndexAddr(base, |sec.entries|), maxLen, noise).time
      requires from > to ==> FirstAtLeast(sec.entries, from + 1) > 0
      ensures addr == base + HDR + IDX * StartIndex(sec.entries, past, from, to)
    {
      hide Holds, TslAt, ReadAs, Used, Item, StartIndex, AlignIdx, Size, FirstAtLeast;
      HoldsFits(flash.mem, base, secSize, sec);
      ghost var es := sec.entries;
      ghost var a, b := 0, |es| - 1;
      var start, end := start0, end0;
      while true
        invariant 0 <= a <= b < |es| && start == IndexAddr(base, a) && end == IndexAddr(base, b)
        invariant forall j | 0 <= j < a :: es[j].rec.time < from
        invariant forall j | b < j < |es| :: es[j].rec.time > from
        decreases b - a
      {
        var index := start + AlignIdx((end - start) / 2);
        ghost var mid := a + (b - a + 1) / 2;
        MidIndex(base, a, b);
        var t := ReadEntry(index, base, sec, mid);
        if t.time < from {
          start := index + IDX;
          a := mid + 1;
        } else if t.time > from {
          end := index - IDX;
          b := mid - 1;
        } else {
          ExactStart(es, mid, from);
          StartIndexExact(es, past, from, to, mid);
          return index;
        }
        if start > end {
          SplitStart(es, a, from);
          StartIndexAfterSplit(es, past, from, to, a);
          if from > to {
            ghost var there := Past(past.sought, ReadAs(flash.mem, IndexAddr(base, |es|), maxLen, noise));
            t := ReadItem(start, noise, base, sec, there, a);
            ItemTime(base, secSize, es, there, a);
            if t.time > from { start := start - IDX; }
          }
          break;
        }
      }
      addr := start;
    }

    /** The inner loop of fdb_tsl_iter_by_time: handing over one sector's candidates. */
    method EmitSector(s: SecInfo, from: int, to: int, cb: Tsl -> bool, search: Noise, look: Noise, ghost sec: Sector,
          ghost past: Past)
      returns (visited: seq<Tsl>, leave: bool)
      requires Holds(flash.mem, s.addr, secSize, sec) && sec.entries != [] && SortedEntries(sec.entries)
      requires s.status != EMPTY && s.endIdx == IndexAddr(s.addr, |sec.entries| - 1)
      requires var a := IndexAddr(s.addr, |sec.entries|);
               past == Past(ReadAs(flash.mem, a, maxLen, search).time, ReadAs(flash.mem, a, maxLen, look))
      requires if from <= to then sec.entries[|sec.entries| - 1].rec.time >= from else sec.entries[0].rec.time <= from
      ensures Used(sec.entries) <= secSize
      ensures var e := Emit(cb, Candidates(s.addr, secSize, sec.entries, past, from, to), Lo(from, to), Hi(from, to));
              visited == e.0 && leave == e.1
    {
      hide Holds, TslAt, ReadAs, Candidates, StartIndex, Emit, EmitsFrom, Used, Item;
      HoldsFits(flash.mem, s.addr, secSize, sec);
      ghost var es := sec.entries;
      StartExists(es, from, to);
      CandidatesByIndex(s.addr, secSize, es, past, from, to);
      ghost var c, q := Candidates(s.addr, secSize, es, past, from, to), StartIndex(es, past, from, to);
      var index: int := SearchStart(s.addr + HDR, s.endIdx, from, to, search, s.addr, sec, past);
      visited, leave := [], false;
      ghost var k := 0;
      EmitStart(cb, c, Lo(from, to), Hi(from, to));
      while true
        invariant 0 <= k < |c| && !leave
        invariant index == IndexAddr(s.addr, if from <= to then q + k else q - k)
        invariant EmitsFrom(cb, c, Lo(from, to), Hi(from, to), visited, k)
        decreases |c| - k
      {
        var t := ReadItem(index, look, s.addr, sec, past, if from <= to then q + k else q - k);
        assert c[k] == t;
        EmitStep(cb, c, Lo(from, to), Hi(from, to), visited, k);
        if t.status != UNUSED {
          if (from <= to && t.time >= from && t.time <= to) || (from > to && t.time <= from && t.time >= to) {
            visited := visited + [t];
            if cb(t) { return visited, true; }
          } else {
            return visited, true;
          }
        }
        k := k + 1;
        if from <= to {
          if index + IDX <= s.endIdx { index := index + IDX; } else { break; }
        } else {
          if index >= s.addr + HDR + IDX { index := index - IDX; } else { break; }
        }
      }
      EmitEnd(cb, c, Lo(from, to), Hi(from, to), visited);
    }

    /** One sector of a query: skipped, examined, or the end of the walk. */
    method QueryStop(addr: nat, from: int, to: int, cb: Tsl -> bool, search: Noise, look: Noise, first: bool,
          ghost t: nat, found: bool)
      returns (visited: seq<Tsl>, found': bool, leave: bool, at: nat)
      requires Valid() && Fits(secSize, image.view) && t < n
      requires addr == Base(secSize, Phys(n, image.oldest, Stop(n, image, from <= to, t)))
      requires first == (t == 0)
      requires found ==> NotBefore(from <= to, from, Rest(secSize, n, image, from <= to, t))
      ensures at == addr
      ensures found' && t + 1 <= n && !leave ==> NotBefore(from <= to, from, Rest(secSize, n, image, from <= to, t + 1))
      ensures var past := PastOf(flash.mem, secSize, n, image, maxLen, search, look);
              QueryStep(cb, secSize, n, image, past, from, to, t, found, visited, found', leave)
    {
      hide Holds, Quiet, HandleOk, Used, Fits, Base, Emit, Candidates, VisitDir, SortedEntries, Rest, Size, PastOf,
           TslAt, ReadAs, KeySorted, Phys;
      QuietBounds(flash.mem, secSize, n, image);
      QuietIsQueryable(flash.mem, secSize, n, image);
      ghost var up, i := from <= to, Stop(n, image, from <= to, t);
      ghost var sec := image.view[i];
      var s := LoadSector(addr, i);
      visited, found', leave, at := [], found, true, s.addr;
      if s.status == USING || s.status == FULL {
        SortedRest(flash.mem, secSize, n, image, up, t);
        EndsOf(secSize, n, image, up, t);
        RestStep(secSize, n, image, up, from, t, found);
        if found
           || (from <= to && ((first && from <= s.startTime) || from <= s.endTime))
           || (from > to && ((first && from >= s.endTime) || from >= s.startTime)) {
          found' := true;
          PastIs(flash.mem, secSize, n, image, maxLen, search, look, i);
          ghost var past := PastOf(flash.mem, secSize, n, image, maxLen, search, look)[i];
          visited, leave := EmitSector(s, from, to, cb, search, look, sec, past);
        } else {
          leave := false;
        }
      }
    }

    /** fdb_tsl_iter_by_time. A downward query reads one index position behind the last entry of every sector it
        passes. If these positions are unused space inside the flash the result is right: no sector may be filled to
        its last byte, nor the last one of the flash up to fewer bytes than an index entry has. */
    method IterByTime(from: int, to: int, cb: Tsl -> bool, search: Noise, look: Noise) returns (visited: seq<Tsl>)
      requires Valid()
      ensures Fits(secSize, image.view)
      ensures visited == Query(cb, secSize, n, image,
              PastOf(flash.mem, secSize, n, image, maxLen, search, look), from, to, 0, false)
      ensures from <= to || (NoneTight(secSize, image) && PastReadable(flash.mem, secSize, n, image)) ==>
                var all := Visits(secSize, n, image, n);
                && visited == Until(cb, InWindow(if from <= to then all else Reverse(all), Lo(from, to), Hi(from, to)))
                && (forall x | x in visited :: x in all && (from <= x.time <= to || to <= x.time <= from))
                && (NoneStops(cb, visited) ==>
                      forall x | x in all && (from <= x.time <= to || to <= x.time <= from) :: x in visited)
    {
      hide *;
      visited := [];
      var up, found := from <= to, false;
      WalkStarts(up, cb);
      ghost var past := PastOf(flash.mem, secSize, n, image, maxLen, search, look);
      ghost var whole := Query(cb, secSize, n, image, past, from, to, 0, false);
      var start := if from <= to then oldestAddr else cur.addr;
      var addr, traversed := start, 0;
      ghost var t := 0;
      while addr != FAILED
        invariant 0 <= t <= n && traversed == Base(secSize, t)
        invariant t < n ==> addr == Base(secSize, Phys(n, image.oldest, Stop(n, image, up, t)))
        invariant t < n ==> addr < maxSize
        invariant t == n ==> addr == FAILED
        invariant t == 0 ==> addr == start
        invariant found ==> NotBefore(up, from, Rest(secSize, n, image, up, t))
        invariant whole == visited + Query(cb, secSize, n, image, past, from, to, t, found)
        decreases n - t
      {
        StopAddr(secSize, n, image, up, t);
        traversed := traversed + secSize;
        StartIsFirst(secSize, n, image, up, t);
        var v, found', leave, at := QueryStop(addr, from, to, cb, search, look, addr == start, t, found);
        QueryStepMeans(cb, secSize, n, image, past, from, to, t, found, v, found', leave);
        visited := visited + v;
        found := found';
        if leave { break; }
        addr := if from <= to then NextSectorAddr(secSize, maxSize, at, traversed)
          else LastSectorAddr(secSize, maxSize, at, traversed);
        t := t + 1;
        if t < n { StopAddr(secSize, n, image, up, t); }
      }
      if t == n { QueryAtEnd(cb, secSize, n, image, past, from, to, found); }
      if from <= to || (NoneTight(secSize, image) && PastReadable(flash.mem, secSize, n, image)) {
        NoneTightMeansUnused(flash.mem, secSize, n, image, maxLen, search, look);
        QueryIsWindow(cb, flash.mem, secSize, n, image, past, from, to);
        VisitedInWindow(cb, Visits(secSize, n, image, n), from, to);
      }
    }

    /** fdb_tsl_query_count. */
    method QueryCount(from: int, to: int, status: nat, search: Noise, look: Noise) returns (count: nat)
      requires Valid()
      ensures Fits(secSize, image.view)
      ensures var past := PastOf(flash.mem, secSize, n, image, maxLen, search, look);
              count == CountStatus(Query(Never, secSize, n, image, past, from, to, 0, false), status)
      ensures from <= to || (NoneTight(secSize, image) && PastReadable(flash.mem, secSize, n, image)) ==>
                var all := Visits(secSize, n, image, n);
                && count == CountStatus(InWindow(all, Lo(from, to), Hi(from, to)), status)
                && count == |Counted(all, from, to, status)|
    {
      hide *;
      var seen := IterByTime(from, to, Never, search, look);
      count := CountSeen(seen, status);
      WalkStarts(true, Never);
      ghost var all := Visits(secSize, n, image, n);
      if from <= to || (NoneTight(secSize, image) && PastReadable(flash.mem, secSize, n, image)) {
        ghost var w := InWindow(if from <= to then all else Reverse(all), Lo(from, to), Hi(from, to));
        NeverStops(w);
        UntilAll(Never, w);
        CountReversed(all, Lo(from, to), Hi(from, to), status);
        CountIsNumber(all, from, to, status);
      }
    }

    /** query_count_cb over everything a query visits. */
    method CountSeen(seen: seq<Tsl>, status: nat) returns (count: nat)
      ensures count == CountStatus(seen, status)
    {
      count := 0;
      for k := 0 to |seen|
        invariant count == CountStatus(seen[..k], status)
      {
        assert seen[..k + 1][..k] == seen[..k];
        if seen[k].status == status { count := count + 1; }
      }
      assert seen[..|seen|] == seen;
    }

    /** fdb_blob_read on a log object of this database: as much of the blob as the caller has room for. */
    method ReadBlob(t: Tsl, room: nat, ghost k: nat) returns (blob: seq<byte>)
      requires Valid() && k < |image.log| - image.dropped
      requires Fits(secSize, image.view) && k < |Visits(secSize, n, image, n)| && t == Visits(secSize, n, image, n)[k]
      ensures var all := image.log[image.dropped + k].blob; blob == all[..if room > |all| then |all| else room]
    {
      hide Holds, Records;
      IterationIsLogSuffix(flash.mem, secSize, n, image);
      assert Represents(flash.mem, t, image.log[image.dropped + k]);
      var len := room;
      if len > t.logLen { len := t.logLen; }
      blob := flash.Read(t.log, len);
    }

    /** fdb_tsl_set_status on the j-th entry of the i-th sector: the status only ever advances, and neither the
        records nor the handle are affected. */
    method SetStatus(addr: nat, status: nat, ghost i: nat, ghost j: nat)
      requires Valid() && status < TSL_NUM && i < image.live && j < |image.view[i].entries|
      requires addr == IndexAddr(Base(secSize, Phys(n, image.oldest, i)), j)
      modifies this`image, flash
      ensures Valid() && image == WithStatus(old(image), i, j, status)
      ensures image == old(image).(view := image.view) && |image.view| == n && |image.view[i].entries| > j
      ensures forall a | 0 <= a < n && a != i :: image.view[a] == old(image).view[a]
      ensures var was, now := old(image).view[i], image.view[i];
              && now == was.(entries := now.entries) && |now.entries| == |was.entries|
              && (forall b | 0 <= b < |was.entries| && b != j :: now.entries[b] == was.entries[b])
              && now.entries[j].rec == was.entries[j].rec
              && now.entries[j].status == (if status > was.entries[j].status then status else was.entries[j].status)
              && addr < |flash.mem| && StatusOf(flash.mem[addr], TSL_NUM) == now.entries[j].status
      ensures status >= old(image).view[i].entries[j].status ==> flash.exact == old(flash.exact)
    {
      hide Holds, Records, Increasing, StatusByte, And, Base, HandleOk;
      ghost var b := Base(secSize, Phys(n, image.oldest, i));
      ghost var sec, m := image.view[i], flash.mem;
      EntryInFlash(m, b, secSize, sec, j);
      PutStatus(addr, status, sec.entries[j].status);
      StatusAdvanced(m, flash.mem, b, secSize, sec, j, status);
      StatusStep(m, flash.mem, secSize, n, image, i, j, status);
      StatusKeepsHandle(secSize, n, image, cur, lastTime, i, j, status);
      StatusByteDecodes(TSL_NUM, Raise(sec.entries[j], status).status);
      image := WithStatus(image, i, j, status);
    }

    /** read_tsl. It does not look whether the reading has failed; then its buffer is as it was. */
    method ReadTsl(addr: nat, noise: Noise) returns (t: Tsl)
      ensures t == ReadAs(flash.mem, addr, maxLen, noise)
    {
      var idx := noise;
      if addr + IDX <= |flash.mem| { idx := flash.Read(addr, IDX); }
      var st := GetStatus([idx[0]], TSL_NUM);
      if st == PRE_WRITE || st == UNUSED {
        t := Tsl(st, 0, maxLen, addr, FAILED);
      } else {
        t := Tsl(st, Int32(Word(idx, 4)), Word(idx, 8), addr, Word(idx, 12));
      }
    }

    /** Reading the i-th index entry of a well-formed sector. */
    method ReadEntry(addr: nat, ghost base: nat, ghost sec: Sector, ghost i: nat) returns (t: Tsl)
      requires Holds(flash.mem, base, secSize, sec) && i < |sec.entries| && addr == IndexAddr(base, i)
      ensures t == TslOf(base, secSize, sec.entries, i) && GoodEntry(sec.entries[i])
    {
      EntryOrFree(flash.mem, base, secSize, sec, i, maxLen);
      t := ReadTsl(addr, BLANK);
    }

    method StatusFrom(b: byte, num: nat, ghost k: nat) returns (st: nat)
      requires k < num <= 8 && b == StatusByte(k)
      ensures st == k
    {
      StatusByteDecodes(num, k);
      st := GetStatus([b], num);
    }

    /** The header part of read_sector_info. */
    method DecodeHeader(hdr: seq<byte>, addr: nat, prev: SecInfo, ghost sec: Sector) returns (s: SecInfo)
      requires HDR <= secSize && addr + secSize <= |flash.mem| && hdr == flash.mem[addr..addr + HDR]
      requires EMPTY <= sec.store <= FULL && HeaderHolds(flash.mem, addr, secSize, sec)
      requires IndexAddr(addr, |sec.entries|) < 0x8000_0000
      requires sec.store == FULL ==> GoodTime(sec.entries[|sec.entries| - 1].rec.time)
      ensures s == HeaderInfo(addr, secSize, sec, prev)
    {
      var st := StatusFrom(hdr[0], STORE_NUM, sec.store);
      var e0 := StatusFrom(hdr[20], TSL_NUM, if sec.store == FULL then WRITE else UNUSED);
      var e1 := StatusFrom(hdr[32], TSL_NUM, UNUSED);
      s := prev.(checkOk := true, addr := addr, status := st, startTime := Int32(Word(hdr, 8)), endStat0 := e0,
        endStat1 := e1);
      if e0 == WRITE {
        s := s.(endTime := Int32(Word(hdr, 12)), endIdx := Word(hdr, 16));
      } else if e1 == WRITE {
        assert false;
      } else if e0 == PRE_WRITE && e1 == PRE_WRITE {
        assert false;
      }
      s := s.(emptyIdx := addr + HDR, emptyData := addr + secSize, remain := secSize - HDR);
    }

    /** read_sector_info on a sector that is either well formed or lacks the magic word. With traversal the
        sector being written is walked. */
    method ReadSectorInfo(addr: nat, prev: SecInfo, traversal: bool, noises: seq<Noise>, ghost sec: Sector)
      returns (err: Err, s: SecInfo)
      requires HDR <= secSize && addr + secSize <= |flash.mem| < 0x8000_0000 && maxLen < 0x8000_0000
      requires Word(flash.mem, addr + 4) != MAGIC || Holds(flash.mem, addr, secSize, sec)
      requires traversal && Word(flash.mem, addr + 4) == MAGIC && sec.store == USING ==> sec.entries != []
      ensures Word(flash.mem, addr + 4) != MAGIC ==>
                err == InitFailed && s == prev.(checkOk := false, addr := addr)
      ensures Word(flash.mem, addr + 4) == MAGIC && (!traversal || sec.store != USING) ==>
                s == HeaderInfo(addr, secSize, sec, prev) && err == NoErr
      ensures Word(flash.mem, addr + 4) == MAGIC && traversal && sec.store == USING ==>
                if WalkClear(flash.mem, addr, secSize, sec, maxLen, noises)
                then s == UsingInfo(addr, secSize, sec) && (err == NoErr <==> Used(sec.entries) < secSize)
                else Astray(s, addr, |sec.entries|) && s.checkOk
    {
      var hdr := flash.Read(addr, HDR);
      if Word(hdr, 4) != MAGIC {
        return InitFailed, prev.(checkOk := false, addr := addr);
      }
      assert Holds(flash.mem, addr, secSize, sec);
      HeaderFacts(flash.mem, addr, secSize, sec);
      err := NoErr;
      s := DecodeHeader(hdr, addr, prev, sec);
      if s.status == USING && traversal {
        err, s := Traverse(s, noises, sec);
      }
    }

    /** The traversal of read_sector_info: walking the index until an unused entry or until the space is used up. Where
        the reading fails, `noises` holds what is found in the buffer, one after the other. */
    method Traverse(s0: SecInfo, noises: seq<Noise>, ghost sec: Sector) returns (err: Err, s: SecInfo)
      requires HDR <= secSize && s0.addr + secSize <= |flash.mem| < 0x8000_0000 && maxLen < 0x8000_0000
      requires Holds(flash.mem, s0.addr, secSize, sec) && sec.store == USING && sec.entries != []
      requires s0 == HeaderInfo(s0.addr, secSize, sec, s0)
      ensures if WalkClear(flash.mem, s0.addr, secSize, sec, maxLen, noises)
              then s == UsingInfo(s0.addr, secSize, sec) && (err == NoErr <==> Used(sec.entries) < secSize)
              else Astray(s, s0.addr, |sec.entries|) && s.checkOk
    {
      hide Holds, TslAt, HeaderInfo;
      s, err := s0, NoErr;
      HeaderOfUsing(s0, secSize, sec);
      HoldsFits(flash.mem, s0.addr, secSize, sec);
      ghost var base, es := s0.addr, sec.entries;
      ghost var i, lost := 0, false;
      var left := noises;
      assert es[..0] == [];
      while true
        invariant 0 <= i <= |es| && err == NoErr
        invariant i == |es| ==> Used(es) < secSize
        invariant !lost ==> SizePrefixLe(es, i) && s == WalkInfo(s0, es, i, secSize) && left == noises
        invariant lost ==> i == |es| && Astray(s, base, |es|) && s.checkOk
        invariant lost ==> s.emptyIdx > s.endIdx && s.emptyIdx + IDX > |flash.mem|
        invariant lost ==> !WalkClear(flash.mem, base, secSize, sec, maxLen, noises)
        decreases |es| - i, |left|
      {
        var noise := BLANK;
        BlankIsUnused(maxLen);
        if s.emptyIdx + IDX > |flash.mem| && |left| > 0 { noise, left := left[0], left[1..]; }
        if !lost { EntryOrFree(flash.mem, base, secSize, sec, i, maxLen); }
        var t := ReadTsl(s.emptyIdx, noise);
        if t.status == UNUSED { break; }
        ReadAsBounds(flash.mem, s.emptyIdx, maxLen, noise);
        if i < |es| {
          WalkStep(s0, base, es, i, secSize);
          i := i + 1;
        } else {
          lost := true;
        }
        var r := WalkOver(s, t);
        s, err := r.0, r.1;
        if err != NoErr { break; }
      }
      assert es[..|es|] == es;
    }
  }

  /** One step of the traversal: account for entry t, or stop because no space is left to account for. */
  function WalkOver(s: SecInfo, t: Tsl): (SecInfo, Err)
    requires t.logLen < 0x1_0000_0000
  {
    // Sums and differences of 32 bits.
    var data := if s.emptyData >= t.logLen then s.emptyData - t.logLen else s.emptyData + 0x1_0000_0000 - t.logLen;
    var space := if IDX + t.logLen < 0x1_0000_0000 then IDX + t.logLen else IDX + t.logLen - 0x1_0000_0000;
    var s' := s.(endTime := t.time, endIdx := s.emptyIdx, emptyIdx := s.emptyIdx + IDX, emptyData := data);
    if s.remain > space then (s'.(remain := s.remain - space), NoErr) else (s'.(remain := 0), ReadErr)
  }

  lemma BlankIsUnused(maxLen: nat)
    ensures TslAt(BLANK, 0, maxLen).status == UNUSED
  {
    assert BLANK[0] == StatusByte(UNUSED);
    StatusByteDecodes(TSL_NUM, UNUSED);
  }

  lemma ReadAsBounds(mem: seq<byte>, a: nat, maxLen: nat, noise: Noise)
    requires maxLen < 0x8000_0000
    ensures ReadAs(mem, a, maxLen, noise).logLen < 0x1_0000_0000
  {
  }

  lemma HeaderOfUsing(s0: SecInfo, size: nat, sec: Sector)
    requires HDR <= size && sec.store == USING && s0 == HeaderInfo(s0.addr, size, sec, s0)
    ensures s0.checkOk && s0.status == USING && s0.startTime == sec.start && s0.endStat0 == s0.endStat1 == UNUSED
    ensures s0.remain == size - HDR && s0.emptyIdx == IndexAddr(s0.addr, 0) && s0.emptyData == s0.addr + size
  {
  }

  /** An index position of a well-formed sector reads as its entry, or as unused if it is the one behind the last. */
  lemma EntryOrFree(mem: seq<byte>, base: nat, size: nat, sec: Sector, i: nat, maxLen: nat)
    requires Holds(mem, base, size, sec) && i <= |sec.entries|
    ensures Used(sec.entries) <= size
    ensures i < |sec.entries| ==> IndexAddr(base, i) + IDX <= |mem| && GoodEntry(sec.entries[i])
                                  && TslAt(mem, IndexAddr(base, i), maxLen) == TslOf(base, size, sec.entries, i)
    ensures i == |sec.entries| && IndexAddr(base, i) + IDX <= |mem| && Used(sec.entries) < size ==>
              TslAt(mem, IndexAddr(base, i), maxLen).status == UNUSED
  {
    if i < |sec.entries| {
      EntryReadsBack(mem, base, size, sec, i, maxLen);
      assert EntryAt(mem, base, size, sec.entries, i);
    } else if Used(sec.entries) < size {
      assert mem[IndexAddr(base, i)] == StatusByte(UNUSED);
      StatusByteDecodes(TSL_NUM, UNUSED);
    }
  }

  /** The index position behind the last entry of every sector lies inside the flash. */
  ghost predicate PastReadable(mem: seq<byte>, size: nat, n: nat, im: Image)
    requires im.oldest < n == |im.view|
  {
    forall i | 0 <= i < n && im.view[i].entries != [] ::
      IndexAddr(Base(size, Phys(n, im.oldest, i)), |im.view[i].entries|) + IDX <= |mem|
  }

  /** No sector that holds entries is filled to its last byte. */
  ghost predicate NoneTight(size: nat, im: Image) {
    forall i | 0 <= i < |im.view| && im.view[i].entries != [] :: Used(im.view[i].entries) < size
  }

  /** The records that a handle accepts in turn when the newest so far has the time `last`. */
  function Accepted(recs: seq<Record>, last: int, maxLen: nat): seq<Record> {
    if recs == [] then []
    else if |recs[0].blob| > maxLen || recs[0].time <= last then Accepted(recs[1..], last, maxLen)
    else [recs[0]] + Accepted(recs[1..], recs[0].time, maxLen)
  }

  /** A run of appends. The history grows by what is accepted, the ring holds a suffix of it, and nothing is missing
      unless all sectors hold entries and none but the newest has room for a longest one. */
  method AppendAll(db: TsDb, recs: seq<Record>)
    requires db.Valid() && WellFilled(db.secSize, db.maxLen, db.n, db.image)
    requires forall i | 0 <= i < |recs| :: recs[i].time < 0x8000_0000
    modifies db, db.flash
    ensures db.Valid() && db.image.log == old(db.image.log) + Accepted(recs, old(db.lastTime), db.maxLen)
    ensures db.image.dropped <= |db.image.log| && Records(db.image.view) == db.image.log[db.image.dropped..]
    ensures var im := db.image;
            im.dropped > 0 ==>
              forall i | 0 <= i < db.n ::
                im.view[i].entries != []
                && (i < db.n - 1 ==> Used(im.view[i].entries) + IDX + db.maxLen > db.secSize)
  {
    hide Quiet, HandleOk, Records, Used, AfterAppend, HDR;
    ghost var log0, all := db.image.log, Accepted(recs, db.lastTime, db.maxLen);
    for k := 0 to |recs|
      invariant db.Valid() && WellFilled(db.secSize, db.maxLen, db.n, db.image)
      invariant log0 + all == db.image.log + Accepted(recs[k..], db.lastTime, db.maxLen)
    {
      assert recs[k..][0] == recs[k] && recs[k..][1..] == recs[k + 1..];
      var err := db.Append(recs[k].blob, recs[k].time);
    }
    RingOfRun(db.flash.mem, db.secSize, db.maxLen, db.n, db.image);
  }

  lemma RingOfRun(mem: seq<byte>, size: nat, maxLen: nat, n: nat, im: Image)
    requires Quiet(mem, size, n, im) && WellFilled(size, maxLen, n, im)
    ensures im.dropped <= |im.log| && Records(im.view) == im.log[im.dropped..] && |im.view| == n
    ensures im.dropped > 0 ==> forall i | 0 <= i < n :: im.view[i].entries != []
                                   && (i < n - 1 ==> Used(im.view[i].entries) + IDX + maxLen > size)
  {
  }

  /** A fresh handle on the flash of a running one: after any run of appends, status changes and restarts it holds
      the same description of the current sector, the same oldest sector and the same last time, if and only if the
      walk over the current sector does not take what a failing read leaves behind for an entry. */
  method Restart(db: TsDb, check: seq<Noise>, reload: seq<Noise>) returns (again: TsDb)
    requires db.Valid()
    modifies db.flash
    ensures fresh(again) && again.flash == db.flash && db.flash.mem == old(db.flash.mem)
    ensures var clear := StartClear(db.flash.mem, db.secSize, db.n, old(db.image), db.maxLen, reload);
            && (again.Valid() <==> clear)
            && (clear ==> again.image == old(db.image) && again.oldestAddr == old(db.oldestAddr)
                          && again.lastTime == old(db.lastTime))
            && (old(db.image.live) > 0 ==> (again.cur == old(db.cur) <==> clear))
  {
    hide Holds, Quiet, StartClear, HeaderInfo, Size, Phys;
    QuietBounds(db.flash.mem, db.secSize, db.n, db.image);
    NotAstray(db.secSize, db.n, db.image, db.cur, db.lastTime);
    again := new TsDb(db.flash, db.secSize, db.maxSize, db.maxLen, check, reload, db.n, db.image, false);
  }

  lemma NotAstray(size: nat, n: nat, im: Image, cur: SecInfo, lastTime: int)
    requires im.oldest < n && |im.view| == n && im.live <= n && HDR <= size && HandleOk(size, n, im, cur, lastTime)
    ensures !AstrayIn(size, n, im, cur)
  {
  }

  /** The data that fills the first sector of the example below to its last byte; read as an index entry it is a
      written one of time 5. */
  const BAIT: seq<byte> := [0x3F, 0, 0, 0, 5, 0, 0, 0]

  lemma BaitImage() returns (im: Image)
    ensures im == AfterAppend(64, 3, AfterAppend(64, 3, FreshImage(3), Record(1, BAIT)), Record(10, []))
    ensures im == Image(0, [Sector(FULL, 1, [Entry(Record(1, BAIT), WRITE)]),
            Sector(USING, 10, [Entry(Record(10, []), WRITE)]), EMPTY_SECTOR],
                        2, [Record(1, BAIT), Record(10, [])], 0)
  {
    var e1, e2 := Entry(Record(1, BAIT), WRITE), Entry(Record(10, []), WRITE);
    assert Size([]) == 0 && [e1][..0] == [] && Size([e1]) == 8;
    assert FreshImage(3).view == [EMPTY_SECTOR, EMPTY_SECTOR, EMPTY_SECTOR];
    assert [] + [e1] == [e1] && [] + [e2] == [e2];
    im := AfterAppend(64, 3, AfterAppend(64, 3, FreshImage(3), Record(1, BAIT)), Record(10, []));
  }

  lemma BaitIsTaken(mem: seq<byte>, im: Image)
    requires Quiet(mem, 64, 3, im)
    requires im == Image(0, [Sector(FULL, 1, [Entry(Record(1, BAIT), WRITE)]),
             Sector(USING, 10, [Entry(Record(10, []), WRITE)]), EMPTY_SECTOR],
                         2, [Record(1, BAIT), Record(10, [])], 0)
    ensures Harmful(im, PastOf(mem, 64, 3, im, 8, BLANK, BLANK), 20, 1, 0)
  {
    hide Holds, TslAt, Size;
    assert Base(64, 0) == 0 && Base(64, 1) == 64 && Base(64, 3) == 192 && Phys(3, 0, 0) == 0 && Phys(3, 0, 1) == 1;
    assert Holds(mem, Base(64, Phys(3, 0, 0)), 64, im.view[0]);
    BaitBytes(mem);
    BaitReads(mem);
    PastIs(mem, 64, 3, im, 8, BLANK, BLANK, 0);
  }

  lemma BaitBytes(mem: seq<byte>)
    requires Holds(mem, 0, 64, Sector(FULL, 1, [Entry(Record(1, BAIT), WRITE)]))
    ensures mem[56] == 0x3F && mem[60] == 5 && mem[61] == 0 && mem[62] == 0 && mem[63] == 0
  {
    var es := [Entry(Record(1, BAIT), WRITE)];
    assert es[..1] == es && es[..0] == [] && Size(es) == 8;
    EntryReadsBack(mem, 0, 64, Sector(FULL, 1, es), 0, 8);
    var d := mem[56..64];
    assert d == BAIT;
    assert mem[56] == d[0] && mem[60] == d[4] && mem[61] == d[5] && mem[62] == d[6] && mem[63] == d[7];
  }

  lemma BaitReads(mem: seq<byte>)
    requires |mem| >= 72 && mem[56] == 0x3F && mem[60] == 5 && mem[61] == 0 && mem[62] == 0 && mem[63] == 0
    ensures TslAt(mem, 56, 8).status == WRITE && TslAt(mem, 56, 8).time == 5
  {
    assert StatusByte(WRITE) == 0x3F by { assert Pow2(6) == 64; }
    StatusByteDecodes(TSL_NUM, WRITE);
  }

  /** A run that leaves a sector filled to its last byte and a downward query that then goes wrong. */
  method TightSectorMisleads(flash: Flash) returns (db: TsDb, seen: seq<Tsl>)
    requires |flash.mem| == 192 && Clean(flash.mem, 0, 192)
    modifies flash
    ensures db.Valid() && db.flash == flash && Fits(db.secSize, db.image.view)
    ensures seen == Query(Never, db.secSize, db.n, db.image,
            PastOf(flash.mem, db.secSize, db.n, db.image, db.maxLen, BLANK, BLANK), 20, 1, 0, false)
    ensures seen != InWindow(Reverse(Visits(db.secSize, db.n, db.image, db.n)), 1, 20)
  {
    assert Base(64, 3) == 192;
    assert Word(flash.mem, 4) != MAGIC;
    db := new TsDb(flash, 64, 192, 8, [], [], 3, FreshImage(3), true);
    var err := db.Append(BAIT, 1);
    err := db.Append([], 10);
    ghost var im := BaitImage();
    assert db.image == im;
    BaitIsTaken(flash.mem, im);
    seen := db.IterByTime(20, 1, Never, BLANK, BLANK);
    DownQueryRightExactly(flash.mem, 64, 3, im, 8, BLANK, BLANK, 20, 1);
  }

  /** What a failing read may find in its buffer: an index entry that has been read before. */
  const STALE: Noise := [0x3F, 0xFF, 0xFF, 0xFF, 1, 0, 0, 0, 0, 0, 0, 0, 64, 0, 0, 0]

  lemma TwoShort() returns (im: Image)
    ensures im == AfterAppend(64, 2, AfterAppend(64, 2, FreshImage(2), Record(1, [])), Record(2, []))
    ensures im == Image(0, [Sector(FULL, 1, [Entry(Record(1, []), WRITE)]), Sector(USING, 2,
            [Entry(Record(2, []), WRITE)])], 2, [Record(1, []), Record(2, [])], 0)
  {
    var e1, e2 := Entry(Record(1, []), WRITE), Entry(Record(2, []), WRITE);
    assert Size([]) == 0 && [e1][..0] == [] && Size([e1]) == 0;
    assert FreshImage(2).view == [EMPTY_SECTOR, EMPTY_SECTOR];
    assert [] + [e1] == [e1] && [] + [e2] == [e2];
    var mid := AfterAppend(64, 2, FreshImage(2), Record(1, []));
    assert mid == Image(0, [Sector(USING, 1, [e1]), EMPTY_SECTOR], 1, [Record(1, [])], 0);
    im := AfterAppend(64, 2, mid, Record(2, []));
  }

  lemma StaleIsTaken(mem: seq<byte>, im: Image)
    requires |mem| == 128 && im.oldest == 0 && im.live == 2 == |im.view|
    requires im.view[1].entries == [Entry(Record(2, []), WRITE)]
    ensures !StartClear(mem, 64, 2, im, 8, [STALE])
  {
    var es := im.view[1].entries;
    assert es[..0] == [] && Size(es) == 0;
    assert Base(64, 0) == 0 && Base(64, 1) == 64 && Phys(2, 0, 1) == 1;
    hide TslAt, Size, Base, Phys;
    StaleReads();
  }

  lemma StaleReads()
    ensures TslAt(STALE, 0, 8).status == WRITE
  {
    assert StatusByte(WRITE) == 0x3F by { assert Pow2(6) == 64; }
    StatusByteDecodes(TSL_NUM, WRITE);
    hide Word, StatusByte;
  }

  /** A run after which the current sector is the last one of the flash and has eight bytes left. */
  method AppendTwoShort(flash: Flash) returns (db: TsDb)
    requires |flash.mem| == 128 && Clean(flash.mem, 0, 128)
    modifies flash
    ensures fresh(db) && db.Valid() && db.flash == flash && db.n == 2 && db.secSize == 64 && db.maxLen == 8
    ensures |flash.mem| == 128 && db.image.oldest == 0 && db.image.live == 2 == |db.image.view|
    ensures db.image.view[1].entries == [Entry(Record(2, []), WRITE)]
  {
    assert Base(64, 2) == 128;
    assert Word(flash.mem, 4) != MAGIC;
    db := new TsDb(flash, 64, 128, 8, [], [], 2, FreshImage(2), true);
    var err := db.Append([], 1);
    err := db.Append([], 2);
    ghost var im := TwoShort();
  }

  /** The restart then takes the remains of an earlier read for one more entry. */
  method RestartGoesAstray(flash: Flash) returns (db: TsDb, again: TsDb)
    requires |flash.mem| == 128 && Clean(flash.mem, 0, 128)
    modifies flash
    ensures db.Valid() && again.flash == db.flash == flash && !again.Valid() && again.cur != db.cur
  {
    hide StartClear, TslAt, Size, Holds, Quiet, HandleOk, Base, Clean;
    db := AppendTwoShort(flash);
    StaleIsTaken(flash.mem, db.image);
    again := Restart(db, [], [STALE]);
  }

  // Changing the status of an entry

  function Raise(e: Entry, status: nat): Entry {
    if status > e.status then e.(status := status) else e
  }

  function Raised(es: seq<Entry>, j: nat, status: nat): seq<Entry>
    requires j < |es|
  {
    es[j := Raise(es[j], status)]
  }

  function WithStatus(im: Image, i: nat, j: nat, status: nat): Image
    requires i < |im.view| && j < |im.view[i].entries|
  {
    im.(view := im.view[i := im.view[i].(entries := Raised(im.view[i].entries, j, status))])
  }

  lemma {:induction false} RaiseKeepsSize(es: seq<Entry>, j: nat, status: nat, m: nat)
    requires j < |es| && m <= |es|
    ensures Size(Raised(es, j, status)[..m]) == Size(es[..m])
  {
    if m > 0 {
      RaiseKeepsSize(es, j, status, m - 1);
      assert Raised(es, j, status)[..m][..m - 1] == Raised(es, j, status)[..m - 1];
      assert es[..m][..m - 1] == es[..m - 1];
    }
  }

  lemma RaiseKeepsTotal(es: seq<Entry>, j: nat, status: nat)
    requires j < |es|
    ensures Size(Raised(es, j, status)) == Size(es) && |Raised(es, j, status)| == |es|
    ensures Recs(Raised(es, j, status)) == Recs(es)
  {
    RaiseKeepsSize(es, j, status, |es|);
    assert es[..|es|] == es && Raised(es, j, status)[..|es|] == Raised(es, j, status);
  }

  lemma EntryInFlash(mem: seq<byte>, base: nat, size: nat, sec: Sector, j: nat)
    requires Holds(mem, base, size, sec) && j < |sec.entries|
    ensures IndexAddr(base, j) + IDX <= base + size <= |mem|
    ensures mem[IndexAddr(base, j)] == StatusByte(sec.entries[j].status) && WRITE <= sec.entries[j].status < TSL_NUM
  {
    assert EntryAt(mem, base, size, sec.entries, j);
  }

  /** Advancing one status byte changes one entry of the sector and nothing else. */
  lemma StatusAdvanced(mem: seq<byte>, mem': seq<byte>, base: nat, size: nat, sec: Sector, j: nat, status: nat)
    requires Holds(mem, base, size, sec) && j < |sec.entries| && status < TSL_NUM
    requires IndexAddr(base, j) < |mem|
             && mem' == mem[IndexAddr(base, j) := StatusByte(Raise(sec.entries[j], status).status)]
    ensures Holds(mem', base, size, sec.(entries := Raised(sec.entries, j, status)))
    ensures SameExcept(mem, mem', base, base + size)
  {
    var es, es' := sec.entries, Raised(sec.entries, j, status);
    RaiseKeepsTotal(es, j, status);
    EntryInFlash(mem, base, size, sec, j);
    forall k | 0 <= k < |es'| ensures EntryAt(mem', base, size, es', k) {
      StatusAdvancedEntry(mem, mem', base, size, sec, j, status, k);
    }
  }

  lemma StatusAdvancedEntry(mem: seq<byte>, mem': seq<byte>, base: nat, size: nat, sec: Sector, j: nat, status: nat,
        k: nat)
    requires Holds(mem, base, size, sec) && j < |sec.entries| && k < |sec.entries| && status < TSL_NUM
    requires IndexAddr(base, j) < |mem|
             && mem' == mem[IndexAddr(base, j) := StatusByte(Raise(sec.entries[j], status).status)]
    ensures Used(Raised(sec.entries, j, status)) <= size
    ensures EntryAt(mem', base, size, Raised(sec.entries, j, status), k)
  {
    hide StatusByte, Size;
    var es, es' := sec.entries, Raised(sec.entries, j, status);
    RaiseKeepsTotal(es, j, status);
    RaiseKeepsSize(es, j, status, k + 1);
    RegionsDisjoint(mem, base, size, sec, j, k);
    assert EntryAt(mem, base, size, es, k);
    var d := LogAddr(base, size, es, k);
    assert mem'[d..d + |es[k].rec.blob|] == mem[d..d + |es[k].rec.blob|];
  }

  lemma StatusStep(mem: seq<byte>, mem': seq<byte>, size: nat, n: nat, im: Image, i: nat, j: nat, status: nat)
    requires Quiet(mem, size, n, im) && i < im.live && j < |im.view[i].entries|
    requires var b := Base(size, Phys(n, im.oldest, i));
             SameExcept(mem, mem', b, b + size) && Holds(mem', b, size, WithStatus(im, i, j, status).view[i])
    ensures Quiet(mem', size, n, WithStatus(im, i, j, status))
  {
    hide Holds, Records, Size;
    RaiseKeepsTotal(im.view[i].entries, j, status);
    BytesHoldAfterWrite(mem, mem', size, n, im.oldest, im.view, i, WithStatus(im, i, j, status).view[i]);
    RecordsIgnoreMarks(im.view, WithStatus(im, i, j, status).view);
  }

  lemma StatusKeepsHandle(size: nat, n: nat, im: Image, cur: SecInfo, lastTime: int, i: nat, j: nat, status: nat)
    requires im.oldest < n == |im.view| && i < im.live <= n && HDR <= size && j < |im.view[i].entries|
    requires HandleOk(size, n, im, cur, lastTime)
    ensures HandleOk(size, n, WithStatus(im, i, j, status), cur, lastTime)
  {
    hide Size;
    RaiseKeepsTotal(im.view[i].entries, j, status);
  }

  lemma NoneTightMeansUnused(mem: seq<byte>, size: nat, n: nat, im: Image, maxLen: nat, search: Noise, look: Noise)
    requires Quiet(mem, size, n, im)
    ensures NoneTight(size, im) && PastReadable(mem, size, n, im) ==>
              forall i | 0 <= i < n && im.view[i].entries != [] ::
                PastOf(mem, size, n, im, maxLen, search, look)[i].seen.status == UNUSED
  {
    hide Word;
    if NoneTight(size, im) && PastReadable(mem, size, n, im) {
      forall i | 0 <= i < n && im.view[i].entries != []
        ensures PastOf(mem, size, n, im, maxLen, search, look)[i].seen.status == UNUSED
      {
        var b := Base(size, Phys(n, im.oldest, i));
        assert Holds(mem, b, size, im.view[i]);
        assert mem[IndexAddr(b, |im.view[i].entries|)] == StatusByte(UNUSED);
        StatusByteDecodes(TSL_NUM, UNUSED);
      }
    }
  }

  lemma StartIsFirst(size: nat, n: nat, im: Image, up: bool, t: nat)
    requires 0 < size && im.oldest < n && im.live <= n && t < n
    ensures var start := Base(size, Phys(n, im.oldest, Stop(n, im, up, 0)));
            Base(size, Phys(n, im.oldest, Stop(n, im, up, t))) == start <==> t == 0
  {
    BaseInjective(size, Phys(n, im.oldest, Stop(n, im, up, t)), Phys(n, im.oldest, Stop(n, im, up, 0)));
  }

  lemma QueryStepMeans(cb: Tsl -> bool, size: nat, n: nat, im: Image, past: seq<Past>, from: int, to: int, t: nat,
        found: bool,
                       visited: seq<Tsl>, found': bool, leave: bool)
    requires im.oldest < n == |im.view| == |past| && Fits(size, im.view) && im.live <= n && t < n
    requires QueryStep(cb, size, n, im, past, from, to, t, found, visited, found', leave)
    ensures var rest := if leave then [] else Query(cb, size, n, im, past, from, to, t + 1, found');
            forall a: seq<Tsl> :: a + Query(cb, size, n, im, past, from, to, t, found) == (a + visited) + rest
  {
    hide Query;
  }

  lemma QueryAtEnd(cb: Tsl -> bool, size: nat, n: nat, im: Image, past: seq<Past>, from: int, to: int, found: bool)
    requires im.oldest < n == |im.view| == |past| && Fits(size, im.view) && im.live <= n
    ensures Query(cb, size, n, im, past, from, to, n, found) == []
  {
  }

  function CountStatus(s: seq<Tsl>, status: nat): nat {
    if s == [] then 0 else CountStatus(s[..|s| - 1], status) + (if s[|s| - 1].status == status then 1 else 0)
  }

  lemma {:induction false} CountConcat(a: seq<Tsl>, b: seq<Tsl>, status: nat)
    ensures CountStatus(a + b, status) == CountStatus(a, status) + CountStatus(b, status)
    decreases |b|
  {
    if b == [] {
      assert a + b == a;
    } else {
      assert (a + b)[..|a + b| - 1] == a + b[..|b| - 1];
      CountConcat(a, b[..|b| - 1], status);
    }
  }

  predicate Counts(x: Tsl, from: int, to: int, status: nat) {
    x.status == status && (from <= x.time <= to || to <= x.time <= from)
  }

  /** The places of the log objects with this status and a time between the two bounds, whichever comes first. */
  ghost function Counted(s: seq<Tsl>, from: int, to: int, status: nat): set<nat> {
    set k: nat | k < |s| && Counts(s[k], from, to, status)
  }

  lemma {:induction false} CountIsNumber(s: seq<Tsl>, from: int, to: int, status: nat)
    ensures CountStatus(InWindow(s, Lo(from, to), Hi(from, to)), status) == |Counted(s, from, to, status)|
    decreases |s|
  {
    hide Counted, InWindow, CountStatus;
    if s == [] {
      NoneCounted(from, to, status);
    } else {
      var n := |s| - 1;
      CountIsNumber(s[..n], from, to, status);
      assert s == s[..n] + [s[n]];
      InWindowConcat(s[..n], [s[n]], Lo(from, to), Hi(from, to));
      OneInWindow(s[n], Lo(from, to), Hi(from, to), status);
      CountConcat(InWindow(s[..n], Lo(from, to), Hi(from, to)), InWindow([s[n]], Lo(from, to), Hi(from, to)), status);
      OneMoreCounted(s, from, to, status);
    }
  }

  lemma NoneCounted(from: int, to: int, status: nat)
    ensures CountStatus(InWindow([], from, to), status) == |Counted([], from, to, status)| == 0
    ensures InWindow([], Lo(from, to), Hi(from, to)) == InWindow([], from, to)
  {
  }

  lemma OneMoreCounted(s: seq<Tsl>, from: int, to: int, status: nat)
    requires s != []
    ensures var n := |s| - 1;
            |Counted(s, from, to, status)| == |Counted(s[..n], from, to, status)|
              + if s[n].status == status && Lo(from, to) <= s[n].time <= Hi(from, to) then 1 else 0
  {
    var n := |s| - 1;
    var a, b := Counted(s[..n], from, to, status), Counted(s, from, to, status);
    assert Counts(s[n], from, to, status) <==> s[n].status == status && Lo(from, to) <= s[n].time <= Hi(from, to);
    hide Counts;
    assert n !in a;
    forall k: nat ensures k in b <==> k in a || (k == n && Counts(s[n], from, to, status)) {
      if k < n { assert s[..n][k] == s[k]; }
    }
    assert b == if Counts(s[n], from, to, status) then a + {n} else a;
  }

  lemma OneInWindow(x: Tsl, lo: int, hi: int, status: nat)
    ensures CountStatus(InWindow([x], lo, hi), status) == if lo <= x.time <= hi && x.status == status then 1 else 0
  {
    assert [x][1..] == [] && [x][..0] == [];
    assert InWindow([x], lo, hi) == if lo <= x.time <= hi then [x] else [];
  }

  lemma VisitedInWindow(cb: Tsl -> bool, all: seq<Tsl>, from: int, to: int)
    ensures var visited := Until(cb, InWindow(if from <= to then all else Reverse(all), Lo(from, to), Hi(from, to)));
            && (forall x | x in visited :: x in all && (from <= x.time <= to || to <= x.time <= from))
            && (NoneStops(cb, visited) ==>
                  forall x | x in all && (from <= x.time <= to || to <= x.time <= from) :: x in visited)
  {
    var s := if from <= to then all else Reverse(all);
    var w := InWindow(s, Lo(from, to), Hi(from, to));
    WindowHolds(s, Lo(from, to), Hi(from, to));
    forall x ensures x in s <==> x in all {
      if x in all {
        var k :| 0 <= k < |all| && all[k] == x;
        assert Reverse(all)[|all| - 1 - k] == x;
      }
    }
    UntilIsPrefix(cb, w);
  }

  lemma {:induction false} UntilIsPrefix(cb: Tsl -> bool, w: seq<Tsl>)
    ensures forall x | x in Until(cb, w) :: x in w
    ensures NoneStops(cb, Until(cb, w)) ==> Until(cb, w) == w
  {
    if w != [] {
      UntilIsPrefix(cb, w[1..]);
      assert w == [w[0]] + w[1..];
    }
  }

  /** Counting does not depend on the walking direction. */
  lemma {:induction false} CountReversed(s: seq<Tsl>, lo: int, hi: int, status: nat)
    ensures CountStatus(InWindow(Reverse(s), lo, hi), status) == CountStatus(InWindow(s, lo, hi), status)
  {
    if s != [] {
      var h, r := [s[0]], s[1..];
      CountReversed(r, lo, hi, status);
      assert s == h + r;
      ReverseConcat(h, r);
      assert Reverse(h) == h;
      InWindowConcat(Reverse(r), h, lo, hi);
      InWindowConcat(h, r, lo, hi);
      CountConcat(InWindow(Reverse(r), lo, hi), InWindow(h, lo, hi), status);
      CountConcat(InWindow(h, lo, hi), InWindow(r, lo, hi), status);
    } else {
      assert Reverse(s) == s;
    }
  }

  lemma NeverStops(w: seq<Tsl>)
    ensures NoneStops(Never, w)
  {
  }

  lemma PastIs(mem: seq<byte>, size: nat, n: nat, im: Image, maxLen: nat, search: Noise, look: Noise, i: nat)
    requires im.oldest < n == |im.view| && i < n
    ensures var a := IndexAddr(Base(size, Phys(n, im.oldest, i)), |im.view[i].entries|);
            PastOf(mem, size, n, im, maxLen, search, look)[i]
            == Past(ReadAs(mem, a, maxLen, search).time, ReadAs(mem, a, maxLen, look))
  {
    hide ReadAs, Base;
  }

  /** One unfolding of Query. */
  ghost predicate QueryStep(cb: Tsl -> bool, size: nat, n: nat, im: Image, past: seq<Past>, from: int, to: int,
        t: nat, found: bool,
                            visited: seq<Tsl>, found': bool, leave: bool)
    requires im.oldest < n == |im.view| == |past| && Fits(size, im.view) && im.live <= n && t < n
  {
    Query(cb, size, n, im, past, from, to, t, found) ==
    if leave then visited else visited + Query(cb, size, n, im, past, from, to, t + 1, found')
  }

  lemma RestStep(size: nat, n: nat, im: Image, up: bool, from: int, t: nat, found: bool)
    requires Queryable(size, n, im) && t < n && im.view[Stop(n, im, up, t)].entries != []
    requires KeySorted(up, Rest(size, n, im, up, t))
    requires found ==> NotBefore(up, from, Rest(size, n, im, up, t))
    ensures var v := VisitDir(size, n, im, up, t);
            (found || Key(up, v[|v| - 1].time) >= Key(up, from)) ==>
            NotBefore(up, from, Rest(size, n, im, up, t + 1)) && Key(up, v[|v| - 1].time) >= Key(up, from)
  {
    hide VisitDir, Fits, Used;
    EndsOf(size, n, im, up, t);
    var v, rest := VisitDir(size, n, im, up, t), Rest(size, n, im, up, t + 1);
    if found { assert (v + rest)[|v| - 1] == v[|v| - 1]; }
    if found || Key(up, v[|v| - 1].time) >= Key(up, from) {
      RestNotBefore(up, from, v, rest, found);
    }
  }

  /** FDB_ALIGN(x, LOG_IDX_DATA_SIZE). */
  function AlignIdx(x: nat): nat { (x + IDX - 1) - (x + IDX - 1) % IDX }

  lemma MidIndex(base: nat, a: nat, b: nat)
    requires a <= b
    ensures IndexAddr(base, b) >= IndexAddr(base, a)
    ensures var mid := a + (b - a + 1) / 2;
            a <= mid <= b && IndexAddr(base, a) + AlignIdx((IndexAddr(base, b) - IndexAddr(base, a)) / 2)
              == IndexAddr(base, mid)
  {
    var k := b - a;
    assert (IndexAddr(base, b) - IndexAddr(base, a)) / 2 == 8 * k;
    if k % 2 == 0 {
      assert 8 * k + 15 == 16 * (k / 2) + 15;
    } else {
      assert 8 * k + 15 == 16 * ((k + 1) / 2) + 7;
    }
  }

  lemma ExactStart(es: seq<Entry>, j: nat, from: int)
    requires SortedEntries(es) && j < |es| && es[j].rec.time == from
    ensures FirstAtLeast(es, from) == j && FirstAtLeast(es, from + 1) == j + 1
    ensures j + 1 == |es| ==> es[|es| - 1].rec.time == from
  {
    FirstUnique(es, j, from);
    FirstUnique(es, j + 1, from + 1);
  }

  lemma SplitStart(es: seq<Entry>, a: nat, from: int)
    requires SortedEntries(es) && a <= |es|
    requires forall j | 0 <= j < a :: es[j].rec.time < from
    requires forall j | a <= j < |es| :: es[j].rec.time > from
    ensures FirstAtLeast(es, from) == a && FirstAtLeast(es, from + 1) == a
  {
    FirstUnique(es, a, from);
    FirstUnique(es, a, from + 1);
  }

  lemma StartIndexExact(es: seq<Entry>, past: Past, from: int, to: int, j: nat)
    requires j < |es| && FirstAtLeast(es, from) == j && FirstAtLeast(es, from + 1) == j + 1
    requires j + 1 == |es| ==> es[|es| - 1].rec.time == from
    ensures StartIndex(es, past, from, to) == j
  {
  }

  lemma StartIndexAfterSplit(es: seq<Entry>, past: Past, from: int, to: int, a: nat)
    requires a <= |es| && FirstAtLeast(es, from) == a && FirstAtLeast(es, from + 1) == a
    requires forall j | 0 <= j < a :: es[j].rec.time < from
    requires forall j | a <= j < |es| :: es[j].rec.time > from
    ensures StartIndex(es, past, from, to) ==
            if from <= to then a
            else if (if a < |es| then es[a].rec.time else past.sought) > from then a - 1 else a
  {
  }

  lemma ItemTime(base: nat, size: nat, es: seq<Entry>, past: Past, i: nat)
    requires Used(es) <= size && i <= |es|
    ensures Item(base, size, es, past, i).time == if i < |es| then es[i].rec.time else past.seen.time
  {
  }

  lemma StartExists(es: seq<Entry>, from: int, to: int)
    requires es != []
    requires if from <= to then es[|es| - 1].rec.time >= from else es[0].rec.time <= from
    ensures if from <= to then FirstAtLeast(es, from) < |es| else FirstAtLeast(es, from + 1) > 0
  {
  }

  lemma HoldsFits(mem: seq<byte>, base: nat, size: nat, sec: Sector)
    requires Holds(mem, base, size, sec)
    ensures Used(sec.entries) <= size
  {
  }

  /** When the callback stops in the t-th sector of a walk, the rest of the walk does not matter. */
  lemma StoppedInWalk(cb: Tsl -> bool, size: nat, n: nat, im: Image, up: bool, t: nat)
    requires im.oldest < n == |im.view| && Fits(size, im.view) && im.live <= n && t < n
    requires NoneStops(cb, Walk(size, n, im, up, t)) && !NoneStops(cb, VisitDir(size, n, im, up, t))
    ensures Until(cb, Walk(size, n, im, up, n)) == Walk(size, n, im, up, t) + Until(cb, VisitDir(size, n, im, up, t))
  {
    hide Until, Used, Fits, NoneStops, VisitDir, Walk;
    var a, b, rest := Walk(size, n, im, up, t), VisitDir(size, n, im, up, t), Rest(size, n, im, up, t + 1);
    WalkPlusRest(size, n, im, up, t);
    ConcatAssoc(a, b, rest);
    UntilStopsWithin(cb, a, b, rest);
  }

  /** One more sector of a walk in which the callback does not stop. */
  lemma WalkStepNone(cb: Tsl -> bool, size: nat, n: nat, im: Image, up: bool, t: nat)
    requires im.oldest < n == |im.view| && Fits(size, im.view) && im.live <= n && t < n
    requires NoneStops(cb, Walk(size, n, im, up, t)) && NoneStops(cb, VisitDir(size, n, im, up, t))
    ensures Walk(size, n, im, up, t + 1) == Walk(size, n, im, up, t) + VisitDir(size, n, im, up, t)
    ensures NoneStops(cb, Walk(size, n, im, up, t + 1))
  {
  }

  lemma WholeDownWalk(mem: seq<byte>, size: nat, n: nat, im: Image)
    requires Quiet(mem, size, n, im) && Fits(size, im.view)
    ensures im.oldest < n == |im.view| && im.live <= n
    ensures Walk(size, n, im, false, n) == Reverse(Visits(size, n, im, n))
  {
    hide Holds, Records, Fits;
    DownIsReverseOfUp(size, n, im);
  }

  lemma WalkEndsHere(mem: seq<byte>, size: nat, n: nat, im: Image, up: bool, t: nat)
    requires Quiet(mem, size, n, im) && Fits(size, im.view) && t < n
    requires im.live <= n && im.view[Stop(n, im, up, t)].entries == []
    ensures Walk(size, n, im, up, t) == Walk(size, n, im, up, n)
  {
    hide Used, Fits, Holds, Records;
    assert t >= im.live;
    RestOfEmpties(size, n, im, up, t);
    WalkPlusRest(size, n, im, up, t);
    assert Walk(size, n, im, up, t) + [] == Walk(size, n, im, up, t);
  }

  /** How many of the first k physical sectors are empty. */
  function EmptyAmong(n: nat, im: Image, k: nat): nat {
    if im.live < n && k > im.live then k - im.live else 0
  }

  /** The current-sector address the header check has found after k physical sectors. */
  function FoundCur(size: nat, n: nat, im: Image, k: nat): nat
    requires im.oldest < n && im.live <= n
  {
    if im.live == 0 then (if k > 0 then 0 else FAILED)
    else if k > Phys(n, im.oldest, im.live - 1) then CurBase(size, n, im)
    else FAILED
  }

  lemma QuietBounds(mem: seq<byte>, size: nat, n: nat, im: Image)
    requires Quiet(mem, size, n, im) && size > 0 && Base(size, n) < FAILED
    ensures |mem| == Base(size, n) && im.oldest < n == |im.view| && im.live <= n
    ensures im.live > 0 ==> CurBase(size, n, im) + size <= |mem|
  {
    hide Holds;
    if im.live > 0 { SectorWalk(size, n, Phys(n, im.oldest, im.live - 1), 0); }
  }

  function SectorToReload(im: Image): Sector
    requires im.live <= |im.view|
  {
    if im.live > 0 then im.view[im.live - 1] else EMPTY_SECTOR
  }

  lemma ReloadFacts(mem: seq<byte>, size: nat, n: nat, im: Image)
    requires Quiet(mem, size, n, im) && n > 0 && im.oldest < n == |im.view| && im.live <= n && size > 0
             && |mem| < FAILED
    ensures var sec, a := SectorToReload(im), if im.live > 0 then CurBase(size, n, im) else 0;
            && Holds(mem, a, size, sec) && a + size <= |mem| && (im.live == 0 ==> Base(size, im.oldest) == 0)
            && (sec.store == USING <==> im.live > 0) && (sec.store == EMPTY <==> im.live == 0)
            && (sec.store == USING ==> sec.entries != [])
  {
    hide Holds, Records, Increasing, Size;
    if im.live == 0 { assert Phys(n, 0, 0) == 0 && Base(size, 0) == 0; }
    WalkBounds(size, n, if im.live > 0 then Phys(n, im.oldest, im.live - 1) else 0);
  }

  lemma ReloadedStatus(a: nat, size: nat, sec: Sector, cur: SecInfo)
    requires Used(sec.entries) <= size && EMPTY <= sec.store <= FULL && sec.store != FULL && HDR <= size
    requires sec.store == USING ==>
               sec.entries != [] && (cur == UsingInfo(a, size, sec) || Astray(cur, a, |sec.entries|))
    requires sec.store != USING ==> exists prev :: cur == HeaderInfo(a, size, sec, prev)
    ensures cur.status == sec.store && cur.addr == a
    ensures sec.store == USING && cur == UsingInfo(a, size, sec) ==>
              cur.endTime == sec.entries[|sec.entries| - 1].rec.time && !Astray(cur, a, |sec.entries|)
    ensures sec.store == EMPTY ==> cur == HeaderInfo(a, size, sec, cur)
  {
  }

  /** What the header check meets at physical sector k, and where its running results go. */
  lemma KindOfSector(mem: seq<byte>, size: nat, n: nat, im: Image, k: nat)
    requires Quiet(mem, size, n, im) && k < n
    ensures Holds(mem, Base(size, k), size, im.view[Logical(n, im.oldest, k)])
    ensures var sec := im.view[Logical(n, im.oldest, k)];
            && (sec.store == USING <==> im.live > 0 && k == Phys(n, im.oldest, im.live - 1))
            && (sec.store == USING ==> sec == im.view[im.live - 1] && sec.entries != [])
            && (sec.store == EMPTY <==> im.live < n && k >= im.live)
            && (sec.store == EMPTY && im.live == 0 && k == 0 ==> Base(size, k) == 0)
            && (sec.store == EMPTY && im.live > 0 ==> k > Phys(n, im.oldest, im.live - 1))
  {
    hide Holds;
  }

  lemma HeaderFacts(mem: seq<byte>, base: nat, size: nat, sec: Sector)
    requires Holds(mem, base, size, sec) && |mem| < 0x8000_0000
    ensures Word(mem, base + 4) == MAGIC
    ensures HeaderHolds(mem, base, size, sec) && EMPTY <= sec.store <= FULL
    ensures Used(sec.entries) <= size && IndexAddr(base, |sec.entries|) < 0x8000_0000
    ensures sec.store == FULL ==> sec.entries != [] && GoodTime(sec.entries[|sec.entries| - 1].rec.time)
  {
    if sec.store == FULL {
      assert EntryAt(mem, base, size, sec.entries, |sec.entries| - 1);
    }
  }

  ghost predicate SizePrefixLe(es: seq<Entry>, i: nat) {
    i <= |es| && Size(es[..i]) <= Size(es)
  }

  /** The description after walking the first i entries of a sector. */
  ghost function WalkInfo(s0: SecInfo, es: seq<Entry>, i: nat, size: nat): SecInfo
    requires i <= |es| && Used(es) <= size && SizePrefixLe(es, i)
  {
    var s := s0.(emptyIdx := IndexAddr(s0.addr, i), emptyData := s0.addr + size - Size(es[..i]),
                 remain := size - HDR - IDX * i - Size(es[..i]));
    if i == 0 then s else s.(endTime := es[i - 1].rec.time, endIdx := IndexAddr(s0.addr, i - 1))
  }

  lemma WalkStep(s0: SecInfo, base: nat, es: seq<Entry>, i: nat, size: nat)
    requires i < |es| && Used(es) <= size < 0x8000_0000 && SizePrefixLe(es, i) && base == s0.addr
    ensures SizePrefixLe(es, i + 1)
    ensures var s := WalkInfo(s0, es, i, size);
            s.emptyData >= |es[i].rec.blob| && |es[i].rec.blob| < 0x8000_0000 &&
            WalkOver(s, TslOf(base, size, es, i)) ==
            (WalkInfo(s0, es, i + 1, size), if i + 1 == |es| && Used(es) == size then ReadErr else NoErr)
  {
    SizeStep(es, i);
    if i + 1 == |es| { assert es[..i + 1] == es; }
  }
}
