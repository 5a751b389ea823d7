/** NOR flash as the database sees it: erasing sets bytes to 0xFF, programming can only clear bits. */
module FlashDevice {
  import opened Bytes
  import opened StatusTable

  function Erased(mem: seq<byte>, addr: nat, n: nat): (r: seq<byte>)
    requires addr + n <= |mem|
    ensures |r| == |mem|
  {
    seq(|mem|, i requires 0 <= i < |mem| => if addr <= i < addr + n then ERASED else mem[i])
  }

  function Programmed(mem: seq<byte>, addr: nat, data: seq<byte>): (r: seq<byte>)
    requires addr + |data| <= |mem|
    ensures |r| == |mem|
  {
    seq(|mem|, i requires 0 <= i < |mem| => if addr <= i < addr + |data| then And(mem[i], data[i - addr]) else mem[i])
  }

  /** Programming stored exactly the bytes it was given. */
  ghost predicate Exact(mem: seq<byte>, addr: nat, data: seq<byte>)
    requires addr + |data| <= |mem|
  {
    forall i | 0 <= i < |data| :: And(mem[addr + i], data[i]) == data[i]
  }

  ghost predicate Clean(mem: seq<byte>, lo: int, hi: int)
    requires 0 <= lo && hi <= |mem|
  {
    forall i | lo <= i < hi :: mem[i] == ERASED
  }

  ghost predicate SameExcept(mem: seq<byte>, mem': seq<byte>, lo: int, hi: int) {
    |mem'| == |mem| && forall i | 0 <= i < |mem| && !(lo <= i < hi) :: mem'[i] == mem[i]
  }

  lemma ProgramClean(mem: seq<byte>, addr: nat, data: seq<byte>)
    requires addr + |data| <= |mem| && Clean(mem, addr, addr + |data|)
    ensures Exact(mem, addr, data)
    ensures forall i | 0 <= i < |data| :: Programmed(mem, addr, data)[addr + i] == data[i]
  {
    hide And;
    forall i | 0 <= i < |data| ensures And(mem[addr + i], data[i]) == data[i] {
      AndErased(data[i]);
    }
  }

  class Flash {
    var mem: seq<byte>
    // Holds as long as every program operation so far stored exactly the bytes it was given.
    ghost var exact: bool

    constructor (image: seq<byte>)
      ensures mem == image && exact
    {
      mem, exact := image, true;
    }

    method Erase(addr: nat, n: nat)
      requires addr + n <= |mem|
      modifies this
      ensures mem == Erased(old(mem), addr, n) && exact == old(exact)
    {
      mem := Erased(mem, addr, n);
    }

    method Program(addr: nat, data: seq<byte>)
      requires addr + |data| <= |mem|
      modifies this
      ensures mem == Programmed(old(mem), addr, data)
      ensures exact == (old(exact) && Exact(old(mem), addr, data))
    {
      hide And;
      exact := exact && Exact(mem, addr, data);
      mem := Programmed(mem, addr, data);
    }

    /** Programming bytes that are still erased stores them as given. */
    method ProgramFresh(addr: nat, data: seq<byte>)
      requires addr + |data| <= |mem| && Clean(mem, addr, addr + |data|)
      modifies this
      ensures SameExcept(old(mem), mem, addr, addr + |data|) && exact == old(exact)
      ensures forall i | 0 <= i < |data| :: mem[addr + i] == data[i]
    {
      ProgramClean(mem, addr, data);
      Program(addr, data);
    }

    method Read(addr: nat, n: nat) returns (data: seq<byte>)
      requires addr + n <= |mem|
      ensures data == mem[addr..addr + n]
    {
      data := mem[addr..addr + n];
    }

    /** _fdb_write_status: programs the one byte of the table at `addr` that the new status changes. */
    method WriteStatus(addr: nat, num: nat, index: nat)
      requires index < num && addr + TableSize(num) <= |mem|
      modifies this
      ensures SameExcept(old(mem), mem, addr, addr + TableSize(num))
      ensures mem[addr..addr + TableSize(num)] == Advance(old(mem[addr..addr + TableSize(num)]), index)
      ensures index > 0 && And(old(mem)[addr + (index - 1) / 8], Mask(index)) == Mask(index) ==> exact == old(exact)
      ensures index == 0 ==> exact == old(exact)
    {
      hide And, Mask;
      var table := new byte[TableSize(num)];
      var b := SetStatus(table, num, index);
      if b == -1 { return; }
      assert table[b] == Mask(index) by {
        assert table[..][b] == And(ERASED, Mask(index));
        AndErased(Mask(index));
      }
      Program(addr + b, [table[b]]);
      assert mem[addr..addr + TableSize(num)] == Advance(old(mem[addr..addr + TableSize(num)]), index);
    }

    /** The same for a table that fits in one byte, which is the case for every table of the database. */
    method WriteStatusByte(addr: nat, num: nat, index: nat)
      requires 0 < index < num <= 8 && addr < |mem|
      modifies this
      ensures mem == old(mem)[addr := And(old(mem)[addr], Mask(index))]
      ensures And(old(mem)[addr], Mask(index)) == Mask(index) ==> exact == old(exact)
    {
      hide And, Mask;
      assert TableSize(num) == 1 && (index - 1) / 8 == 0;
      WriteStatus(addr, num, index);
      assert mem[addr] == mem[addr..addr + 1][0];
      assert old(mem[addr..addr + 1])[0] == old(mem)[addr];
    }

    /** A whole read_status: what the table at `addr` decodes to. */
    method ReadStatus(addr: nat, num: nat) returns (status: nat)
      requires num > 0 && addr + TableSize(num) <= |mem|
      ensures status == Decode(mem[addr..addr + TableSize(num)], num)
    {
      var t := Read(addr, TableSize(num));
      status := GetStatus(t, num);
    }

    /** _fdb_continue_ff_addr: where the run of erased bytes that reaches `end` begins, or `end`. */
    method ContinueFF(start: nat, end: nat) returns (r: nat)
      requires end <= |mem|
      ensures start < end ==> start <= r <= end && Clean(mem, r, end)
      ensures start < r < end ==> mem[r - 1] != ERASED
      ensures start < r == end ==> mem[end - 1] != ERASED
      ensures start >= end ==> r == end
    {
      var s, addr: nat, last: byte := start, start, 0;
      while s < end
        invariant start <= addr && (s <= end ==> addr <= s)
        invariant start <= s && (start >= end ==> s == start)
        invariant s == start ==> addr == start && last == 0
        invariant var seen := if s < end then s else end;
                  s > start && start < end ==>
                    && last == mem[seen - 1] && addr <= seen
                    && (last == ERASED ==> addr < seen && Clean(mem, addr, seen))
                    && (last == ERASED && addr > start ==> mem[addr - 1] != ERASED)
        decreases end - s
      {
        var n := if s + 32 < end then 32 else end - s;
        var buf := Read(s, n);
        var i := 0;
        while i < n
          invariant 0 <= i <= n && start <= addr <= s + i
          invariant s + i == start ==> addr == start && last == 0
          invariant s + i > start ==>
                      && last == mem[s + i - 1]
                      && (last == ERASED ==> addr < s + i && Clean(mem, addr, s + i))
                      && (last == ERASED && addr > start ==> mem[addr - 1] != ERASED)
        {
          if last != ERASED && buf[i] == ERASED { addr := s + i; }
          last := buf[i];
          i := i + 1;
        }
        s := s + 32;
      }
      r := if last == ERASED then addr else end;
    }
  }
}
