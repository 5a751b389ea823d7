/** The write-once status tables of fdb_utils.c, for a write granularity of one bit. */
module StatusTable {
  import opened Bytes

  function TableSize(num: nat): nat { (num + 7) / 8 }

  function Blank(num: nat): (t: seq<byte>)
    ensures |t| == TableSize(num)
  {
    seq(TableSize(num), i => ERASED)
  }

  /** The byte that writing status `index` programs: 0xFF shifted right by index % 8. */
  function Mask(index: nat): (b: byte)
  {
    Pow2Fits(8 - index % 8);
    Pow2(8 - index % 8) - 1
  }

  lemma {:induction false} Pow2Fits(k: nat)
    requires k <= 8
    ensures Pow2(k) <= 0x100
    decreases 8 - k
  {
    if k == 8 { assert Pow2(4) == 16; } else { Pow2Fits(k + 1); }
  }

  /** Table position j has been written, i.e. its bit (0x80 >> j % 8) is zero. */
  predicate Written(t: seq<byte>, j: nat)
    requires j / 8 < |t|
  {
    And(t[j / 8], Pow2(7 - j % 8)) == 0
  }

  /** One more than the highest written position below n, or 0. */
  function Highest(t: seq<byte>, n: nat): (r: nat)
    requires (n + 7) / 8 <= |t|
    ensures r <= n
    ensures r > 0 ==> Written(t, r - 1)
    ensures forall j | r <= j < n :: !Written(t, j)
  {
    if n == 0 then 0 else if Written(t, n - 1) then n else Highest(t, n - 1)
  }

  /** The status a table of `num` states stands for. */
  function Decode(t: seq<byte>, num: nat): nat
    requires num > 0 && |t| >= TableSize(num)
  {
    Highest(t, num - 1)
  }

  /** What one status write does to a table already in flash: it programs one byte. */
  function Advance(t: seq<byte>, index: nat): (r: seq<byte>)
    requires index > 0 ==> (index - 1) / 8 < |t|
    ensures |r| == |t|
  {
    if index == 0 then t else t[(index - 1) / 8 := And(t[(index - 1) / 8], Mask(index))]
  }

  /** The state a write of `index` can be told apart by: a multiple of 8 shifts 0xFF by 0 and clears nothing. */
  function Effective(index: nat): nat {
    if index % 8 == 0 then 0 else index
  }

  /** The status table in memory: blank except for the one masked byte. Result None stands for SIZE_MAX. */
  method SetStatus(table: array<byte>, num: nat, index: nat) returns (byteIndex: int)
    requires table.Length == TableSize(num) && index < num
    modifies table
    ensures table[..] == Advance(Blank(num), index)
    ensures byteIndex == if index == 0 then -1 else (index - 1) / 8
  {
    byteIndex := -1;
    var i := 0;
    while i < table.Length
      invariant 0 <= i <= table.Length
      invariant forall k | 0 <= k < i :: table[k] == ERASED
    {
      table[i] := ERASED;
      i := i + 1;
    }
    assert table[..] == Blank(num);
    if index > 0 {
      byteIndex := (index - 1) / 8;
      table[byteIndex] := And(table[byteIndex], Mask(index));
    }
    assert table[..] == Advance(Blank(num), index);
  }

  method GetStatus(table: seq<byte>, num: nat) returns (status: nat)
    requires num > 0 && |table| >= TableSize(num)
    ensures status == Decode(table, num)
    ensures status < num
    ensures status > 0 ==> Written(table, status - 1)
    ensures forall j | status <= j < num - 1 :: !Written(table, j)
  {
    var i, bak, n := 0, num - 1, num - 1;
    while n > 0
      invariant 0 <= n <= bak && i == bak - n
      invariant Highest(table, bak) == Highest(table, n)
    {
      n := n - 1;
      if Written(table, n) { return bak - i; }
      i := i + 1;
    }
    status := bak - i;
  }

  lemma {:induction false} HighestUnique(t: seq<byte>, n: nat, r: nat)
    requires (n + 7) / 8 <= |t| && r <= n
    requires r > 0 ==> Written(t, r - 1)
    requires forall j | r <= j < n :: !Written(t, j)
    ensures Highest(t, n) == r
  {
    if r < n { HighestUnique(t, n - 1, r); }
  }

  lemma WrittenIsClearBit(t: seq<byte>, j: nat)
    requires j / 8 < |t|
    ensures Written(t, j) <==> !Bit(t[j / 8], 7 - j % 8)
  {
    AndPow2(t[j / 8], 7 - j % 8);
  }

  lemma MaskBits(index: nat, j: nat)
    requires index > 0 && j / 8 == (index - 1) / 8
    ensures !Bit(Mask(index), 7 - j % 8) <==> Effective(index) > 0 && j < index
  {
    BitOfOnes(8 - index % 8, 7 - j % 8);
    var k := (index - 1) / 8;
    assert j == 8 * k + j % 8;
    if index % 8 == 0 {
      assert index == 8 * k + 8;
    } else {
      assert index == 8 * k + index % 8;
    }
  }

  /** A write marks the positions of its own byte that lie below it, and unmarks none. */
  lemma WrittenAfterAdvance(t: seq<byte>, index: nat, j: nat)
    requires index > 0 ==> (index - 1) / 8 < |t|
    requires j / 8 < |t|
    ensures Written(Advance(t, index), j) <==>
            Written(t, j) || (Effective(index) > 0 && j / 8 == (index - 1) / 8 && j < index)
  {
    WrittenIsClearBit(t, j);
    WrittenIsClearBit(Advance(t, index), j);
    hide And, Bit, Mask;
    if index > 0 && j / 8 == (index - 1) / 8 {
      BitOfAnd(t[j / 8], Mask(index), 7 - j % 8);
      MaskBits(index, j);
    }
  }

  /** Whatever a table held, a status write takes its decoded status to the larger of the two,
      except that statuses that are multiples of 8 are lost. */
  lemma AdvanceDecodes(t: seq<byte>, num: nat, index: nat)
    requires index < num && |t| >= TableSize(num)
    ensures Decode(Advance(t, index), num) ==
            if Decode(t, num) >= Effective(index) then Decode(t, num) else index
  {
    var t' := Advance(t, index);
    var r := if Decode(t, num) >= Effective(index) then Decode(t, num) else index;
    forall j | r <= j < num - 1 ensures !Written(t', j) { WrittenAfterAdvance(t, index, j); }
    if r > 0 { WrittenAfterAdvance(t, index, r - 1); }
    HighestUnique(t', num - 1, r);
  }

  lemma BlankDecodes(num: nat)
    requires num > 0
    ensures Decode(Blank(num), num) == 0
  {
    forall j | 0 <= j < num - 1 ensures !Written(Blank(num), j) {
      WrittenIsClearBit(Blank(num), j);
      assert Pow2(8) == 0x100 by { assert Pow2(4) == 16; }
      BitOfOnes(8, 7 - j % 8);
    }
    HighestUnique(Blank(num), num - 1, 0);
  }

  /** The round trip holds for exactly the statuses that are 0 or not a multiple of 8. */
  lemma RoundTripExactly(num: nat, index: nat)
    requires index < num
    ensures Decode(Advance(Blank(num), index), num) == index <==> index == 0 || index % 8 != 0
  {
    BlankDecodes(num);
    AdvanceDecodes(Blank(num), num, index);
  }

  /** The table after a run of status writes from the erased state, and the status it should show. */
  function Run(num: nat, writes: seq<nat>): (t: seq<byte>)
    requires num > 0 && forall i | 0 <= i < |writes| :: writes[i] < num
    ensures |t| == TableSize(num)
  {
    if writes == [] then Blank(num) else Advance(Run(num, writes[..|writes| - 1]), writes[|writes| - 1])
  }

  predicate IsMaximum(m: nat, writes: seq<nat>) {
    && (m == 0 || exists i | 0 <= i < |writes| :: Effective(writes[i]) == m)
    && forall i | 0 <= i < |writes| :: Effective(writes[i]) <= m
  }

  /** Any run of writes, in any order, decodes to the largest effective status among them. */
  lemma {:induction false} RunDecodesToMaximum(num: nat, writes: seq<nat>)
    requires num > 0 && forall i | 0 <= i < |writes| :: writes[i] < num
    ensures IsMaximum(Decode(Run(num, writes), num), writes)
  {
    if writes == [] {
      BlankDecodes(num);
    } else {
      var front, last := writes[..|writes| - 1], writes[|writes| - 1];
      RunDecodesToMaximum(num, front);
      var m := Decode(Run(num, front), num);
      AdvanceDecodes(Run(num, front), num, last);
      if m > 0 && m >= Effective(last) {
        var i :| 0 <= i < |front| && Effective(front[i]) == m;
        assert Effective(writes[i]) == m;
      }
      forall i | 0 <= i < |writes| ensures Effective(writes[i]) <= Decode(Run(num, writes), num) {
        if i < |front| { assert Effective(front[i]) <= m; }
      }
    }
  }

  /** Increasing writes, the discipline of the database, always show the last one. */
  lemma IncreasingRunShowsLast(num: nat, writes: seq<nat>)
    requires num > 0 && writes != [] && forall i | 0 <= i < |writes| :: writes[i] < num && writes[i] % 8 != 0
    requires forall i, j | 0 <= i < j < |writes| :: writes[i] < writes[j]
    ensures Decode(Run(num, writes), num) == writes[|writes| - 1]
  {
    RunDecodesToMaximum(num, writes);
    var m := Decode(Run(num, writes), num);
    assert Effective(writes[|writes| - 1]) <= m;
    var i :| 0 <= i < |writes| && Effective(writes[i]) == m;
  }
}
