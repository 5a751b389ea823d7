/** Offsets in a ring of `size` places. */
module Cyclic {

  function Wrap(size: nat, x: nat): (r: nat)
    requires x < 2 * size
    ensures r < size
  {
    if x < size then x else x - size
  }

  /** How many bytes lie between two offsets. */
  function Pending(size: nat, rd: nat, wr: nat): (n: nat)
    requires rd < size && wr < size
    ensures n < size
  {
    if rd <= wr then wr - rd else wr + size - rd
  }

  /** The offset of the c-th item of an endless stream that is laid around the ring. */
  function Pos(size: nat, c: nat): (p: nat)
    requires size > 0
    ensures p < size
  {
    if c == 0 then 0 else if Pos(size, c - 1) + 1 == size then 0 else Pos(size, c - 1) + 1
  }

  lemma {:induction false} PosAdd(size: nat, c: nat, k: nat)
    requires size > 0 && k <= size
    ensures Pos(size, c + k) == Wrap(size, Pos(size, c) + k)
  {
    if k > 0 { PosAdd(size, c, k - 1); }
  }

  /** Within one ring length, different stream positions have different offsets, and the offsets tell how far
      apart they are. */
  lemma PosTells(size: nat, c: nat, d: nat)
    requires size > 0 && c <= d < c + size
    ensures Pending(size, Pos(size, c), Pos(size, d)) == d - c
    ensures Pos(size, c) == Pos(size, d) <==> c == d
  {
    PosAdd(size, c, d - c);
  }

  lemma PosNext(size: nat, c: nat)
    requires size > 0
    ensures Pos(size, c + 1) == if Pos(size, c) + 1 == size then 0 else Pos(size, c) + 1
  {
  }
}
