/** Bytes, their bitwise conjunction, and the little-endian words the firmware lays out in flash. */
module Bytes {

  type byte = x: int | 0 <= x < 0x100

  const ERASED: byte := 0xFF

  function Pow2(k: nat): (r: nat)
    ensures r > 0
  {
    if k == 0 then 1 else 2 * Pow2(k - 1)
  }

  /** Bit m of x, bit 0 being the least significant one. */
  predicate Bit(x: nat, m: nat) {
    if m == 0 then x % 2 == 1 else Bit(x / 2, m - 1)
  }

  /** Bitwise conjunction: what programming a NOR flash cell holding x with y leaves behind. */
  function And(x: nat, y: nat): (r: nat)
    ensures r <= x && r <= y
    decreases x
  {
    if x == 0 || y == 0 then 0
    else 2 * And(x / 2, y / 2) + (if x % 2 == 1 && y % 2 == 1 then 1 else 0)
  }

  lemma {:induction false} BitOfZero(m: nat)
    ensures !Bit(0, m)
  {
    if m > 0 { BitOfZero(m - 1); }
  }

  lemma {:induction false} BitOfAnd(x: nat, y: nat, m: nat)
    ensures Bit(And(x, y), m) <==> Bit(x, m) && Bit(y, m)
    decreases x
  {
    if x == 0 || y == 0 {
      BitOfZero(m);
    } else if m > 0 {
      BitOfAnd(x / 2, y / 2, m - 1);
    }
  }

  /** The low `a` ones, 2^a - 1, have exactly the bits below a set. */
  lemma {:induction false} BitOfOnes(a: nat, m: nat)
    ensures Bit(Pow2(a) - 1, m) <==> m < a
  {
    if a == 0 {
      BitOfZero(m);
    } else if m > 0 {
      assert (Pow2(a) - 1) / 2 == Pow2(a - 1) - 1;
      BitOfOnes(a - 1, m - 1);
    }
  }

  lemma {:induction false} AndPow2(x: nat, m: nat)
    ensures And(x, Pow2(m)) == 0 <==> !Bit(x, m)
    decreases m
  {
    if x == 0 {
      BitOfZero(m);
    } else if m > 0 {
      assert Pow2(m) / 2 == Pow2(m - 1);
      AndPow2(x / 2, m - 1);
    }
  }

  lemma {:induction false} AndOnes(k: nat, y: nat)
    requires y < Pow2(k)
    ensures And(Pow2(k) - 1, y) == y
    decreases k
  {
    if k > 0 && y > 0 {
      assert (Pow2(k) - 1) / 2 == Pow2(k - 1) - 1;
      AndOnes(k - 1, y / 2);
    }
  }

  lemma {:induction false} AndCommutes(x: nat, y: nat)
    ensures And(x, y) == And(y, x)
    decreases x
  {
    if x > 0 && y > 0 { AndCommutes(x / 2, y / 2); }
  }

  /** An erased byte takes any value programmed into it. */
  lemma AndErased(y: byte)
    ensures And(ERASED, y) == y
  {
    assert Pow2(8) == 0x100 by {
      assert Pow2(4) == 16;
    }
    AndOnes(8, y);
  }

  function LE32(w: nat): (b: seq<byte>)
    requires w < 0x1_0000_0000
    ensures |b| == 4
  {
    [w % 0x100, w / 0x100 % 0x100, w / 0x1_0000 % 0x100, w / 0x100_0000]
  }

  function FromLE32(b0: byte, b1: byte, b2: byte, b3: byte): (w: nat)
    ensures w < 0x1_0000_0000
  {
    b0 + 0x100 * b1 + 0x1_0000 * b2 + 0x100_0000 * b3
  }

  lemma LE32RoundTrip(w: nat)
    requires w < 0x1_0000_0000
    ensures var b := LE32(w); FromLE32(b[0], b[1], b[2], b[3]) == w
  {
    var q1, q2 := w / 0x100, w / 0x1_0000;
    assert q2 == q1 / 0x100;
    assert w / 0x100_0000 == q2 / 0x100;
    assert w == 0x100 * q1 + w % 0x100 && q1 == 0x100 * q2 + q1 % 0x100 && q2 == 0x100 * (q2 / 0x100) + q2 % 0x100;
  }

  /** The value of a 32-bit word read as a signed integer. */
  function Int32(w: nat): int
    requires w < 0x1_0000_0000
  {
    if w < 0x8000_0000 then w else w - 0x1_0000_0000
  }
}
