/** memmem: the "Not So Naive" search for a byte string inside a longer one. */
module Memmem {
  import opened Bytes

  ghost predicate Occurs(y: seq<byte>, x: seq<byte>, j: nat) {
    j + |x| <= |y| && y[j..j + |x|] == x
  }

  ghost predicate NoneBefore(y: seq<byte>, x: seq<byte>, j: nat) {
    forall i | 0 <= i < j :: !Occurs(y, x, i)
  }

  /** The shifts of the search: if the needle's first two bytes are equal, a mismatch on the second rules out the
      next position too; if they differ, a match on the second does. */
  lemma ShiftIsSafe(y: seq<byte>, x: seq<byte>, j: nat)
    requires |x| >= 2 && j + |x| <= |y|
    ensures x[0] == x[1] && x[1] != y[j + 1] ==> !Occurs(y, x, j) && !Occurs(y, x, j + 1)
    ensures x[0] != x[1] && x[1] == y[j + 1] ==> !Occurs(y, x, j + 1)
    ensures x[1] != y[j + 1] ==> !Occurs(y, x, j)
    ensures Occurs(y, x, j) <==> x[1] == y[j + 1] && x[2..] == y[j + 2..j + |x|] && x[0] == y[j]
  {
    assert j + 1 + |x| <= |y| ==> y[j + 1..j + 1 + |x|][0] == y[j + 1];
    var w := y[j..j + |x|];
    assert w[0] == y[j] && w[1] == y[j + 1] && w[2..] == y[j + 2..j + |x|];
    assert x == [x[0], x[1]] + x[2..] && w == [w[0], w[1]] + w[2..];
  }

  /** Result -1 stands for NULL. An empty needle is reported as absent. */
  method Search(y: seq<byte>, x: seq<byte>) returns (r: int)
    ensures x == [] ==> r == -1
    ensures x != [] ==> (r == -1 <==> NoneBefore(y, x, |y| + 1))
    ensures r != -1 ==> 0 <= r && Occurs(y, x, r) && NoneBefore(y, x, r)
  {
    var n, m := |y|, |x|;
    if m > n || m == 0 || n == 0 { return -1; }
    if m != 1 {
      var k, l := 1, 2;
      if x[0] == x[1] { k, l := 2, 1; }
      var j := 0;
      while j <= n - m
        invariant 0 <= j && NoneBefore(y, x, j)
        decreases n - j
      {
        ShiftIsSafe(y, x, j);
        if x[1] != y[j + 1] {
          j := j + k;
        } else {
          if x[2..] == y[j + 2..j + m] && x[0] == y[j] { return j; }
          j := j + l;
        }
      }
    } else {
      var i, left := 0, n;
      while true
        invariant i + left == n && left > 0 && NoneBefore(y, x, i)
        decreases left
      {
        assert y[i..i + 1] == [y[i]] && x == [x[0]];
        if y[i] == x[0] {
          assert Occurs(y, x, i);
          return i;
        }
        i := i + 1;
        left := left - 1;
        if left == 0 { break; }
      }
    }
    r := -1;
  }
}
