/** Python's integer bit operations, written out on unbounded integers. */
module Bits {

  /** Python's `x << k` on a non-negative integer: x doubled k times. */
  function Shl(x: nat, k: nat): nat
  {
    if k == 0 then x else 2 * Shl(x, k - 1)
  }

  /** Python's `~x` on an unbounded integer. */
  function Not(x: int): int {
    -x - 1
  }

  /** Python's `a | b` on non-negative integers, taken one bit at a time from the lowest. */
  function Or(a: nat, b: nat): nat
    decreases a + b
  {
    if a == 0 then b
    else if b == 0 then a
    else 2 * Or(a / 2, b / 2) + (if a % 2 == 1 || b % 2 == 1 then 1 else 0)
  }

  lemma {:induction false} ShlAdd(a: nat, b: nat, k: nat)
    ensures Shl(a, k) + Shl(b, k) == Shl(a + b, k)
  {
    if k > 0 {
      ShlAdd(a, b, k - 1);
    }
  }

  lemma ShlMonotone(a: nat, b: nat, k: nat)
    requires a <= b
    ensures Shl(a, k) <= Shl(b, k)
  {
    ShlAdd(a, b - a, k);
  }

  lemma {:induction false} ShlShl(x: nat, j: nat, k: nat)
    ensures Shl(x, j + k) == Shl(Shl(x, j), k)
  {
    if k > 0 {
      ShlShl(x, j, k - 1);
    }
  }

  lemma ShlFive(x: nat)
    ensures Shl(x, 5) == 32 * x
  {
    assert Shl(x, 1) == 2 * x;
    assert Shl(x, 2) == 4 * x;
    assert Shl(x, 3) == 8 * x;
    assert Shl(x, 4) == 16 * x;
  }

  /** When `a` lies below bit k, OR-ing it with a value shifted left by k is plain addition. */
  lemma {:induction false} OrDisjoint(a: nat, c: nat, k: nat)
    requires a < Shl(1, k)
    ensures Or(a, Shl(c, k)) == a + Shl(c, k)
  {
    var b := Shl(c, k);
    if a != 0 && b != 0 {
      assert k > 0;
      OrDisjoint(a / 2, c, k - 1);
      assert b / 2 == Shl(c, k - 1) && b % 2 == 0;
    }
  }
}
