/** Bitwise operations on natural numbers, bit by bit from the lowest, and what multiplication keeps. */
module Bits {

  function And(a: nat, b: nat): nat
    decreases a
  {
    if a == 0 || b == 0 then 0
    else 2 * And(a / 2, b / 2) + if a % 2 == 1 && b % 2 == 1 then 1 else 0
  }

  function Or(a: nat, b: nat): nat
    decreases a + b
  {
    if a == 0 then b
    else if b == 0 then a
    else 2 * Or(a / 2, b / 2) + if a % 2 == 1 || b % 2 == 1 then 1 else 0
  }

  function Pow2(n: nat): (r: nat)
    ensures r > 0
  {
    if n == 0 then 1 else 2 * Pow2(n - 1)
  }

  /** (x * n) >> 32 for 32-bit x: an index below n. */
  function FastMod(x: nat, n: nat): (r: nat)
    requires x < 0x1_0000_0000 && n > 0
    ensures r < n
    ensures r * 0x1_0000_0000 <= x * n < (r + 1) * 0x1_0000_0000
  {
    FastModRange(x, n);
    x * n / 0x1_0000_0000
  }

  lemma FastModRange(x: nat, n: nat)
    requires x < 0x1_0000_0000 && n > 0
    ensures 0 <= x * n / 0x1_0000_0000 < n
  {
    assert (0x1_0000_0000 - x) * n > 0;
    assert x * n < n * 0x1_0000_0000;
  }

  /** Greater hashes give greater indexes, and up to 2^32 of them every index is given: the indexes share the hashes out in order. */
  lemma FastModOnto(n: nat, k: nat) returns (x: nat)
    requires k < n <= 0x1_0000_0000
    ensures x < 0x1_0000_0000 && FastMod(x, n) == k
    ensures forall y: nat :: y < 0x1_0000_0000 ==> (y < x <==> FastMod(y, n) < k)
  {
    x := FirstAtLeast(k * 0x1_0000_0000, n);
    FirstFits(k, n, x);
    FastModIs(x, n, k);
    forall y: nat | y < 0x1_0000_0000 ensures y < x <==> FastMod(y, n) < k {
      FastModBelow(y, n, k);
    }
  }

  /** The least x with x * n >= m. */
  function FirstAtLeast(m: nat, n: nat): (x: nat)
    requires n > 0
    ensures m <= x * n < m + n
    ensures forall y: nat :: y < x <==> y * n < m
  {
    var x := (m + n - 1) / n;
    assert m + n - 1 == x * n + (m + n - 1) % n;
    assert forall y: nat :: y < x <==> y * n < m by {
      forall y: nat ensures y < x <==> y * n < m { Bracket(m, n, x, y); }
    }
    x
  }

  lemma Bracket(m: nat, n: nat, x: nat, y: nat)
    requires n > 0 && m <= x * n < m + n
    ensures y < x <==> y * n < m
  {
    if y < x {
      Products(y + 1, x, n);
    } else {
      Products(x, y, n);
    }
  }

  lemma Products(a: nat, b: nat, n: nat)
    requires n > 0
    ensures a <= b <==> a * n <= b * n
    ensures (a + 1) * n == a * n + n
  {
    if a <= b {
      assert (b - a) * n >= 0;
    } else {
      assert (a - b) * n > 0;
    }
  }

  lemma FirstFits(k: nat, n: nat, x: nat)
    requires k < n <= 0x1_0000_0000 && k * 0x1_0000_0000 <= x * n < k * 0x1_0000_0000 + n
    ensures x < 0x1_0000_0000
  {
    assert k * 0x1_0000_0000 + n <= 0x1_0000_0000 * n;
    Products(0x1_0000_0000, x, n);
  }

  lemma FastModIs(x: nat, n: nat, k: nat)
    requires x < 0x1_0000_0000 && 0 < n && k * 0x1_0000_0000 <= x * n < (k + 1) * 0x1_0000_0000
    ensures FastMod(x, n) == k
  {
  }

  lemma FastModBelow(x: nat, n: nat, k: nat)
    requires x < 0x1_0000_0000 && 0 < n
    ensures FastMod(x, n) < k <==> x * n < k * 0x1_0000_0000
  {
  }

  lemma MulMonotone(a: int, b: int, c: nat)
    requires a <= b
    ensures a * c <= b * c
  {
    assert (b - a) * c >= 0;
  }

  lemma MulAtLeast(d: int, q: int)
    requires d >= 1
    ensures q >= 0 ==> d * q >= q
    ensures q < 0 ==> d * q <= q
  {
    assert d * q == q + (d - 1) * q;
  }
}
