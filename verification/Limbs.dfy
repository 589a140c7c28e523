/** Little-endian numbers in 32-bit limbs, and the bit operations on one limb. */
module Limbs {
  import opened Bits

  const BASE: nat := 0x1_0000_0000

  type Limb = x: int | 0 <= x < 0x1_0000_0000

  /** The number a sequence of limbs stands for. */
  function Value(s: seq<Limb>): (r: nat)
    decreases |s|
  {
    if s == [] then 0 else Value(s[..|s| - 1]) + s[|s| - 1] * Pow2(32 * (|s| - 1))
  }

  /** x << s in 32 bits: the high bits are lost. */
  function ShiftUp(x: Limb, s: nat): Limb { x * Pow2(s) % BASE }

  /** x >> s. */
  function ShiftDown(x: Limb, s: nat): (r: Limb)
  {
    DivideSmaller(x, Pow2(s));
    x / Pow2(s)
  }

  // ---- Powers of two ----

  lemma {:induction false} Pow2Add(a: nat, b: nat)
    ensures Pow2(a + b) == Pow2(a) * Pow2(b)
  {
    if b > 0 {
      Pow2Add(a, b - 1);
      assert Pow2(a + b) == 2 * (Pow2(a) * Pow2(b - 1));
    }
  }

  lemma Pow2Values()
    ensures Pow2(0) == 1 && Pow2(1) == 2 && Pow2(8) == 0x100 && Pow2(16) == 0x1_0000
    ensures Pow2(24) == 0x100_0000 && Pow2(32) == BASE && Pow2(64) == BASE * BASE
  {
    assert Pow2(8) == 0x100;
    Pow2Add(8, 8);
    Pow2Add(8, 16);
    Pow2Add(16, 16);
    Pow2Add(32, 32);
  }

  lemma Pow2Limb(n: nat)
    ensures Pow2(32 * (n + 1)) == Pow2(32 * n) * BASE
  {
    Pow2Values();
    Pow2Add(32 * n, 32);
  }

  lemma {:induction false} Pow2Monotone(a: nat, b: nat)
    requires a <= b
    ensures Pow2(a) <= Pow2(b)
  {
    if a < b { Pow2Monotone(a, b - 1); }
  }

  // ---- Multiplication and division by hand ----

  lemma DivideSmaller(x: nat, d: nat)
    requires d > 0
    ensures 0 <= x / d <= x
  {
    var q, r := x / d, x % d;
    assert q * d + r == x;
    QuotientRange(x, q, d, r);
  }

  lemma QuotientRange(x: nat, q: int, d: nat, r: nat)
    requires q * d + r == x && r < d
    ensures 0 <= q <= x
  {
    if q < 0 { MulMonotone(q, -1, d); } else { MulMonotone(1, d, q); }
  }

  lemma Quotient(x: int, q: int, d: nat, r: int)
    requires x == q * d + r && 0 <= r < d
    ensures x / d == q && x % d == r
  {
    var dq := x / d - q;
    assert d * (x / d) + x % d == x;
    assert dq * d == r - x % d;
    if dq >= 1 { MulAtLeast(dq, d); } else if dq <= -1 { MulAtLeast(-dq, d); }
  }

  // ---- Bits of one limb ----

  /** Or of a multiple of 2^s with a number below 2^s is their sum. */
  lemma {:induction false} OrDisjoint(m: nat, y: nat, s: nat)
    requires y < Pow2(s)
    ensures Or(m * Pow2(s), y) == m * Pow2(s) + y
    ensures Or(y, m * Pow2(s)) == m * Pow2(s) + y
  {
    if s == 0 {
      OrNothing(m);
    } else {
      hide Or;
      var x := m * Pow2(s - 1);
      assert m * Pow2(s) == 2 * x;
      OrEven(x, y);
      OrDisjoint(m, y / 2, s - 1);
    }
  }

  lemma {:induction false} OrNothing(m: nat)
    ensures m * Pow2(0) == m && Or(m, 0) == m && Or(0, m) == m
  {}

  lemma {:induction false} OrEven(x: nat, y: nat)
    ensures Or(2 * x, y) == 2 * Or(x, y / 2) + y % 2
    ensures Or(y, 2 * x) == 2 * Or(y / 2, x) + y % 2
  {
    hide Or;
    OrUnfolds(2 * x, y);
    OrUnfolds(y, 2 * x);
    assert 2 * x / 2 == x && 2 * x % 2 == 0;
  }

  lemma {:induction false} OrUnfolds(a: nat, b: nat)
    ensures Or(a, b) == 2 * Or(a / 2, b / 2) + if a % 2 == 1 || b % 2 == 1 then 1 else 0
  {}

  /** The test of bit n in a number below 2^(n+1). */
  lemma {:induction false} TopBit(x: nat, n: nat)
    requires x < Pow2(n + 1)
    ensures And(x, Pow2(n)) != 0 <==> x >= Pow2(n)
  {
    if n > 0 { TopBit(x / 2, n - 1); }
  }

  /** A limb times 2^s spreads over two limbs, without overlap. */
  lemma ShiftSplit(x: Limb, s: nat)
    requires s < 32
    ensures x * Pow2(s) == ShiftUp(x, s) + BASE * ShiftDown(x, 32 - s)
    ensures s == 0 ==> ShiftDown(x, 32 - s) == 0
    ensures ShiftDown(x, 32 - s) < Pow2(s)
    ensures ShiftUp(x, s) == (x % Pow2(32 - s)) * Pow2(s)
  {
    Pow2Values();
    Pow2Add(32 - s, s);
    Split(x, Pow2(32 - s), Pow2(s));
  }

  lemma Split(x: Limb, d: nat, p: nat)
    requires d > 0 && p > 0 && d * p == BASE
    ensures x * p / BASE == x / d < p
    ensures x * p % BASE == (x % d) * p
  {
    var q, r := x / d, x % d;
    assert x == q * d + r;
    calc {
      x * p;
      (q * d + r) * p;
      q * (d * p) + r * p;
    }
    MulMonotone(r + 1, d, p);
    assert (r + 1) * p == r * p + p;
    assert r * p >= 0;
    Quotient(x * p, q, BASE, r * p);
    Small(x, q, d, p);
  }

  lemma Small(x: Limb, q: int, d: nat, p: nat)
    requires d * p == BASE && q * d <= x
    ensures q < p
  {
    if q >= p { MulMonotone(p, q, d); }
  }

  // ---- Values ----

  lemma {:induction false} ValueBound(s: seq<Limb>)
    ensures Value(s) < Pow2(32 * |s|)
  {
    hide Pow2;
    if s != [] {
      var n := |s| - 1;
      ValueBound(s[..n]);
      Pow2Limb(n);
      MulMonotone(s[n], BASE - 1, Pow2(32 * n));
    } else {
      Pow2Values();
    }
  }

  lemma ValuePrefix(s: seq<Limb>, i: nat)
    requires i < |s|
    ensures Value(s[..i + 1]) == Value(s[..i]) + s[i] * Pow2(32 * i)
  {
    assert s[..i + 1][..i] == s[..i];
  }

  lemma {:induction false} ValueUpdate(s: seq<Limb>, i: nat, v: Limb)
    requires i < |s|
    ensures Value(s[i := v]) == Value(s) + (v - s[i]) * Pow2(32 * i)
  {
    hide Pow2;
    var n := |s| - 1;
    var t := s[i := v];
    if i < n {
      assert t[..n] == s[..n][i := v];
      ValueUpdate(s[..n], i, v);
    } else {
      assert t[..n] == s[..n];
      var p := Pow2(32 * n);
      assert v * p == s[n] * p + (v - s[n]) * p;
    }
  }

  lemma {:induction false} ValueZero(s: seq<Limb>)
    requires forall j :: 0 <= j < |s| ==> s[j] == 0
    ensures Value(s) == 0
  {
    if s != [] { ValueZero(s[..|s| - 1]); }
  }

  /** Limbs above position n that are all zero do not count. */
  lemma {:induction false} ValueTrim(s: seq<Limb>, n: nat)
    requires n <= |s|
    requires forall j :: n <= j < |s| ==> s[j] == 0
    ensures Value(s) == Value(s[..n])
  {
    if n < |s| {
      var m := |s| - 1;
      ValueTrim(s[..m], n);
      assert s[..m][..n] == s[..n];
    } else {
      assert s[..n] == s;
    }
  }

  /** The high limbs decide: agreement above i and a smaller limb at i. */
  lemma {:induction false} ValueOrder(s: seq<Limb>, t: seq<Limb>, i: nat)
    requires |s| == |t| && i < |s|
    requires s[i] < t[i]
    requires forall j :: i < j < |s| ==> s[j] == t[j]
    ensures Value(s) < Value(t)
  {
    var n := |s| - 1;
    if i < n {
      ValueOrder(s[..n], t[..n], i);
    } else {
      ValueBound(s[..n]);
      MulMonotone(s[n] + 1, t[n], Pow2(32 * n));
      assert (s[n] + 1) * Pow2(32 * n) == s[n] * Pow2(32 * n) + Pow2(32 * n);
    }
  }

  /** Complementing every limb gives 2^(32w) - 1 - x. */
  lemma {:induction false} ValueComplement(s: seq<Limb>, t: seq<Limb>)
    requires |s| == |t|
    requires forall j :: 0 <= j < |s| ==> t[j] == BASE - 1 - s[j]
    ensures Value(t) == Pow2(32 * |s|) - 1 - Value(s)
  {
    if s != [] {
      var n := |s| - 1;
      ValueComplement(s[..n], t[..n]);
      Pow2Limb(n);
      var p := Pow2(32 * n);
      assert t[n] * p == BASE * p - p - s[n] * p;
    }
  }
}
