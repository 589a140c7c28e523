/** Digit strings, most significant digit first, in any base. */
module Radix {

  function Pow(b: nat, n: nat): (r: nat)
    ensures b > 0 ==> r > 0
  {
    if n == 0 then 1 else b * Pow(b, n - 1)
  }

  ghost predicate InBase(base: nat, s: seq<nat>) {
    forall i :: 0 <= i < |s| ==> s[i] < base
  }

  /** The number a digit string stands for. */
  function Number(base: nat, s: seq<nat>): nat
    decreases |s|
  {
    if s == [] then 0 else Number(base, s[..|s| - 1]) * base + s[|s| - 1]
  }

  /** The digits of a number, without leading zeros. */
  function Digits(base: nat, v: nat): (s: seq<nat>)
    requires base > 1
    ensures InBase(base, s)
    ensures s != [] ==> s[0] != 0
    decreases v
  {
    if v == 0 then [] else
    Shrinks(v, base);
    Digits(base, v / base) + [v % base]
  }

  lemma Shrinks(v: nat, base: nat)
    requires base > 1 && v > 0
    ensures 0 <= v / base < v && 0 <= v % base < base
    ensures v / base == 0 ==> v % base != 0
    ensures v == (v / base) * base + v % base
  {
    var q, r := v / base, v % base;
    assert v == q * base + r;
    SmallerQuotient(v, q, base, r);
  }

  lemma SmallerQuotient(v: nat, q: int, base: nat, r: nat)
    requires base > 1 && v > 0 && v == q * base + r && r < base
    ensures 0 <= q < v
  {
    assert q < 0 ==> q * base <= 0 - base;
    assert q > 0 ==> q * base >= q * 2;
  }

  /** How many zeros a digit string starts with. */
  function LeadingZeros(s: seq<nat>): (n: nat)
    ensures n <= |s|
    ensures forall i :: 0 <= i < n ==> s[i] == 0
    ensures n < |s| ==> s[n] != 0
  {
    if s == [] || s[0] != 0 then 0 else 1 + LeadingZeros(s[1..])
  }

  function Zeros(n: nat): (s: seq<nat>)
    ensures |s| == n && forall i :: 0 <= i < n ==> s[i] == 0
  {
    seq(n, _ => 0)
  }

  /** The same number in another base, with as many leading zeros. */
  function Rebase(from: nat, to: nat, s: seq<nat>): (r: seq<nat>)
    requires to > 1
    ensures InBase(to, r)
  {
    Zeros(LeadingZeros(s)) + Digits(to, Number(from, s))
  }

  // ---- Numbers and their digits determine each other ----

  lemma {:induction false} NumberOfDigits(base: nat, v: nat)
    requires base > 1
    ensures Number(base, Digits(base, v)) == v
  {
    if v > 0 {
      Shrinks(v, base);
      var q := v / base;
      var s := Digits(base, q);
      NumberOfDigits(base, q);
      assert Digits(base, v) == s + [v % base];
      assert (s + [v % base])[..|s|] == s;
    }
  }

  lemma {:induction false} DigitsOfNumber(base: nat, s: seq<nat>)
    requires base > 1 && InBase(base, s)
    requires s != [] ==> s[0] != 0
    ensures Digits(base, Number(base, s)) == s
  {
    if s != [] {
      var n := |s| - 1;
      var t := s[..n];
      DigitsOfNumber(base, t);
      LastDigit(base, Number(base, t), s[n]);
      if n == 0 {
        assert Number(base, s) == s[0];
        assert t == [];
      } else {
        NotZero(base, t);
      }
      assert s == t + [s[n]];
    }
  }

  lemma LastDigit(base: nat, q: nat, d: nat)
    requires d < base
    ensures (q * base + d) / base == q && (q * base + d) % base == d
  {
    var v := q * base + d;
    var e := v / base - q;
    assert v == (v / base) * base + v % base;
    assert e * base == d - v % base;
    assert e >= 1 ==> e * base >= base;
    assert e <= -1 ==> e * base <= 0 - base;
  }

  lemma {:induction false} NotZero(base: nat, s: seq<nat>)
    requires base > 0 && s != [] && s[0] != 0
    ensures Number(base, s) > 0
  {
    var n := |s| - 1;
    if n == 0 {
      assert s[..0] == [];
    } else {
      NotZero(base, s[..n]);
      assert Number(base, s[..n]) * base > 0;
    }
  }

  lemma {:induction false} DropZeros(base: nat, k: nat, s: seq<nat>)
    requires k <= |s| && forall i :: 0 <= i < k ==> s[i] == 0
    ensures Number(base, s[k..]) == Number(base, s)
    decreases |s|
  {
    if k == |s| {
      AllZeros(base, s);
      assert s[k..] == [];
    } else {
      var n := |s| - 1;
      DropZeros(base, k, s[..n]);
      assert s[k..][..n - k] == s[..n][k..];
    }
  }

  lemma {:induction false} AllZeros(base: nat, s: seq<nat>)
    requires forall i :: 0 <= i < |s| ==> s[i] == 0
    ensures Number(base, s) == 0
  {
    if s != [] { AllZeros(base, s[..|s| - 1]); }
  }

  lemma {:induction false} NumberBound(base: nat, s: seq<nat>)
    requires InBase(base, s)
    ensures Number(base, s) < Pow(base, |s|)
  {
    if s != [] {
      var n := |s| - 1;
      NumberBound(base, s[..n]);
      MulBoth(Number(base, s[..n]) + 1, Pow(base, n), base, base);
      OneMore(Number(base, s[..n]), base);
    }
  }

  lemma OneMore(v: nat, base: nat)
    ensures (v + 1) * base == v * base + base
  {}

  lemma {:induction false} LeadingZerosAre(s: seq<nat>, k: nat)
    requires k <= |s| && (forall i :: 0 <= i < k ==> s[i] == 0) && (k < |s| ==> s[k] != 0)
    ensures LeadingZeros(s) == k
  {
    if k > 0 { LeadingZerosAre(s[1..], k - 1); }
  }

  /** Changing base and back is the identity, leading zeros included. */
  lemma RebaseInverse(from: nat, to: nat, s: seq<nat>)
    requires from > 1 && to > 1 && InBase(from, s)
    ensures Rebase(to, from, Rebase(from, to, s)) == s
  {
    hide Number, Digits, LeadingZeros, Zeros;
    var z, v := LeadingZeros(s), Number(from, s);
    var d := Digits(to, v);
    var r := Rebase(from, to, s);
    LeadingZerosAre(r, z);
    assert r[z..] == d;
    DropZeros(to, z, r);
    NumberOfDigits(to, v);
    DropZeros(from, z, s);
    DigitsOfNumber(from, s[z..]);
    assert s == Zeros(z) + s[z..];
  }

  // ---- Powers ----

  lemma {:induction false} PowAdd(b: nat, m: nat, n: nat)
    ensures Pow(b, m + n) == Pow(b, m) * Pow(b, n)
  {
    if m == 0 {
      assert Pow(b, 0) * Pow(b, n) == Pow(b, n);
    } else {
      PowAdd(b, m - 1, n);
      Associate(b, Pow(b, m - 1), Pow(b, n));
    }
  }

  lemma Associate(a: nat, b: nat, c: nat)
    ensures (a * b) * c == a * (b * c)
  {}

  lemma {:induction false} PowMonotone(b: nat, m: nat, n: nat)
    requires b > 0 && m <= n
    ensures Pow(b, m) <= Pow(b, n)
  {
    if m < n {
      PowMonotone(b, m, n - 1);
      assert Pow(b, n) == b * Pow(b, n - 1);
      assert Pow(b, n - 1) <= b * Pow(b, n - 1);
    }
  }

  lemma MulBoth(a: nat, b: nat, c: nat, d: nat)
    requires a <= b && c <= d
    ensures a * c <= b * d
  {
    assert (b - a) * c >= 0;
    assert b * (d - c) >= 0;
  }

  /** If p digits in base b never exceed q digits in base c, then kp never exceed kq. */
  lemma {:induction false} PowBlocks(b: nat, p: nat, c: nat, q: nat, k: nat)
    requires Pow(b, p) <= Pow(c, q)
    ensures Pow(b, k * p) <= Pow(c, k * q)
  {
    if k > 0 {
      PowBlocks(b, p, c, q, k - 1);
      assert k * p == p + (k - 1) * p && k * q == q + (k - 1) * q;
      PowAdd(b, p, (k - 1) * p);
      PowAdd(c, q, (k - 1) * q);
      MulBoth(Pow(b, p), Pow(c, q), Pow(b, (k - 1) * p), Pow(c, (k - 1) * q));
    }
  }
}
