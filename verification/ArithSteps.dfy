/** One step of each limb loop, as arithmetic on the values of the limbs. */
module ArithSteps {
  import opened Bits
  import opened Limbs

  lemma Scale(x: nat, i: nat, k: nat, s: nat)
    ensures (x * Pow2(32 * i)) * Pow2(32 * k + s) == (x * Pow2(s)) * Pow2(32 * (k + i))
  {
    hide Pow2;
    Pow2Add(32 * k, s);
    Pow2Add(32 * k, 32 * i);
    assert 32 * k + 32 * i == 32 * (k + i);
    Rearrange(x, Pow2(32 * i), Pow2(32 * k), Pow2(s));
  }

  lemma Rearrange(x: nat, a: nat, b: nat, c: nat)
    ensures (x * a) * (b * c) == (x * c) * (b * a)
  {
    calc {
      (x * a) * (b * c);
      ((x * a) * b) * c;
      (x * (a * b)) * c;
      (x * c) * (a * b);
      (x * c) * (b * a);
    }
  }

  /** Limb i of a left shift by 32k + s lands in limbs k+i and k+i+1. */
  lemma UpStep(x: Limb, i: nat, k: nat, s: nat)
    requires s < 32
    ensures (x * Pow2(32 * i)) * Pow2(32 * k + s)
         == ShiftUp(x, s) * Pow2(32 * (k + i)) + ShiftDown(x, 32 - s) * Pow2(32 * (k + i + 1))
  {
    hide Pow2, ShiftUp, ShiftDown;
    Scale(x, i, k, s);
    ShiftSplit(x, s);
    Pow2Limb(k + i);
    Spread(ShiftUp(x, s), ShiftDown(x, 32 - s), BASE, Pow2(32 * (k + i)));
  }

  lemma Spread(lo: int, hi: int, b: int, p: int)
    ensures (lo + b * hi) * p == lo * p + hi * (p * b)
  {
    calc {
      (lo + b * hi) * p;
      lo * p + (b * hi) * p;
      { assert (b * hi) * p == hi * (p * b); }
      lo * p + hi * (p * b);
    }
  }

  /** How often 2^(32w) goes into a limb shifted to or beyond the top. */
  ghost function Spill(x: Limb, i: nat, k: nat, s: nat, w: nat): (q: nat)
    requires s < 32
  {
    if k + i + 1 < w then 0
    else if k + i + 1 == w then ShiftDown(x, 32 - s)
    else x * Pow2(s) * Pow2(32 * (k + i - w))
  }

  lemma SpillBeyond(x: Limb, i: nat, k: nat, s: nat, w: nat)
    requires s < 32 && k + i >= w
    ensures (x * Pow2(32 * i)) * Pow2(32 * k + s) == Spill(x, i, k, s, w) * Pow2(32 * w)
  {
    hide Pow2;
    Scale(x, i, k, s);
    var e := k + i - w;
    Pow2Add(32 * e, 32 * w);
    assert 32 * e + 32 * w == 32 * (k + i);
    Associate(x * Pow2(s), Pow2(32 * e), Pow2(32 * w));
  }

  lemma Associate(a: int, b: int, c: int)
    ensures (a * b) * c == a * (b * c)
  {}

  lemma Distribute(a: int, b: int, c: int)
    ensures (a + b) * c == a * c + b * c
  {}

  /** The two parts a limb leaves behind in a right shift by 32k + s, k < i. */
  lemma DownStep(x: Limb, i: nat, k: nat, s: nat)
    requires s < 32 && k < i
    ensures x * Pow2(32 * i)
         == (ShiftDown(x, s) * Pow2(32 * (i - k)) + ShiftUp(x, 32 - s) * Pow2(32 * (i - k - 1))) * Pow2(32 * k + s)
  {
    hide Pow2, ShiftUp, ShiftDown;
    var j := i - k;
    var lo, hi := ShiftUp(x, 32 - s), ShiftDown(x, s);
    DownSplit(x, s);
    Pow2Limb(j - 1);
    Pow2Add(32 * j, 32 * k + s);
    Pow2Add(32 * i, s);
    assert 32 * j + (32 * k + s) == 32 * i + s;
    var p, f, u := Pow2(32 * (j - 1)), Pow2(32 * k + s), Pow2(s);
    // x * BASE == (hi * BASE + lo) * 2^s, times BASE^(j-1) * 2^(32k) on both sides.
    Spread(lo, hi, BASE, p);
    assert hi * (p * BASE) + lo * p == (lo + BASE * hi) * p;
    assert (p * BASE) * f == Pow2(32 * i) * u;
    DownAlgebra(x, lo + BASE * hi, p, f, u, Pow2(32 * i));
  }

  lemma DownAlgebra(x: int, y: int, p: nat, f: nat, u: nat, m: nat)
    requires u > 0
    requires x * BASE == y * u
    requires (p * BASE) * f == m * u
    ensures x * m == (y * p) * f
  {
    calc {
      (x * m) * u;
      x * (m * u);
      x * ((p * BASE) * f);
      { Associate(x, p * BASE, f); assert x * (p * BASE) == (x * BASE) * p; }
      ((x * BASE) * p) * f;
      ((y * u) * p) * f;
      { assert (y * u) * p == (y * p) * u; assert ((y * p) * u) * f == ((y * p) * f) * u; }
      ((y * p) * f) * u;
    }
    Cancel(x * m, (y * p) * f, u);
  }

  lemma Cancel(a: int, b: int, u: nat)
    requires u > 0 && a * u == b * u
    ensures a == b
  {
    assert (a + 1) * u == a * u + u && (b + 1) * u == b * u + u;
    if a < b { MulMonotone(a + 1, b, u); }
    if b < a { MulMonotone(b + 1, a, u); }
  }

  /** x * 2^32 == (x >> s) * 2^(32 + s) + (x << (32 - s)) * 2^s, the second part cut to 32 bits. */
  lemma DownSplit(x: Limb, s: nat)
    requires s < 32
    ensures x * BASE == (ShiftUp(x, 32 - s) + BASE * ShiftDown(x, s)) * Pow2(s)
    ensures ShiftDown(x, s) < Pow2(32 - s)
    ensures ShiftUp(x, 32 - s) == (x % Pow2(s)) * Pow2(32 - s)
    ensures s == 0 ==> ShiftUp(x, 32 - s) == 0
  {
    hide Pow2;
    Pow2Values();
    Pow2Add(s, 32 - s);
    Split(x, Pow2(s), Pow2(32 - s));
    Euclid(x, Pow2(s));
    DownSplitAlgebra(x, x / Pow2(s), x % Pow2(s), Pow2(s), Pow2(32 - s));
  }

  lemma Euclid(x: int, d: nat)
    requires d > 0
    ensures x == (x / d) * d + x % d
  {}

  lemma DownSplitAlgebra(x: int, q: int, r: int, d: int, p: int)
    requires x == q * d + r && d * p == BASE
    ensures x * BASE == (r * p + BASE * q) * d
  {
    calc {
      (r * p + BASE * q) * d;
      (r * p) * d + (BASE * q) * d;
      { assert (r * p) * d == r * (d * p); assert (BASE * q) * d == (q * d) * BASE; }
      r * BASE + (q * d) * BASE;
      (q * d + r) * BASE;
    }
  }

  lemma DivideTwice(x: nat, a: nat, b: nat)
    requires a > 0 && b > 0
    ensures a * b > 0 && x / (a * b) == x / a / b
  {
    var q, r := x / a, x % a;
    Euclid(x, a);
    var u, v := q / b, q % b;
    Euclid(q, b);
    NestedRemainder(x, a, b, q, r, u, v);
    Quotient(x, u, a * b, v * a + r);
  }

  lemma NestedRemainder(x: nat, a: nat, b: nat, q: int, r: int, u: int, v: int)
    requires x == q * a + r && q == u * b + v && 0 <= r < a && 0 <= v < b
    ensures x == u * (a * b) + (v * a + r) && 0 <= v * a + r < a * b
  {
    Distribute(u * b, v, a);
    assert (u * b) * a == u * (a * b);
    MulMonotone(0, v, a);
    MulMonotone(v + 1, b, a);
    Distribute(v, 1, a);
  }

  /** The next multiple of v after x does not pass a larger multiple. */
  lemma TopMultiple(x: nat, m: int, v: nat, k: nat, total: nat)
    requires x == m * v && k * v == total && x < total
    ensures x + v <= total
  {
    if m >= k {
      MulMonotone(k, m, v);
    } else {
      MulMonotone(m + 1, k, v);
      Distribute(m, 1, v);
    }
  }
}
