/** Compact targets: a 23-bit mantissa, a sign bit and a base-256 exponent; and the work they stand for. */
module Compact {
  import opened Bits
  import opened Limbs
  import opened ArithSteps
  import opened ArithUint

  const WORDS: nat := 8

  /** One past the largest target. */
  function Limit(): nat { Pow2(256) }

  /** x / 256^(e-3), or x * 256^(3-e) for small exponents: the mantissa x has at exponent e. */
  function Mantissa(x: nat, e: nat): (m: nat)
  {
    if e <= 3 then x * Pow2(8 * (3 - e))
    else DivideSmaller(x, Pow2(8 * (e - 3))); x / Pow2(8 * (e - 3))
  }

  /** m * 256^(e-3), the bytes below one cut off. */
  function Expand(m: nat, e: nat): (x: nat)
  {
    if e <= 3 then DivideSmaller(m, Pow2(8 * (3 - e))); m / Pow2(8 * (3 - e))
    else m * Pow2(8 * (e - 3))
  }

  /** (e, m) is the compact form of x: at no other exponent is the mantissa in this range. */
  ghost predicate Represents(e: nat, m: nat, x: nat) {
    m == Mantissa(x, e) &&
    (if x == 0 then e == 0 else 0x8000 <= m < 0x80_0000)
  }

  function Exponent(c: nat): nat { c / 0x100_0000 }
  function Fraction(c: nat): nat { c % 0x80_0000 }
  function Signed(c: nat): bool { c / 0x80_0000 % 2 == 1 }

  // ---- The form is unique, loses only low bytes, and is its own form ----

  lemma NextMantissa(x: nat, e: nat)
    ensures Mantissa(x, e + 1) == Mantissa(x, e) / 256
  {
    hide Pow2;
    Pow2Values();
    if e < 3 {
      Pow2Add(8 * (2 - e), 8);
      Associate(x, Pow2(8 * (2 - e)), 256);
      Quotient(Mantissa(x, e), Mantissa(x, e + 1), 256, 0);
    } else {
      Pow2Add(8 * (e - 3), 8);
      DivideTwice(x, Pow2(8 * (e - 3)), 256);
      Quotient(x, x, 1, 0);
    }
  }

  lemma {:induction false} MantissaShrinks(x: nat, e: nat, f: nat)
    requires e < f
    ensures Mantissa(x, f) <= Mantissa(x, e) / 256
    decreases f
  {
    NextMantissa(x, f - 1);
    if e < f - 1 { MantissaShrinks(x, e, f - 1); }
  }

  /** A target has one compact form. */
  lemma CompactUnique(x: nat, e: nat, m: nat, f: nat, n: nat)
    requires Represents(e, m, x) && Represents(f, n, x)
    ensures e == f && m == n
  {
    hide Mantissa;
    if e < f { MantissaShrinks(x, e, f); }
    if f < e { MantissaShrinks(x, f, e); }
  }

  /** Reading the compact form back loses the bytes below its exponent and nothing else. */
  lemma CompactTruncates(x: nat, e: nat, m: nat)
    requires Represents(e, m, x)
    ensures e <= 3 ==> Expand(m, e) == x
    ensures e > 3 ==> Expand(m, e) == x - x % Pow2(8 * (e - 3))
    ensures x > 0 ==> 0x8000 * (x - Expand(m, e)) < x
  {
    hide Pow2;
    if e <= 3 {
      Quotient(m, x, Pow2(8 * (3 - e)), 0);
    } else {
      var u := Pow2(8 * (e - 3));
      Euclid(x, u);
      if x > 0 { MulMonotone(0x8000, m, u); }
    }
  }

  /** The truncated target has the same compact form. */
  lemma CompactIdempotent(x: nat, e: nat, m: nat)
    requires Represents(e, m, x)
    ensures Represents(e, m, Expand(m, e))
  {
    hide Pow2;
    CompactTruncates(x, e, m);
    if e > 3 {
      var u := Pow2(8 * (e - 3));
      Quotient(m * u, m, u, 0);
      MulMonotone(1, m, u);
    }
  }

  // ---- Reading ----

  /** The shifts of a mantissa that carry it past 256 bits. */
  lemma OverflowExactly(word: nat, size: nat)
    requires word < 0x80_0000
    ensures Expand(word, size) >= Limit() <==>
            word != 0 && (size > 34 || (word > 0xff && size > 33) || (word > 0xffff && size > 32))
  {
    hide Pow2;
    Pow2Values();
    if size <= 3 {
      DivideSmaller(word, Pow2(8 * (3 - size)));
      Pow2Monotone(24, 256);
    } else {
      var k := 8 * (size - 3);
      var u := Pow2(k);
      if size <= 32 {
        Pow2Monotone(k, 232);
        Pow2Add(24, 232);
        MulMonotone(word, 0x7f_ffff, u);
      } else if size == 33 {
        Pow2Add(16, 240);
      } else if size == 34 {
        Pow2Add(8, 248);
      } else if word != 0 {
        Pow2Monotone(256, k);
        MulMonotone(1, word, u);
      }
    }
  }

  /** A target read without overflow is below the largest 256-bit number. */
  lemma TargetNotMax(word: nat, size: nat)
    requires word < 0x80_0000 && Expand(word, size) < Limit()
    ensures Expand(word, size) + 1 < Limit()
  {
    hide Pow2;
    Pow2Values();
    Pow2Monotone(24, 256);
    if size <= 3 {
      DivideSmaller(word, Pow2(8 * (3 - size)));
    } else {
      Pow2Add(8, 8 * (size - 4));
      Pow2Add(8, 248);
      var u := Pow2(8 * (size - 4));
      assert word * (256 * u) == 256 * (word * u);
    }
  }

  method SetCompact(target: BaseUint, nCompact: nat) returns (negative: bool, overflow: bool)
    requires target.pn.Length == WORDS && nCompact < BASE
    modifies target.pn
    ensures target.Number() == Expand(Fraction(nCompact), Exponent(nCompact)) % Limit()
    ensures overflow <==> Expand(Fraction(nCompact), Exponent(nCompact)) >= Limit()
    ensures !overflow ==> target.Number() == Expand(Fraction(nCompact), Exponent(nCompact))
    ensures negative <==> Expand(Fraction(nCompact), Exponent(nCompact)) != 0 && Signed(nCompact)
  {
    hide Pow2, Expand;
    Pow2Values();
    var nSize := nCompact / 0x100_0000;
    var nWord := nCompact % 0x80_0000;
    ghost var word := nWord;
    ExpandBy(word, nSize);
    if nSize <= 3 {
      nWord := nWord / Pow2(8 * (3 - nSize));
      target.Assign(nWord);
    } else {
      target.Assign(nWord);
      target.ShiftLeft(8 * (nSize - 3));
    }
    negative := nWord != 0 && nCompact / 0x80_0000 % 2 == 1;
    overflow := nWord != 0 && (nSize > 34 || (nWord > 0xff && nSize > 33) || (nWord > 0xffff && nSize > 32));
    OverflowExactly(word, nSize);
    ExpandSmall(word, nSize);
  }

  lemma ExpandBy(word: nat, size: nat)
    requires word < 0x80_0000
    ensures size <= 3 ==> Expand(word, size) == word / Pow2(8 * (3 - size)) && 0 <= word / Pow2(8 * (3 - size)) <= word
    ensures size > 3 ==> Expand(word, size) == word * Pow2(8 * (size - 3)) && (word == 0 <==> Expand(word, size) == 0)
  {
    if size <= 3 {
      DivideSmaller(word, Pow2(8 * (3 - size)));
    } else if word > 0 {
      MulMonotone(1, word, Pow2(8 * (size - 3)));
    }
  }

  lemma ExpandSmall(word: nat, size: nat)
    ensures Expand(word, size) < Limit() ==> Expand(word, size) % Limit() == Expand(word, size)
  {
    hide Pow2, Expand;
    if Expand(word, size) < Limit() {
      Quotient(Expand(word, size), 0, Limit(), Expand(word, size));
    }
  }

  // ---- Writing ----

  method GetCompact(x: BaseUint, negative: bool) returns (c: nat)
    requires x.pn.Length == WORDS
    ensures c < BASE
    ensures Represents(Exponent(c), Fraction(c), x.Number())
    ensures Signed(c) <==> negative && Fraction(c) != 0
  {
    hide Pow2, Mantissa, Or;
    var bits := x.BitLength();
    var nSize := (bits + 7) / 8;
    MantissaRange(x.Number(), bits, nSize);
    var nCompact := LeadingBytes(x, nSize);
    if nCompact / 0x80_0000 % 2 == 1 {
      NextMantissa(x.Number(), nSize);
      nCompact := nCompact / 256;
      nSize := nSize + 1;
    }
    assert nCompact < 0x80_0000 && nSize < 256;
    RepresentsBy(nSize, nCompact, x.Number());
    c := Pack(nSize, nCompact, negative);
  }

  /** The first three of size bytes. */
  method LeadingBytes(x: BaseUint, size: nat) returns (r: nat)
    requires x.pn.Length == WORDS
    requires Mantissa(x.Number(), size) < 0x100_0000
    ensures r == Mantissa(x.Number(), size)
  {
    hide Pow2, Mantissa, Value;
    MantissaAt(x.Number(), size);
    Truncated(Mantissa(x.Number(), size));
    if size <= 3 {
      LowBits(x.Number(), size);
      Truncated(x.Number());
      var low := x.GetLow64();
      r := low * Pow2(8 * (3 - size)) % (BASE * BASE) % BASE;
    } else {
      var bn := new BaseUint.Copy(x);
      bn.ShiftRight(8 * (size - 3));
      var low := bn.GetLow64();
      r := low % BASE;
    }
  }

  /** Exponent, mantissa and sign in one word. */
  method Pack(size: nat, word: nat, negative: bool) returns (c: nat)
    requires size < 256 && word < 0x80_0000
    ensures c < BASE && Exponent(c) == size && Fraction(c) == word
    ensures Signed(c) <==> negative && word != 0
  {
    hide Pow2, Or;
    Pow2Values();
    OrDisjoint(size, word, 24);
    PackedFields(size, word);
    c := Or(word, size * 0x100_0000);
    if negative && c % 0x80_0000 != 0 {
      c := Or(c, 0x80_0000);
    }
  }

  lemma RepresentsBy(e: nat, m: nat, x: nat)
    requires m == Mantissa(x, e)
    requires if x == 0 then e == 0 else 0x8000 <= m < 0x80_0000
    ensures Represents(e, m, x)
  {}

  /** With (bits+7)/8 bytes the mantissa has between 17 and 24 bits. */
  lemma MantissaRange(x: nat, bits: nat, size: nat)
    requires bits <= 256 && size == (bits + 7) / 8
    requires bits == 0 <==> x == 0
    requires bits > 0 ==> Pow2(bits - 1) <= x < Pow2(bits)
    ensures x == 0 ==> size == 0 && Mantissa(x, size) == 0
    ensures x > 0 ==> 0x1_0000 <= Mantissa(x, size) < 0x100_0000
  {
    hide Pow2;
    if bits > 0 {
      Pow2Values();
      Pow2Monotone(8 * (size - 1), bits - 1);
      Pow2Monotone(bits, 8 * size);
      if size <= 3 {
        var u := Pow2(8 * (3 - size));
        Pow2Add(8 * (size - 1), 8 * (3 - size));
        Pow2Add(8 * size, 8 * (3 - size));
        MulMonotone(Pow2(8 * (size - 1)), x, u);
        MulMonotone(x + 1, Pow2(8 * size), u);
        Distribute(x, 1, u);
      } else {
        var u := Pow2(8 * (size - 3));
        Pow2Add(16, 8 * (size - 3));
        Pow2Add(24, 8 * (size - 3));
        QuotientBetween(x, u, 0x1_0000, 0x100_0000);
      }
    }
  }

  lemma QuotientBetween(x: nat, u: nat, lo: nat, hi: nat)
    requires u > 0 && lo * u <= x < hi * u
    ensures lo <= x / u < hi
  {
    var q := x / u;
    Euclid(x, u);
    if q < lo { MulMonotone(q + 1, lo, u); Distribute(q, 1, u); }
    if q >= hi { MulMonotone(hi, q, u); }
  }

  lemma MantissaAt(x: nat, size: nat)
    ensures size <= 3 ==> Mantissa(x, size) == x * Pow2(8 * (3 - size))
    ensures size > 3 ==> Mantissa(x, size) == x / Pow2(8 * (size - 3))
  {}

  lemma LowBits(x: nat, size: nat)
    requires size <= 3 && Mantissa(x, size) < 0x100_0000
    ensures x < 0x100_0000
  {
    MulMonotone(1, Pow2(8 * (3 - size)), x);
  }

  /** The fields of e << 24 | m, with and without the sign bit. */
  lemma PackedFields(e: nat, m: nat)
    requires e < 256 && m < 0x80_0000
    ensures var c := e * 0x100_0000 + m;
            Or(c, 0x80_0000) == c + 0x80_0000 &&
            Exponent(c) == e && Fraction(c) == m && !Signed(c) &&
            Exponent(c + 0x80_0000) == e && Fraction(c + 0x80_0000) == m && Signed(c + 0x80_0000)
  {
    hide Pow2, Or;
    Pow2Values();
    Pow2Add(16, 7);
    assert Pow2(7) == 128 by { Pow2Add(7, 1); }
    OrHigh(e, m, 0x80_0000, 24);
    OrDisjoint(1, m, 23);
  }

  lemma {:induction false} OrHigh(h: nat, y: nat, z: nat, s: nat)
    requires y < Pow2(s) && z < Pow2(s)
    ensures Or(h * Pow2(s) + y, z) == h * Pow2(s) + Or(y, z)
  {
    if s > 0 {
      assert h * Pow2(s) == 2 * (h * Pow2(s - 1));
      OrHigh(h, y / 2, z / 2, s - 1);
    }
  }

  // ---- Round trips ----

  /** Writing a target and reading it back: never overflow, only low bytes lost. */
  method ReadBack(x: BaseUint) returns (t: BaseUint, c: nat, again: nat)
    requires x.pn.Length == WORDS
    ensures fresh(t) && fresh(t.pn) && t.pn.Length == WORDS
    ensures Exponent(c) <= 3 ==> t.Number() == x.Number()
    ensures Exponent(c) > 3 ==> t.Number() == x.Number() - x.Number() % Pow2(8 * (Exponent(c) - 3))
    ensures again == c
  {
    hide Pow2, Mantissa, Expand, Represents;
    c := GetCompact(x, false);
    ghost var e, m := Exponent(c), Fraction(c);
    CompactTruncates(x.Number(), e, m);
    CompactIdempotent(x.Number(), e, m);
    ValueBound(x.pn[..]);
    TruncatedFits(x.Number(), e, m);
    t := new BaseUint.Zero(WORDS);
    var negative, overflow := SetCompact(t, c);
    again := GetCompact(t, false);
    CompactUnique(t.Number(), e, m, Exponent(again), Fraction(again));
    SameFields(c, again);
  }

  lemma TruncatedFits(x: nat, e: nat, m: nat)
    requires Represents(e, m, x)
    ensures Expand(m, e) <= x
  {
    hide Pow2, Mantissa, Expand, Represents;
    CompactTruncates(x, e, m);
    if e > 3 { RemainderRange(x, Pow2(8 * (e - 3))); }
  }

  lemma RemainderRange(x: nat, d: nat)
    requires d > 0
    ensures 0 <= x % d
  {}

  lemma SameFields(c: nat, d: nat)
    requires Exponent(c) == Exponent(d) && Fraction(c) == Fraction(d)
    requires !Signed(c) && !Signed(d)
    ensures c == d
  {
    hide Exponent, Fraction, Signed;
    Fields(c);
    Fields(d);
  }

  lemma Fields(c: nat)
    ensures c == Exponent(c) * 0x100_0000 + (if Signed(c) then 0x80_0000 else 0) + Fraction(c)
  {
    var h := c / 0x80_0000;
    assert c == h * 0x80_0000 + Fraction(c);
    assert Exponent(c) == h / 2;
  }

  lemma Truncated(v: nat)
    requires v < 0x100_0000
    ensures v % (BASE * BASE) == v && v % BASE == v
  {}

  // ---- Work ----

  /** Whether a value is zero is whether every limb is. */
  method IsZero(x: BaseUint) returns (r: bool)
    ensures r <==> x.Number() == 0
  {
    for i := 0 to x.pn.Length
      invariant forall j :: 0 <= j < i ==> x.pn[j] == 0
    {
      if x.pn[i] != 0 {
        ValueAtLeast(x.pn[..], i);
        return false;
      }
    }
    ValueZero(x.pn[..]);
    return true;
  }

  lemma {:induction false} ValueAtLeast(s: seq<Limb>, i: nat)
    requires i < |s| && s[i] > 0
    ensures Value(s) > 0
  {
    var n := |s| - 1;
    MulMonotone(0, s[n], Pow2(32 * n));
    if i < n { ValueAtLeast(s[..n], i); } else { MulMonotone(1, s[n], Pow2(32 * n)); }
  }

  /** The work a block stands for: floor(2^256 / (target + 1)), or none for an unusable target. */
  method GetBlockProof(nBits: nat) returns (work: BaseUint)
    requires nBits < BASE
    ensures fresh(work) && fresh(work.pn) && work.pn.Length == WORDS
    ensures var t := Expand(Fraction(nBits), Exponent(nBits));
            work.Number() == if t == 0 || t >= Limit() || Signed(nBits) then 0 else Limit() / (t + 1)
  {
    hide Pow2, Expand, Value;
    var target := new BaseUint.Zero(WORDS);
    var negative, overflow := SetCompact(target, nBits);
    var none := IsZero(target);
    if negative || overflow || none {
      work := new BaseUint.Zero(WORDS);
      return;
    }
    TargetNotMax(Fraction(nBits), Exponent(nBits));
    work := WorkAgainst(target);
  }

  /** ~target / (target + 1) + 1. */
  method WorkAgainst(target: BaseUint) returns (work: BaseUint)
    requires target.pn.Length == WORDS
    requires 0 < target.Number() && target.Number() + 1 < Limit()
    ensures fresh(work) && fresh(work.pn) && work.pn.Length == WORDS
    ensures work.Number() == Limit() / (target.Number() + 1)
  {
    hide Pow2, Value;
    ghost var t := target.Number();
    WorkFormula(t, Limit());
    work := target.Complement();
    var one := new BaseUint.FromWord(WORDS, 1);
    var divisor := new BaseUint.Copy(target);
    divisor.AddAssign(one);
    Quotient(t + 1, 0, Limit(), t + 1);
    var threw := work.DivAssign(divisor);
    work.AddAssign(one);
  }

  /** (2^256 - 1 - t) / (t + 1) + 1 avoids 2^256 and still is 2^256 / (t + 1). */
  lemma WorkFormula(t: nat, limit: nat)
    requires 0 < t && t + 1 < limit
    ensures ((limit - 1 - t) / (t + 1) + 1) % limit == limit / (t + 1)
  {
    var d := t + 1;
    var q, r := (limit - d) / d, (limit - d) % d;
    Euclid(limit - d, d);
    Distribute(q, 1, d);
    Quotient(limit, q + 1, d, r);
    QuotientRange(limit - d, q, d, r);
    Quotient(q + 1, 0, limit, q + 1);
  }
}
