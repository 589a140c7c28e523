/**
 * Multi-limb unsigned integers of any width, updated in place limb by limb.
 * Every operator is proved to be the integer operation modulo 2^(32 * width).
 */
module ArithUint {
  import opened Bits
  import opened Limbs
  import opened ArithSteps

  class BaseUint {
    const pn: array<Limb>

    /** The integer held. */
    ghost function Number(): (r: nat)
      reads this, pn
    {
      Value(pn[..])
    }

    /** 2 to the number of bits. */
    ghost function Modulus(): (r: nat)
      ensures r > 0
    {
      Pow2(32 * pn.Length)
    }

    constructor Zero(width: nat)
      ensures fresh(pn) && pn.Length == width && Number() == 0
    {
      pn := new Limb[width](_ => 0);
      new;
      ValueZero(pn[..]);
    }

    constructor Copy(b: BaseUint)
      ensures fresh(pn) && pn[..] == b.pn[..]
    {
      pn := new Limb[b.pn.Length](i requires 0 <= i < b.pn.Length reads b.pn => b.pn[i]);
    }

    constructor FromWord(width: nat, b: nat)
      requires width >= 2 && b < BASE * BASE
      ensures fresh(pn) && pn.Length == width && Number() == b
    {
      WordLimbs(b);
      pn := new Limb[width](i => if i == 0 then b % BASE else if i == 1 then LimbOf(b / BASE) else 0);
      new;
      WordValue(pn[..], b);
    }

    /** Assignment of a 64-bit value. */
    method Assign(b: nat)
      requires pn.Length >= 2 && b < BASE * BASE
      modifies pn
      ensures Number() == b
    {
      WordLimbs(b);
      pn[0] := b % BASE;
      pn[1] := b / BASE;
      for i := 2 to pn.Length
        invariant pn[0] == b % BASE && pn[1] == b / BASE
        invariant forall j :: 2 <= j < i ==> pn[j] == 0
      {
        pn[i] := 0;
      }
      WordValue(pn[..], b);
    }

    /** Assignment of another number. */
    method Set(b: BaseUint)
      requires b.pn.Length == pn.Length
      modifies pn
      ensures pn[..] == old(b.pn[..])
    {
      ghost var y := b.pn[..];
      for i := 0 to pn.Length
        invariant forall j :: 0 <= j < i ==> pn[j] == y[j]
        invariant forall j :: i <= j < pn.Length ==> b.pn[j] == y[j]
      {
        pn[i] := b.pn[i];
      }
    }

    /** pn[j] = 0 for every j. */
    method Clear()
      modifies pn
      ensures forall j :: 0 <= j < pn.Length ==> pn[j] == 0
      ensures Number() == 0
    {
      for i := 0 to pn.Length
        invariant forall j :: 0 <= j < i ==> pn[j] == 0
      {
        pn[i] := 0;
      }
      ValueZero(pn[..]);
    }

    method ShiftLeft(shift: nat)
      modifies pn
      ensures Number() == old(Number()) * Pow2(shift) % Modulus()
    {
      hide Pow2, ShiftUp, ShiftDown, Spill, Or, Value;
      var a := pn[..];
      var w := pn.Length;
      Clear();
      var k, s := shift / 32, shift % 32;
      ghost var q := 0;
      EmptyPrefix(a);
      for i := 0 to w
        invariant k + i < w ==> pn[k + i] == (if i == 0 then 0 else ShiftDown(a[i - 1], 32 - s))
        invariant k + i < w ==> forall j :: k + i < j < w ==> pn[j] == 0
        invariant Value(pn[..]) + q * Pow2(32 * w) == Value(a[..i]) * Pow2(shift)
      {
        var x := a[i];
        ghost var before, p := Value(pn[..]), pn[..];
        LimbParts(x, if i == 0 then 0 else a[i - 1], s);
        if i + k + 1 < w && s != 0 {
          OrZero(ShiftDown(x, 32 - s));
          ValueUpdate(pn[..], i + k + 1, ShiftDown(x, 32 - s));
          pn[i + k + 1] := Or(pn[i + k + 1], ShiftDown(x, 32 - s));
          assert pn[..] == p[i + k + 1 := ShiftDown(x, 32 - s)];
        }
        assert i + k + 1 < w ==> pn[i + k + 1] == ShiftDown(x, 32 - s);
        assert i + k + 1 < w ==> Value(pn[..]) == before + ShiftDown(x, 32 - s) * Pow2(32 * (k + i + 1));
        if i + k < w {
          p := pn[..];
          ghost var v: Limb := pn[i + k] + ShiftUp(x, s);
          ValueUpdate(pn[..], i + k, v);
          pn[i + k] := Or(pn[i + k], ShiftUp(x, s));
          assert pn[..] == p[i + k := v];
          UpStep(x, i, k, s);
        } else {
          SpillBeyond(x, i, k, s, w);
        }
        q := q + Spill(x, i, k, s, w);
        ValuePrefix(a, i);
        SpillStep(x, i, k, s, w, Value(a[..i]), before, Value(pn[..]), q - Spill(x, i, k, s, w));
      }
      assert a[..w] == a;
      ValueBound(pn[..]);
      Quotient(Value(a) * Pow2(shift), q, Pow2(32 * w), Value(pn[..]));
    }

    method ShiftRight(shift: nat)
      modifies pn
      ensures Number() == old(Number()) / Pow2(shift)
    {
      hide Pow2, ShiftUp, ShiftDown, Or, Value, Lost;
      var a := pn[..];
      var w := pn.Length;
      Clear();
      var k, s := shift / 32, shift % 32;
      EmptyPrefix(a);
      NothingLost(a, k, s);
      for i := 0 to w
        invariant forall j :: 0 <= j < w && j + k >= i ==> pn[j] == 0
        invariant 0 <= i - k - 1 ==> pn[i - k - 1] == ShiftDown(a[i - 1], s)
        invariant Value(pn[..]) * Pow2(shift) + Lost(a, k, s, i) == Value(a[..i])
      {
        var x := a[i];
        ghost var before, p := Value(pn[..]), pn[..];
        ValuePrefix(a, i);
        DownParts(x, if i == 0 then 0 else a[i - 1], s);
        if i - k - 1 >= 0 && s != 0 {
          ghost var v: Limb := pn[i - k - 1] + ShiftUp(x, 32 - s);
          ValueUpdate(pn[..], i - k - 1, v);
          pn[i - k - 1] := Or(pn[i - k - 1], ShiftUp(x, 32 - s));
          assert pn[..] == p[i - k - 1 := v];
        }
        assert i - k - 1 >= 0 ==> Value(pn[..]) == before + ShiftUp(x, 32 - s) * Pow2(32 * (i - k - 1));
        if i - k >= 0 {
          p := pn[..];
          OrZero(ShiftDown(x, s));
          ValueUpdate(pn[..], i - k, ShiftDown(x, s));
          pn[i - k] := Or(pn[i - k], ShiftDown(x, s));
          assert pn[..] == p[i - k := ShiftDown(x, s)];
        }
        LostStep(a, k, s, i, before, Value(pn[..]));
      }
      assert a[..w] == a;
      LostBound(a, k, s, w);
      Quotient(Value(a), Value(pn[..]), Pow2(shift), Lost(a, k, s, w));
    }

    method AddAssign(b: BaseUint)
      requires b.pn.Length == pn.Length
      modifies pn
      ensures Number() == (old(Number()) + old(b.Number())) % Modulus()
    {
      hide Pow2, Value;
      var carry := 0;
      ghost var x, y := pn[..], b.pn[..];
      var w := pn.Length;
      EmptyPrefix(x);
      EmptyPrefix(y);
      EmptyPrefix(pn[..]);
      for i := 0 to w
        invariant 0 <= carry <= 1
        invariant forall j :: i <= j < w ==> pn[j] == x[j] && b.pn[j] == y[j]
        invariant Value(pn[..][..i]) + carry * Pow2(32 * i) == Value(x[..i]) + Value(y[..i])
      {
        ghost var c, p := carry, pn[..];
        var n := carry + pn[i] + b.pn[i];
        pn[i] := n % BASE;
        carry := n / BASE;
        assert pn[..][..i] == p[..i];
        ValuePrefix(x, i);
        ValuePrefix(y, i);
        ValuePrefix(pn[..], i);
        Pow2Limb(i);
        CarryStep(n % BASE, n / BASE, c + x[i] + y[i], Pow2(32 * i));
        Distribute(c + x[i], y[i], Pow2(32 * i));
        Distribute(c, x[i], Pow2(32 * i));
      }
      assert pn[..][..w] == pn[..] && x[..w] == x && y[..w] == y;
      ValueBound(pn[..]);
      Quotient(Value(x) + Value(y), carry, Pow2(32 * w), Value(pn[..]));
    }

    method Increment()
      modifies pn
      ensures Number() == (old(Number()) + 1) % Modulus()
    {
      hide Pow2, Value;
      ghost var x := pn[..];
      var w := pn.Length;
      var i := 0;
      var wrapped := true;
      Pow2Values();
      while i < w && wrapped
        invariant 0 <= i <= w
        invariant wrapped ==> forall j :: i <= j < w ==> pn[j] == x[j]
        invariant Value(pn[..]) + (if wrapped then Pow2(32 * i) else 0) == Value(x) + 1
        decreases w - i, wrapped
      {
        ghost var p := pn[..];
        pn[i] := (pn[i] + 1) % BASE;
        ValueUpdate(p, i, pn[i]);
        assert pn[..] == p[i := pn[i]];
        Pow2Limb(i);
        wrapped := pn[i] == 0;
        if wrapped {
          CarryOver(p[i], Pow2(32 * i));
          i := i + 1;
        }
      }
      ValueBound(pn[..]);
      ghost var carry := if wrapped then 1 else 0;
      Quotient(Value(x) + 1, carry, Pow2(32 * w), Value(pn[..]));
    }

    /** ~x, as a new number. */
    method Complement() returns (ret: BaseUint)
      ensures fresh(ret) && fresh(ret.pn) && ret.pn.Length == pn.Length
      ensures ret.Number() == Modulus() - 1 - Number()
    {
      ret := new BaseUint.Zero(pn.Length);
      for i := 0 to pn.Length
        invariant forall j :: 0 <= j < i ==> ret.pn[j] == BASE - 1 - pn[j]
      {
        ret.pn[i] := BASE - 1 - pn[i];
      }
      ValueComplement(pn[..], ret.pn[..]);
    }

    /** Two's complement. */
    method Negate() returns (ret: BaseUint)
      ensures fresh(ret) && fresh(ret.pn) && ret.pn.Length == pn.Length
      ensures ret.Number() == (Modulus() - Number()) % Modulus()
    {
      ret := Complement();
      ret.Increment();
    }

    method SubAssign(b: BaseUint)
      requires b.pn.Length == pn.Length
      modifies pn
      ensures Number() == (old(Number()) - old(b.Number())) % Modulus()
      ensures old(b.Number()) <= old(Number()) ==> Number() == old(Number()) - old(b.Number())
    {
      hide Value;
      var n := b.Negate();
      ghost var y := b.Number();
      ValueBound(b.pn[..]);
      ValueBound(pn[..]);
      SubtractModulo(Number(), y, Modulus());
      AddAssign(n);
    }

    method MulWord(b32: Limb)
      modifies pn
      ensures Number() == old(Number()) * b32 % Modulus()
    {
      hide Pow2, Value;
      var carry := 0;
      ghost var x := pn[..];
      var w := pn.Length;
      EmptyPrefix(x);
      EmptyPrefix(pn[..]);
      for i := 0 to w
        invariant 0 <= carry < BASE
        invariant forall j :: i <= j < w ==> pn[j] == x[j]
        invariant Value(pn[..][..i]) + carry * Pow2(32 * i) == Value(x[..i]) * b32
      {
        ghost var c, p := carry, pn[..];
        ProductFits(carry, 0, b32, pn[i]);
        var n := carry + b32 * pn[i];
        pn[i] := n % BASE;
        carry := n / BASE;
        assert pn[..][..i] == p[..i];
        ValuePrefix(x, i);
        ValuePrefix(pn[..], i);
        Pow2Limb(i);
        CarryStep(n % BASE, n / BASE, n, Pow2(32 * i));
        Distribute(c, b32 * x[i], Pow2(32 * i));
        Associate(b32, x[i], Pow2(32 * i));
        Distribute(Value(x[..i]), x[i] * Pow2(32 * i), b32);
      }
      assert pn[..][..w] == pn[..] && x[..w] == x;
      ValueBound(pn[..]);
      Quotient(Value(x) * b32, carry, Pow2(32 * w), Value(pn[..]));
    }

    /** Schoolbook multiplication; b may be this number itself. */
    method MulAssign(b: BaseUint)
      requires b.pn.Length == pn.Length
      modifies pn
      ensures Number() == old(Number()) * old(b.Number()) % Modulus()
    {
      hide Pow2, Value, Splits, RowAdded;
      ghost var x, y := pn[..], b.pn[..];
      var w := pn.Length;
      var a := new BaseUint.Zero(w);
      ghost var q: nat := 0;
      NoRows(x, y);
      for j := 0 to w
        invariant pn[..] == x && b.pn[..] == y
        invariant Splits(Value(x[..j]) * Value(y), q, Pow2(32 * w), Value(a.pn[..]))
      {
        ghost var before := Value(a.pn[..]);
        var carry := a.AddRow(b, pn[j], j);
        q := RowDone(x, y, j, before, Value(a.pn[..]), carry, q);
      }
      assert x[..w] == x;
      Set(a);
      ValueBound(pn[..]);
      Remainder(Value(x) * Value(y), q, Pow2(32 * w), Value(pn[..]));
    }

    /** The inner loop of the multiplication: adds x * b, shifted by j limbs. */
    method AddRow(b: BaseUint, x: Limb, j: nat) returns (carry: nat)
      requires b.pn.Length == pn.Length && b.pn != pn && j < pn.Length
      modifies pn
      ensures RowAdded(old(Number()), Number(), carry, x, Value(b.pn[..][..pn.Length - j]), j, pn.Length)
    {
      hide Pow2, Value;
      carry := 0;
      ghost var y, start := b.pn[..], Value(pn[..]);
      var w := pn.Length;
      EmptyPrefix(y);
      for i := 0 to w - j
        invariant 0 <= carry < BASE && b.pn[..] == y
        invariant Value(pn[..]) + carry * Pow2(32 * (i + j)) == start + (x * Value(y[..i])) * Pow2(32 * j)
      {
        ghost var c, p := carry, pn[..];
        ProductFits(carry, pn[i + j], x, b.pn[i]);
        var n := carry + pn[i + j] + x * b.pn[i];
        ghost var v: Limb := n % BASE;
        ValueUpdate(p, i + j, v);
        pn[i + j] := n % BASE;
        carry := n / BASE;
        assert pn[..] == p[i + j := v];
        ValuePrefix(y, i);
        RowStep(x, y[i], i, j, Value(y[..i]), c, p[i + j], v, carry);
      }
    }

    method CompareTo(b: BaseUint) returns (r: int)
      requires b.pn.Length == pn.Length
      ensures r == if Number() < b.Number() then -1 else if Number() > b.Number() then 1 else 0
    {
      var i := pn.Length;
      while i > 0
        invariant 0 <= i <= pn.Length
        invariant forall j :: i <= j < pn.Length ==> pn[j] == b.pn[j]
      {
        i := i - 1;
        if pn[i] < b.pn[i] {
          ValueOrder(pn[..], b.pn[..], i);
          return -1;
        }
        if pn[i] > b.pn[i] {
          ValueOrder(b.pn[..], pn[..], i);
          return 1;
        }
      }
      assert pn[..] == b.pn[..];
      return 0;
    }

    /** One more than the position of the highest set bit. */
    method BitLength() returns (r: nat)
      ensures r <= 32 * pn.Length
      ensures r == 0 <==> Number() == 0
      ensures r > 0 ==> Pow2(r - 1) <= Number() < Pow2(r)
    {
      hide Pow2, Value, And;
      Pow2Values();
      var pos := pn.Length;
      while pos > 0
        invariant 0 <= pos <= pn.Length
        invariant forall j :: pos <= j < pn.Length ==> pn[j] == 0
      {
        pos := pos - 1;
        if pn[pos] != 0 {
          ValueTrim(pn[..], pos + 1);
          ValuePrefix(pn[..], pos);
          ValueBound(pn[..][..pos]);
          var nbits := 31;
          while nbits > 0
            invariant 0 <= nbits <= 31
            invariant pn[pos] < Pow2(nbits + 1)
          {
            TopBit(pn[pos], nbits);
            if And(pn[pos], Pow2(nbits)) != 0 {
              LengthAt(Value(pn[..]), Value(pn[..][..pos]), pn[pos], pos, nbits);
              return 32 * pos + nbits + 1;
            }
            nbits := nbits - 1;
          }
          LengthAt(Value(pn[..]), Value(pn[..][..pos]), pn[pos], pos, 0);
          return 32 * pos + 1;
        }
      }
      ValueZero(pn[..]);
      return 0;
    }

    method GetLow64() returns (r: nat)
      requires pn.Length >= 2
      ensures r == Number() % (BASE * BASE)
    {
      hide Pow2, Value;
      Pow2Values();
      OrDisjoint(pn[1], pn[0], 32);
      r := Or(pn[0], pn[1] * BASE);
      LowLimbs(pn[..]);
    }

    /** Every bit of the quotient up to position shift is still zero. */
    ghost predicate BitsClear(shift: nat)
      requires shift < 32 * pn.Length
      reads this, pn
    {
      pn[shift / 32] % Pow2(shift % 32 + 1) == 0 &&
      forall j :: 0 <= j < shift / 32 ==> pn[j] == 0
    }

    lemma StartClear(shift: nat)
      requires shift < 32 * pn.Length
      requires forall j :: 0 <= j < pn.Length ==> pn[j] == 0
      ensures BitsClear(shift)
    {
      Quotient(0, 0, Pow2(shift % 32 + 1), 0);
    }

    lemma ClearAt(shift: nat)
      requires shift < 32 * pn.Length && BitsClear(shift)
      ensures pn[shift / 32] % Pow2(shift % 32 + 1) == 0
      ensures forall j :: 0 <= j < shift / 32 ==> pn[j] == 0
    {}

    lemma ClearBelow(shift: nat)
      requires 0 < shift < 32 * pn.Length
      requires pn[shift / 32] % Pow2(shift % 32) == 0
      requires forall j :: 0 <= j < shift / 32 ==> pn[j] == 0
      ensures BitsClear(shift - 1)
    {
      hide Pow2;
      Quotient(0, 0, Pow2(32), 0);
      assert shift % 32 == 0 ==> (shift - 1) / 32 == shift / 32 - 1 && (shift - 1) % 32 == 31;
      assert shift % 32 > 0 ==> (shift - 1) / 32 == shift / 32 && (shift - 1) % 32 == shift % 32 - 1;
    }

    /** Divisor shifted by shift: subtract it if it fits and set that bit of the quotient. */
    method DivideStep(num: BaseUint, div: BaseUint, shift: nat, ghost d: nat)
      requires num.pn != pn && div.pn != pn && num.pn != div.pn
      requires num.pn.Length == pn.Length && div.pn.Length == pn.Length
      requires shift < 32 * pn.Length && BitsClear(shift)
      requires div.Number() == d * Pow2(shift)
      requires num.Number() < d * Pow2(shift + 1)
      modifies pn, num.pn, div.pn
      ensures num.Number() < d * Pow2(shift)
      ensures forall n :: Splits(n, old(Number()), d, old(num.Number())) ==> Splits(n, Number(), d, num.Number())
      ensures shift > 0 ==> BitsClear(shift - 1) && div.Number() == d * Pow2(shift - 1)
    {
      hide Pow2, Value, Or, Splits, BitsClear;
      var i, bit := shift / 32, shift % 32;
      ghost var r, q, t := num.Number(), Number(), d * Pow2(shift);
      Halve(d, shift);
      ClearAt(shift);
      SetBit(pn[i], bit);
      var order := num.CompareTo(div);
      if order >= 0 {
        num.SubAssign(div);
        assert num.Number() == r - t;
        SetQuotientBit(i, bit);
        assert Number() == q + Pow2(shift);
        forall n | Splits(n, q, d, r) ensures Splits(n, Number(), d, num.Number()) {
          SplitMore(n, q, d, r, Pow2(shift));
        }
      }
      if shift > 0 { ClearBelow(shift); }
      div.ShiftRight(1);
    }

    method SetQuotientBit(i: nat, bit: nat)
      requires i < pn.Length && bit < 32
      requires pn[i] % Pow2(bit + 1) == 0
      modifies pn
      ensures Number() == old(Number()) + Pow2(32 * i + bit)
      ensures pn[i] % Pow2(bit) == 0
      ensures forall j :: 0 <= j < pn.Length && j != i ==> pn[j] == old(pn[j])
    {
      hide Pow2, Value, Or;
      SetBit(pn[i], bit);
      ghost var p := pn[..];
      ghost var v: Limb := pn[i] + Pow2(bit);
      ValueUpdate(p, i, v);
      pn[i] := Or(pn[i], Pow2(bit));
      assert pn[..] == p[i := v];
      Pow2Add(bit, 32 * i);
    }

    /**
     * Shift-subtract division: the exact quotient for every divisor but zero,
     * for which the source throws, leaving zero behind.
     */
    method DivAssign(b: BaseUint) returns (threw: bool)
      requires b.pn.Length == pn.Length
      modifies pn
      ensures threw <==> old(b.Number()) == 0
      ensures Number() == if threw then 0 else old(Number()) / old(b.Number())
    {
      hide Pow2, Value, Or, BitsClear, Splits;
      var div := new BaseUint.Copy(b);
      var num := new BaseUint.Copy(this);
      ghost var n, d := Number(), b.Number();
      Clear();
      var num_bits := num.BitLength();
      var div_bits := div.BitLength();
      if div_bits == 0 { return true; }
      threw := false;
      if div_bits > num_bits {
        if num_bits > 0 { Pow2Monotone(num_bits, div_bits - 1); }
        Quotient(n, 0, d, n);
        return;
      }
      var shift := num_bits - div_bits;
      AlignedFits(d, div_bits, shift, 32 * pn.Length, num_bits);
      div.ShiftLeft(shift);
      ghost var w := pn.Length;
      Start(n, d, num_bits, div_bits);
      StartClear(shift);
      while shift >= 0
        invariant -1 <= shift < 32 * w
        invariant shift >= 0 ==> div.Number() == d * Pow2(shift)
        invariant num.Number() < d * Pow2(shift + 1)
        invariant Splits(n, Number(), d, num.Number())
        invariant shift >= 0 ==> BitsClear(shift)
      {
        DivideStep(num, div, shift, d);
        shift := shift - 1;
      }
      Finish(n, Number(), d, num.Number());
    }
  }

  // ---- Facts the loops use ----

  lemma EmptyPrefix(s: seq<Limb>)
    ensures Value(s[..0]) == 0
  {}

  function LimbOf(x: nat): Limb { x % BASE }

  lemma WordLimbs(b: nat)
    requires b < BASE * BASE
    ensures 0 <= b / BASE < BASE && LimbOf(b / BASE) == b / BASE
    ensures b == b % BASE + (b / BASE) * BASE
  {}

  lemma WordValue(s: seq<Limb>, b: nat)
    requires |s| >= 2 && b == s[0] + s[1] * BASE
    requires forall j :: 2 <= j < |s| ==> s[j] == 0
    ensures Value(s) == b
  {
    hide Pow2, Value;
    Pow2Values();
    EmptyPrefix(s);
    ValueTrim(s, 2);
    ValuePrefix(s, 1);
    ValuePrefix(s, 0);
  }

  lemma OrZero(x: nat)
    ensures Or(0, x) == x && Or(x, 0) == x
  {}

  /** What the two halves of a limb are when it is shifted left by s. */
  lemma LimbParts(x: Limb, y: Limb, s: nat)
    requires s < 32
    ensures s == 0 ==> ShiftDown(x, 32 - s) == 0
    ensures Or(0, ShiftUp(x, s)) == ShiftUp(x, s)
    ensures 0 <= ShiftUp(x, s) + ShiftDown(y, 32 - s) < BASE
    ensures Or(ShiftDown(y, 32 - s), ShiftUp(x, s)) == ShiftDown(y, 32 - s) + ShiftUp(x, s)
  {
    hide Pow2, Or;
    ShiftSplit(x, s);
    ShiftSplit(y, s);
    OrZero(ShiftUp(x, s));
    OrDisjoint(x % Pow2(32 - s), ShiftDown(y, 32 - s), s);
    Pow2Values();
    Pow2Add(32 - s, s);
    MulMonotone(x % Pow2(32 - s) + 1, Pow2(32 - s), Pow2(s));
    Distribute(x % Pow2(32 - s), 1, Pow2(s));
  }

  lemma SpillStep(x: Limb, i: nat, k: nat, s: nat, w: nat, low: nat, before: int, after: int, q: int)
    requires s < 32
    requires before + q * Pow2(32 * w) == low * Pow2(32 * k + s)
    requires k + i < w ==> after == before + ShiftUp(x, s) * Pow2(32 * (k + i))
                                  + (if k + i + 1 < w then ShiftDown(x, 32 - s) * Pow2(32 * (k + i + 1)) else 0)
    requires k + i >= w ==> after == before
    ensures after + (q + Spill(x, i, k, s, w)) * Pow2(32 * w) == (low + x * Pow2(32 * i)) * Pow2(32 * k + s)
  {
    hide Pow2, ShiftUp, ShiftDown;
    UpStep(x, i, k, s);
    if k + i >= w { SpillBeyond(x, i, k, s, w); }
    Distribute(low, x * Pow2(32 * i), Pow2(32 * k + s));
    Distribute(q, Spill(x, i, k, s, w), Pow2(32 * w));
  }

  /** What the two halves of a limb are when it is shifted right by s. */
  lemma DownParts(x: Limb, y: Limb, s: nat)
    requires s < 32
    ensures s == 0 ==> ShiftUp(x, 32 - s) == 0
    ensures 0 <= ShiftDown(y, s) + ShiftUp(x, 32 - s) < BASE
    ensures Or(ShiftDown(y, s), ShiftUp(x, 32 - s)) == ShiftDown(y, s) + ShiftUp(x, 32 - s)
  {
    hide Pow2, Or, ShiftUp, ShiftDown;
    DownSplit(x, s);
    DownSplit(y, s);
    OrDisjoint(x % Pow2(s), ShiftDown(y, s), 32 - s);
    Pow2Values();
    Pow2Add(s, 32 - s);
    MulMonotone(x % Pow2(s) + 1, Pow2(s), Pow2(32 - s));
    Distribute(x % Pow2(s), 1, Pow2(32 - s));
  }

  /** The part of the first i limbs that a right shift by 32k + s drops. */
  ghost function Lost(a: seq<Limb>, k: nat, s: nat, i: nat): (r: nat)
    requires i <= |a|
  {
    if i <= k then Value(a[..i]) else Value(a[..k]) + (a[k] % Pow2(s)) * Pow2(32 * k)
  }

  lemma NothingLost(a: seq<Limb>, k: nat, s: nat)
    ensures Lost(a, k, s, 0) == 0
  {}

  lemma LostStep(a: seq<Limb>, k: nat, s: nat, i: nat, before: nat, after: nat)
    requires i < |a| && s < 32
    requires before * Pow2(32 * k + s) + Lost(a, k, s, i) == Value(a[..i])
    requires i < k ==> after == before
    requires i >= k ==> after == before + ShiftDown(a[i], s) * Pow2(32 * (i - k))
                              + (if i > k then ShiftUp(a[i], 32 - s) * Pow2(32 * (i - k - 1)) else 0)
    ensures after * Pow2(32 * k + s) + Lost(a, k, s, i + 1) == Value(a[..i + 1])
  {
    hide Pow2, ShiftUp, Value;
    ValuePrefix(a, i);
    var f := Pow2(32 * k + s);
    if i > k {
      DownStep(a[i], i, k, s);
      Distribute(before, after - before, f);
    } else if i == k {
      Pow2Values();
      Euclid(a[k], Pow2(s));
      Pow2Add(32 * k, s);
      var q, r, u, m := ShiftDown(a[k], s), a[k] % Pow2(s), Pow2(s), Pow2(32 * k);
      Distribute(before, q, f);
      Distribute(q * u, r, m);
      Associate(q, u, m);
    }
  }

  lemma LostBound(a: seq<Limb>, k: nat, s: nat, w: nat)
    requires w == |a| && s < 32
    ensures Lost(a, k, s, w) < Pow2(32 * k + s)
  {
    hide Pow2, Value;
    Pow2Add(32 * k, s);
    if w <= k {
      ValueBound(a[..w]);
      Pow2Monotone(32 * w, 32 * k + s);
    } else {
      ValueBound(a[..k]);
      MulMonotone(a[k] % Pow2(s) + 1, Pow2(s), Pow2(32 * k));
      Distribute(a[k] % Pow2(s), 1, Pow2(32 * k));
    }
  }

  lemma CarryStep(lo: int, hi: int, n: int, p: nat)
    requires n == lo + hi * BASE
    ensures lo * p + hi * (p * BASE) == n * p
  {
    Spread(lo, hi, BASE, p);
  }

  lemma ProductFits(carry: nat, a: Limb, x: Limb, y: Limb)
    requires carry < BASE
    ensures 0 <= carry + a + x * y < BASE * BASE
  {
    var top := 0xFFFF_FFFF;
    MulMonotone(0, x, y);
    MulMonotone(x, top, y);
    assert top * y <= top * top;
  }

  lemma RowStep(x: Limb, y: Limb, i: nat, j: nat, low: nat, c: nat, a: Limb, v: Limb, carry: nat)
    requires c + a + x * y == v + carry * BASE
    ensures (v - a) * Pow2(32 * (i + j)) + carry * Pow2(32 * (i + 1 + j)) + (x * low) * Pow2(32 * j)
         == c * Pow2(32 * (i + j)) + (x * (low + y * Pow2(32 * i))) * Pow2(32 * j)
  {
    hide Pow2;
    var p := Pow2(32 * (i + j));
    Pow2Limb(i + j);
    Pow2Add(32 * i, 32 * j);
    assert 32 * i + 32 * j == 32 * (i + j);
    CarryStep(v, carry, c + a + x * y, p);
    Distribute(c + a, x * y, p);
    Distribute(c, a, p);
    Distribute(v - a, a, p);
    RowProduct(x, y, low, Pow2(32 * i), Pow2(32 * j));
  }

  lemma RowProduct(x: nat, y: nat, low: nat, a: nat, b: nat)
    ensures (x * (low + y * a)) * b == (x * low) * b + (x * y) * (a * b)
  {
    calc {
      (x * (low + y * a)) * b;
      { Distribute(low, y * a, x); Associate(x, y, a); }
      (x * low + (x * y) * a) * b;
      { Distribute(x * low, (x * y) * a, b); }
      (x * low) * b + ((x * y) * a) * b;
      { Associate(x * y, a, b); }
      (x * low) * b + (x * y) * (a * b);
    }
  }

  ghost predicate RowAdded(before: int, after: int, carry: int, x: Limb, low: nat, j: nat, w: nat) {
    after + carry * Pow2(32 * w) == before + (x * low) * Pow2(32 * j)
  }

  lemma NoRows(x: seq<Limb>, y: seq<Limb>)
    ensures Splits(Value(x[..0]) * Value(y), 0, Pow2(32 * |x|), 0)
  {}

  lemma Remainder(n: int, q: int, d: nat, r: nat)
    requires Splits(n, q, d, r) && r < d
    ensures r == n % d
  {
    Quotient(n, q, d, r);
  }

  lemma RowDone(x: seq<Limb>, y: seq<Limb>, j: nat, before: nat, after: nat, carry: nat, q: nat) returns (r: nat)
    requires j < |x| == |y|
    requires Splits(Value(x[..j]) * Value(y), q, Pow2(32 * |x|), before)
    requires RowAdded(before, after, carry, x[j], Value(y[..|x| - j]), j, |x|)
    ensures Splits(Value(x[..j + 1]) * Value(y), r, Pow2(32 * |x|), after)
  {
    hide Pow2, Value;
    var w := |x|;
    var high := ValueSplit(y, w - j);
    ValuePrefix(x, j);
    RowEnd(x[j], j, w, Value(y), Value(y[..w - j]), high, carry, q);
    Distribute(Value(x[..j]), x[j] * Pow2(32 * j), Value(y));
    MulMonotone(0, x[j], high);
    r := q + carry + x[j] * high;
  }

  lemma RowEnd(x: Limb, j: nat, w: nat, y: nat, low: nat, high: nat, carry: nat, q: nat)
    requires j <= w && y == low + high * Pow2(32 * (w - j))
    ensures (x * low) * Pow2(32 * j) - carry * Pow2(32 * w) + (q + carry + x * high) * Pow2(32 * w)
         == q * Pow2(32 * w) + (x * Pow2(32 * j)) * y
  {
    hide Pow2;
    var m := Pow2(32 * w);
    Pow2Add(32 * (w - j), 32 * j);
    RowProduct(x, high, low, Pow2(32 * (w - j)), Pow2(32 * j));
    assert (x * Pow2(32 * j)) * y == (x * y) * Pow2(32 * j);
    Distribute(q + carry, x * high, m);
    Distribute(q, carry, m);
  }

  /** The high limbs of a number, as a multiple of 2^(32 n). */
  lemma {:induction false} ValueSplit(s: seq<Limb>, n: nat) returns (high: nat)
    requires n <= |s|
    ensures Value(s) == Value(s[..n]) + high * Pow2(32 * n)
  {
    hide Pow2;
    if n == |s| {
      assert s[..n] == s;
      high := 0;
    } else {
      var m := |s| - 1;
      var h := ValueSplit(s[..m], n);
      assert s[..m][..n] == s[..n];
      Pow2Add(32 * (m - n), 32 * n);
      Associate(s[m], Pow2(32 * (m - n)), Pow2(32 * n));
      high := h + s[m] * Pow2(32 * (m - n));
      Distribute(h, s[m] * Pow2(32 * (m - n)), Pow2(32 * n));
    }
  }

  lemma CarryOver(x: Limb, p: nat)
    requires (x + 1) % BASE == 0
    ensures (0 - x) * p + p * BASE == p
  {
    assert x == BASE - 1;
  }

  lemma SubtractModulo(x: nat, y: nat, m: nat)
    requires x < m && y < m
    ensures (x + (m - y) % m) % m == (x - y) % m
    ensures y <= x ==> (x - y) % m == x - y
  {
    Reduce(m - y, m);
    Reduce(x - y, m);
    Reduce(x + if y == 0 then 0 else m - y, m);
  }

  lemma Reduce(x: int, m: nat)
    requires m > 0 && 0 - m <= x < 2 * m
    ensures x % m == if x < 0 then x + m else if x < m then x else x - m
  {
    var q := if x < 0 then -1 else if x < m then 0 else 1;
    Quotient(x, q, m, x - q * m);
  }

  lemma LengthAt(v: nat, low: nat, limb: Limb, pos: nat, nbits: nat)
    requires v == low + limb * Pow2(32 * pos) && low < Pow2(32 * pos)
    requires Pow2(nbits) <= limb < Pow2(nbits + 1)
    ensures Pow2(32 * pos + nbits) <= v < Pow2(32 * pos + nbits + 1)
  {
    hide Pow2;
    var p := Pow2(32 * pos);
    Pow2Add(nbits, 32 * pos);
    Pow2Add(nbits + 1, 32 * pos);
    MulMonotone(Pow2(nbits), limb, p);
    MulMonotone(limb + 1, Pow2(nbits + 1), p);
    Distribute(limb, 1, p);
  }

  lemma {:induction false} LowLimbs(s: seq<Limb>)
    requires |s| >= 2
    ensures Value(s) % (BASE * BASE) == s[0] + s[1] * BASE
  {
    hide Pow2;
    Pow2Values();
    if |s| == 2 {
      ValuePrefix(s, 0);
      ValuePrefix(s, 1);
      assert s[..2] == s;
      EmptyPrefix(s);
    } else {
      var n := |s| - 1;
      LowLimbs(s[..n]);
      Pow2Add(32 * (n - 2), 64);
      Associate(s[n], Pow2(32 * (n - 2)), Pow2(64));
      AddMultiple(Value(s[..n]), s[n] * Pow2(32 * (n - 2)), BASE * BASE);
    }
  }

  lemma AddMultiple(x: nat, q: int, m: nat)
    requires m > 0
    ensures (x + q * m) % m == x % m
  {
    Euclid(x, m);
    Distribute(x / m, q, m);
    Quotient(x + q * m, x / m + q, m, x % m);
  }

  lemma AlignedFits(d: nat, bits: nat, shift: nat, total: nat, top: nat)
    requires d < Pow2(bits) && bits + shift == top <= total
    ensures d * Pow2(shift) % Pow2(total) == d * Pow2(shift)
  {
    hide Pow2;
    Pow2Add(bits, shift);
    Pow2Monotone(top, total);
    MulMonotone(d + 1, Pow2(bits), Pow2(shift));
    Distribute(d, 1, Pow2(shift));
    Quotient(d * Pow2(shift), 0, Pow2(total), d * Pow2(shift));
  }

  lemma Start(n: nat, d: nat, top: nat, bits: nat)
    requires 0 < bits <= top
    requires n < Pow2(top) && Pow2(bits - 1) <= d
    ensures n < d * Pow2(top - bits + 1)
    ensures Splits(n, 0, d, n)
  {
    hide Pow2;
    Pow2Add(bits - 1, top - bits + 1);
    MulMonotone(Pow2(bits - 1), d, Pow2(top - bits + 1));
  }

  /** n == q * d + r. */
  ghost predicate Splits(n: int, q: int, d: int, r: int) { q * d + r == n }

  lemma SplitMore(n: int, q: int, d: int, r: int, u: int)
    requires Splits(n, q, d, r)
    ensures Splits(n, q + u, d, r - d * u)
  {
    Distribute(q, u, d);
  }

  lemma Finish(n: nat, q: nat, d: nat, r: nat)
    requires Splits(n, q, d, r) && r < d * Pow2(0)
    ensures d > 0 && q == n / d
  {
    Pow2Values();
    Quotient(n, q, d, r);
  }

  lemma SetBit(x: Limb, bit: nat)
    requires bit < 32 && x % Pow2(bit + 1) == 0
    ensures Or(x, Pow2(bit)) == x + Pow2(bit) < BASE
    ensures (x + Pow2(bit)) % Pow2(bit) == 0 && x % Pow2(bit) == 0
  {
    hide Or, Pow2;
    Pow2Values();
    Pow2Add(bit, 1);
    Pow2Add(31 - bit, bit + 1);
    Euclid(x, Pow2(bit + 1));
    var m := x / Pow2(bit + 1);
    OrDisjoint(m, Pow2(bit), bit + 1);
    TwiceMultiple(x, m, Pow2(bit));
    TopMultiple(x, m, Pow2(bit + 1), Pow2(31 - bit), BASE);
  }

  lemma TwiceMultiple(x: nat, m: int, u: nat)
    requires u > 0 && x == m * (2 * u)
    ensures (x + u) % u == 0 && x % u == 0
  {
    assert m * (2 * u) == (2 * m) * u;
    Distribute(2 * m, 1, u);
    Quotient(x, 2 * m, u, 0);
    Quotient(x + u, 2 * m + 1, u, 0);
  }

  lemma Halve(d: nat, shift: nat)
    ensures d * Pow2(shift + 1) == 2 * (d * Pow2(shift))
    ensures shift > 0 ==> d * Pow2(shift) / Pow2(1) == d * Pow2(shift - 1)
  {
    assert d * Pow2(shift + 1) == 2 * (d * Pow2(shift));
    if shift > 0 { assert d * Pow2(shift) == 2 * (d * Pow2(shift - 1)); }
  }
}
