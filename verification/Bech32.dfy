/** Bech32 text: a prefix, a separator and five-bit symbols that end in a checksum. */
module Bech32 {

  type Symbols = seq<bv32>

  datatype Decoded = Failure | Text(hrp: string, values: Symbols)

  ghost predicate FiveBit(v: Symbols) {
    forall i :: 0 <= i < |v| ==> v[i] < 32
  }

  // ---- The checksum polynomial ----

  function Xor(a: bv32, b: bv32): bv32 { a ^ b }

  /** One symbol more: c(x) * x + v modulo the generator, on packed coefficients. */
  function Step(c: bv32, v: bv32): bv32 {
    Xor(Xor(Shift(c), v), Feedback(c))
  }

  function Shift(c: bv32): bv32 { (c & 0x1ff_ffff) << 5 }

  function Feedback(c: bv32): bv32 { Xor(Low(c), High(c)) }

  /** A multiple of the generator if that bit of the leading coefficient is set. */
  function Reduce(c: bv32, bit: bv32, k: bv32): bv32 {
    if HasBit(c, bit) then k else 0
  }

  function Low(c: bv32): bv32 {
    Xor(Xor(Reduce(c, 1, 0x3b6a57b2), Reduce(c, 2, 0x26508e6d)), Reduce(c, 4, 0x1ea119fa))
  }

  function High(c: bv32): bv32 {
    Xor(Reduce(c, 8, 0x3d4233dd), Reduce(c, 16, 0x2a1462b3))
  }

  function Run(c: bv32, v: Symbols): bv32
    decreases |v|
  {
    if v == [] then c else Step(Run(c, v[..|v| - 1]), v[|v| - 1])
  }

  /** The step is linear over exclusive or. */
  lemma StepLinear(a: bv32, b: bv32, u: bv32, w: bv32)
    ensures Step(Xor(a, b), Xor(u, w)) == Xor(Step(a, u), Step(b, w))
  {
    hide Shift, Low, High, Xor;
    ShiftLinear(a, b);
    LowLinear(a, b);
    HighLinear(a, b);
    Exchange(Low(a), Low(b), High(a), High(b));
    Exchange(Shift(a), Shift(b), u, w);
    Exchange(Xor(Shift(a), u), Xor(Shift(b), w), Feedback(a), Feedback(b));
  }

  lemma ShiftLinear(a: bv32, b: bv32)
    ensures Shift(Xor(a, b)) == Xor(Shift(a), Shift(b))
  {}

  /** Whether a bit of the leading coefficient is set. */
  predicate HasBit(c: bv32, bit: bv32) { (c >> 25) & bit != 0 }

  predicate OneOfFive(bit: bv32) { bit == 1 || bit == 2 || bit == 4 || bit == 8 || bit == 16 }

  lemma BitLinear(a: bv32, b: bv32, bit: bv32)
    requires OneOfFive(bit)
    ensures HasBit(Xor(a, b), bit) <==> HasBit(a, bit) != HasBit(b, bit)
  {
    if bit == 1 { FirstBit(a, b); } else if bit == 2 { SecondBit(a, b); } else if bit == 4 { ThirdBit(a, b); }
    else if bit == 8 { FourthBit(a, b); } else { FifthBit(a, b); }
  }

  lemma FirstBit(a: bv32, b: bv32)
    ensures HasBit(Xor(a, b), 1) <==> HasBit(a, 1) != HasBit(b, 1)
  {}

  lemma SecondBit(a: bv32, b: bv32)
    ensures HasBit(Xor(a, b), 2) <==> HasBit(a, 2) != HasBit(b, 2)
  {}

  lemma ThirdBit(a: bv32, b: bv32)
    ensures HasBit(Xor(a, b), 4) <==> HasBit(a, 4) != HasBit(b, 4)
  {}

  lemma FourthBit(a: bv32, b: bv32)
    ensures HasBit(Xor(a, b), 8) <==> HasBit(a, 8) != HasBit(b, 8)
  {}

  lemma FifthBit(a: bv32, b: bv32)
    ensures HasBit(Xor(a, b), 16) <==> HasBit(a, 16) != HasBit(b, 16)
  {}

  lemma ReduceLinear(a: bv32, b: bv32, bit: bv32, k: bv32)
    requires OneOfFive(bit)
    ensures Reduce(Xor(a, b), bit, k) == Xor(Reduce(a, bit, k), Reduce(b, bit, k))
  {
    hide Xor, HasBit;
    BitLinear(a, b, bit);
    XorSelf(k, k);
    XorSelf(0, 0);
  }

  lemma LowLinear(a: bv32, b: bv32)
    ensures Low(Xor(a, b)) == Xor(Low(a), Low(b))
  {
    hide Xor, Reduce;
    ReduceLinear(a, b, 1, 0x3b6a57b2);
    ReduceLinear(a, b, 2, 0x26508e6d);
    ReduceLinear(a, b, 4, 0x1ea119fa);
    var a1, a2, a4 := Reduce(a, 1, 0x3b6a57b2), Reduce(a, 2, 0x26508e6d), Reduce(a, 4, 0x1ea119fa);
    var b1, b2, b4 := Reduce(b, 1, 0x3b6a57b2), Reduce(b, 2, 0x26508e6d), Reduce(b, 4, 0x1ea119fa);
    Exchange(a1, b1, a2, b2);
    Exchange(Xor(a1, a2), Xor(b1, b2), a4, b4);
  }

  lemma HighLinear(a: bv32, b: bv32)
    ensures High(Xor(a, b)) == Xor(High(a), High(b))
  {
    hide Xor, Reduce;
    ReduceLinear(a, b, 8, 0x3d4233dd);
    ReduceLinear(a, b, 16, 0x2a1462b3);
    Exchange(Reduce(a, 8, 0x3d4233dd), Reduce(b, 8, 0x3d4233dd), Reduce(a, 16, 0x2a1462b3), Reduce(b, 16, 0x2a1462b3));
  }

  lemma Exchange(a: bv32, b: bv32, c: bv32, d: bv32)
    ensures Xor(Xor(a, b), Xor(c, d)) == Xor(Xor(a, c), Xor(b, d))
  {
    hide Xor;
    calc {
      Xor(Xor(a, b), Xor(c, d));
      { XorAssociates(a, b, Xor(c, d)); }
      Xor(a, Xor(b, Xor(c, d)));
      { XorAssociates(b, c, d); XorCommutes(b, c); XorAssociates(c, b, d); }
      Xor(a, Xor(c, Xor(b, d)));
      { XorAssociates(a, c, Xor(b, d)); }
      Xor(Xor(a, c), Xor(b, d));
    }
  }

  lemma XorCommutes(a: bv32, b: bv32)
    ensures Xor(a, b) == Xor(b, a)
  {}

  lemma XorAssociates(a: bv32, b: bv32, c: bv32)
    ensures Xor(Xor(a, b), c) == Xor(a, Xor(b, c))
  {}

  lemma XorSelf(a: bv32, b: bv32)
    ensures Xor(a, a) == 0 && Xor(a, 0) == a && Xor(0, a) == a
    ensures Xor(a, b) == 0 ==> a == b
  {}

  /** On 30-bit states a step loses nothing. */
  lemma StepInjective(a: bv32)
    requires a < 0x4000_0000 && Step(a, 0) == 0
    ensures a == 0
  {}

  lemma StepRange(a: bv32, v: bv32)
    requires v < 0x4000_0000
    ensures Step(a, v) < 0x4000_0000
  {}

  /** A state below 2^25 just moves up by one symbol. */
  lemma SmallStep(s: bv32, x: bv32)
    requires s < 0x200_0000
    ensures Step(s, x) == Xor(Shift(s), x)
  {
    NoFeedback(s);
    hide Shift, Feedback, Xor;
    XorSelf(Xor(Shift(s), x), 0);
  }

  lemma NoFeedback(s: bv32)
    requires s < 0x200_0000
    ensures Feedback(s) == 0
  {}

  lemma SmallStepZero(s: bv32, x: bv32)
    requires s < 0x200_0000 && x < 32 && Step(s, x) == 0
    ensures s == 0 && x == 0
  {
    hide Step;
    SmallStep(s, x);
  }

  // ---- Whole lists ----

  function Zeros(n: nat): Symbols { seq(n, _ => 0 as bv32) }

  function XorAll(a: Symbols, b: Symbols): (r: Symbols)
    requires |a| == |b|
    ensures |r| == |a|
  {
    seq(|a|, i requires 0 <= i < |a| => Xor(a[i], b[i]))
  }

  lemma {:induction false} RunAppend(c: bv32, a: Symbols, b: Symbols)
    ensures Run(c, a + b) == Run(Run(c, a), b)
    decreases |b|
  {
    hide Step;
    if b == [] {
      assert a + b == a;
    } else {
      var n := |b| - 1;
      RunAppend(c, a, b[..n]);
      assert (a + b)[..|a| + n] == a + b[..n];
    }
  }

  lemma {:induction false} RunLinear(c: bv32, d: bv32, a: Symbols, b: Symbols)
    requires |a| == |b|
    ensures Run(Xor(c, d), XorAll(a, b)) == Xor(Run(c, a), Run(d, b))
    decreases |a|
  {
    hide Step, Xor;
    if a != [] {
      var n := |a| - 1;
      RunLinear(c, d, a[..n], b[..n]);
      assert XorAll(a, b)[..n] == XorAll(a[..n], b[..n]);
      StepLinear(Run(c, a[..n]), Run(d, b[..n]), a[n], b[n]);
    }
  }

  lemma {:induction false} RunZeros(c: bv32, n: nat)
    requires 0 != c < 0x4000_0000
    ensures 0 != Run(c, Zeros(n)) < 0x4000_0000
  {
    hide Step;
    if n > 0 {
      RunZeros(c, n - 1);
      assert Zeros(n)[..n - 1] == Zeros(n - 1);
      var s := Run(c, Zeros(n - 1));
      StepRange(s, 0);
      if Step(s, 0) == 0 { StepInjective(s); }
    }
  }

  /** 2^(5k). */
  function Room(k: nat): bv32
    requires k <= 6
  {
    if k == 0 then 1 else if k == 1 then 0x20 else if k == 2 then 0x400 else if k == 3 then 0x8000
    else if k == 4 then 0x10_0000 else if k == 5 then 0x200_0000 else 0x4000_0000
  }

  lemma RoomGrows(k: nat, s: bv32, x: bv32)
    requires k < 6 && s < Room(k) && x < 32
    ensures s < 0x200_0000 && Step(s, x) < Room(k + 1)
  {
    hide Step;
    SmallStep(s, x);
    ShiftedRoom(k, s, x);
  }

  lemma ShiftedRoom(k: nat, s: bv32, x: bv32)
    requires k < 6 && s < Room(k) && x < 32
    ensures s < 0x200_0000 && Xor(Shift(s), x) < Room(k + 1)
  {}

  /** Up to six symbols are packed without loss: only zeros give zero. */
  lemma {:induction false} PackInjective(v: Symbols)
    requires FiveBit(v) && |v| <= 6
    ensures Run(0, v) < Room(|v|)
    ensures Run(0, v) == 0 ==> v == Zeros(|v|)
  {
    hide Step, Room;
    if v == [] {
      RoomZero();
    } else {
      var n := |v| - 1;
      PackInjective(v[..n]);
      RoomGrows(n, Run(0, v[..n]), v[n]);
      if Run(0, v) == 0 {
        SmallStepZero(Run(0, v[..n]), v[n]);
        assert v == v[..n] + [v[n]];
      }
    }
  }

  lemma RoomZero()
    ensures 0 < Room(0)
  {}

  lemma XorFiveBit(a: Symbols, b: Symbols)
    requires |a| == |b| && FiveBit(a) && FiveBit(b)
    ensures FiveBit(XorAll(a, b))
    ensures XorAll(a, b) == Zeros(|a|) ==> a == b
  {
    hide Xor;
    forall i | 0 <= i < |a| ensures XorAll(a, b)[i] < 32 && (Xor(a[i], b[i]) == 0 ==> a[i] == b[i]) {
      XorSmall(a[i], b[i]);
    }
    if XorAll(a, b) == Zeros(|a|) {
      forall i | 0 <= i < |a| ensures a[i] == b[i] {
        assert XorAll(a, b)[i] == Zeros(|a|)[i];
      }
    }
  }

  lemma XorSmall(a: bv32, b: bv32)
    requires a < 32 && b < 32
    ensures Xor(a, b) < 32 && (Xor(a, b) == 0 ==> a == b)
  {}

  // ---- Errors are detected ----

  function HighBits(c: char): bv32 { (c as int % 256 / 32) as bv32 }

  function LowBits(c: char): bv32 { (c as int % 32) as bv32 }

  function ExpandHRP(hrp: string): Symbols {
    seq(|hrp|, i requires 0 <= i < |hrp| => HighBits(hrp[i])) + [0]
    + seq(|hrp|, i requires 0 <= i < |hrp| => LowBits(hrp[i]))
  }

  ghost predicate ChecksumOk(hrp: string, values: Symbols) {
    Run(1, ExpandHRP(hrp) + values) == 1
  }

  /** Equal but for six neighbouring symbols. */
  ghost predicate DifferWithin(a: Symbols, b: Symbols, i: nat) {
    |a| == |b| && i <= |a| &&
    a[..i] == b[..i] &&
    (i + 6 <= |a| ==> a[i + 6..] == b[i + 6..])
  }

  /**
   * Two different words under one prefix, of any length, that differ only within six
   * neighbouring symbols do not both have a valid checksum.
   */
  lemma BurstDetected(hrp: string, a: Symbols, b: Symbols, i: nat)
    requires FiveBit(a) && FiveBit(b) && DifferWithin(a, b, i) && a != b
    ensures !(ChecksumOk(hrp, a) && ChecksumOk(hrp, b))
  {
    hide Run, Xor, ExpandHRP;
    var j := if i + 6 <= |a| then i + 6 else |a|;
    var x, y, t := a[i..j], b[i..j], a[j..];
    var p := ExpandHRP(hrp) + a[..i];
    Parts(ExpandHRP(hrp), a, i, j);
    Parts(ExpandHRP(hrp), b, i, j);
    assert b[j..] == t;
    TailDetected(Run(1, p), x, y, t);
    RunAppend(1, p, x + t);
    RunAppend(1, p, y + t);
  }

  lemma Parts(e: Symbols, a: Symbols, i: nat, j: nat)
    requires i <= j <= |a|
    ensures a == a[..i] + a[i..j] + a[j..]
    ensures e + a == (e + a[..i]) + (a[i..j] + a[j..])
  {
    Regroup(e, a[..i], a[i..j], a[j..]);
  }

  lemma Regroup(e: Symbols, x: Symbols, y: Symbols, z: Symbols)
    ensures e + (x + y + z) == (e + x) + (y + z)
  {}

  lemma TailDetected(c: bv32, x: Symbols, y: Symbols, t: Symbols)
    requires FiveBit(x) && FiveBit(y) && |x| == |y| <= 6 && x != y
    ensures Run(c, x + t) != Run(c, y + t)
  {
    hide Run, Xor, Room;
    var d := XorAll(x, y);
    var n := |t|;
    XorFiveBit(x, y);
    PackInjective(d);
    RoomTop(|x|);
    RunZeros(Run(0, d), n);
    RunAppend(0, d, Zeros(n));
    SelfDifference(x, y, t);
    RunLinear(c, c, x + t, y + t);
    XorSelf(c, c);
    XorSelf(Run(c, x + t), Run(c, y + t));
  }

  lemma RoomTop(k: nat)
    requires k <= 6
    ensures Room(k) <= 0x4000_0000
  {}

  lemma SelfDifference(x: Symbols, y: Symbols, t: Symbols)
    requires |x| == |y|
    ensures XorAll(x + t, y + t) == XorAll(x, y) + Zeros(|t|)
  {
    hide Xor;
    forall i | 0 <= i < |t| ensures Xor(t[i], t[i]) == 0 {
      XorSelf(t[i], t[i]);
    }
  }

  /** In particular a single wrong symbol is detected at any distance. */
  lemma SingleErrorDetected(hrp: string, a: Symbols, k: nat, v: bv32)
    requires FiveBit(a) && k < |a| && v < 32 && v != a[k]
    ensures !(ChecksumOk(hrp, a) && ChecksumOk(hrp, a[k := v]))
  {
    hide ChecksumOk;
    assert a[k := v][..k] == a[..k];
    BurstDetected(hrp, a, a[k := v], k);
  }

  /** And so are two neighbours in the wrong order. */
  lemma SwapDetected(hrp: string, a: Symbols, k: nat)
    requires FiveBit(a) && k + 1 < |a| && a[k] != a[k + 1]
    ensures !(ChecksumOk(hrp, a) && ChecksumOk(hrp, a[k := a[k + 1]][k + 1 := a[k]]))
  {
    hide ChecksumOk;
    var b := a[k := a[k + 1]][k + 1 := a[k]];
    assert b[..k] == a[..k] && b[k] != a[k];
    BurstDetected(hrp, a, b, k);
  }

  // ---- The prefix counts ----

  function HighSymbols(hrp: string): (v: Symbols)
    ensures |v| == |hrp| && forall i :: 0 <= i < |hrp| ==> v[i] == HighBits(hrp[i])
  {
    seq(|hrp|, i requires 0 <= i < |hrp| => HighBits(hrp[i]))
  }

  function LowSymbols(hrp: string): (v: Symbols)
    ensures |v| == |hrp| && forall i :: 0 <= i < |hrp| ==> v[i] == LowBits(hrp[i])
  {
    seq(|hrp|, i requires 0 <= i < |hrp| => LowBits(hrp[i]))
  }

  lemma LowFiveBit(hrp: string)
    ensures FiveBit(LowSymbols(hrp))
  {}

  /**
   * Two prefixes whose characters have the same upper bits, such as lower-case letters, and which differ only
   * within six neighbouring characters do not both make one word valid.
   */
  lemma PrefixDetected(hrp: string, other: string, values: Symbols, i: nat)
    requires HighSymbols(hrp) == HighSymbols(other) && LowSymbols(hrp) != LowSymbols(other)
    requires DifferWithin(LowSymbols(hrp), LowSymbols(other), i)
    ensures !(ChecksumOk(hrp, values) && ChecksumOk(other, values))
  {
    hide Run, HighBits, LowBits;
    var a, b := LowSymbols(hrp), LowSymbols(other);
    var j := if i + 6 <= |a| then i + 6 else |a|;
    var p, t := HighSymbols(hrp) + [0] + a[..i], a[j..] + values;
    LowFiveBit(hrp);
    LowFiveBit(other);
    PrefixParts(hrp, values, i, j);
    PrefixParts(other, values, i, j);
    assert b[j..] == a[j..];
    assert a[i..j] != b[i..j] by { Parts([], a, i, j); Parts([], b, i, j); }
    TailDetected(Run(1, p), a[i..j], b[i..j], t);
    RunAppend(1, p, a[i..j] + t);
    RunAppend(1, p, b[i..j] + t);
  }

  lemma PrefixParts(hrp: string, values: Symbols, i: nat, j: nat)
    requires i <= j <= |hrp|
    ensures var a := LowSymbols(hrp);
            ExpandHRP(hrp) + values == (HighSymbols(hrp) + [0] + a[..i]) + (a[i..j] + (a[j..] + values))
  {
    hide HighBits, LowBits, ExpandHRP;
    var a := LowSymbols(hrp);
    PrefixExpands(hrp);
    Parts([], a, i, j);
    Regroup(HighSymbols(hrp) + [0], a[..i], a[i..j], a[j..]);
    Associate(HighSymbols(hrp) + [0] + a[..i], a[i..j], a[j..], values);
  }

  lemma PrefixExpands(hrp: string)
    ensures ExpandHRP(hrp) == HighSymbols(hrp) + [0] + LowSymbols(hrp)
  {
    hide HighBits, LowBits;
  }

  lemma Associate(e: Symbols, x: Symbols, y: Symbols, z: Symbols)
    ensures (e + (x + y)) + z == e + (x + (y + z))
  {}
}
