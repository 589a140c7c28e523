/** Encoding, checking and decoding of bech32 text. */
module Bech32Codec {
  import opened Bech32
  import opened Bech32Table

  // ---- The checksum ----

  function Down(a: bv32): bv32 { a >> 5 }

  function LowFive(a: bv32): bv32 { a & 31 }

  /** The k highest five-bit groups of a 30-bit number, still packed. */
  function Above(mod: bv32, k: nat): bv32
    requires k <= 6
    decreases 6 - k
  {
    if k == 6 then mod else Down(Above(mod, k + 1))
  }

  /** Five-bit group i of a packed 30-bit number, the highest first. */
  function Group(mod: bv32, i: nat): bv32
    requires i < 6
  {
    LowFive(Above(mod, i + 1))
  }

  lemma GroupJoins(mod: bv32, k: nat)
    requires mod < 0x4000_0000 && k < 6
    ensures Above(mod, k) < 0x200_0000 && Group(mod, k) < 32
    ensures Xor(Shift(Above(mod, k)), Group(mod, k)) == Above(mod, k + 1)
  {
    hide Xor, Shift;
    AboveRange(mod, k + 1);
    JoinRaw(Above(mod, k + 1));
  }

  lemma {:induction false} AboveRange(mod: bv32, k: nat)
    requires mod < 0x4000_0000 && k <= 6
    ensures Above(mod, k) < 0x4000_0000
    decreases 6 - k
  {
    if k < 6 {
      AboveRange(mod, k + 1);
      JoinRaw(Above(mod, k + 1));
    }
  }

  lemma JoinRaw(a: bv32)
    requires a < 0x4000_0000
    ensures Down(a) < 0x200_0000 && LowFive(a) < 32
    ensures Xor(Shift(Down(a)), LowFive(a)) == a
  {}

  /** Above as the shifts of the source: 5 * (6 - k) bits. */
  lemma AboveIs(mod: bv32)
    requires mod < 0x4000_0000
    ensures Above(mod, 0) == 0 && Above(mod, 1) == mod >> 25 && Above(mod, 2) == mod >> 20
    ensures Above(mod, 3) == mod >> 15 && Above(mod, 4) == mod >> 10 && Above(mod, 5) == mod >> 5
  {
    hide Above, Down;
    LowShifts(mod);
    HighShifts(mod);
    AboveStep(mod, 5);
    AboveStep(mod, 4);
    AboveStep(mod, 3);
    AboveStep(mod, 2);
    AboveStep(mod, 1);
    AboveStep(mod, 0);
  }

  lemma AboveStep(mod: bv32, k: nat)
    requires k < 6
    ensures Above(mod, 6) == mod && Above(mod, k) == Down(Above(mod, k + 1))
  {}

  lemma HighShifts(m: bv32)
    requires m < 0x4000_0000
    ensures Down(m >> 25) == 0 && Down(m >> 20) == m >> 25 && Down(m >> 15) == m >> 20
  {}

  lemma LowShifts(m: bv32)
    ensures Down(m >> 10) == m >> 15 && Down(m >> 5) == m >> 10 && Down(m) == m >> 5
  {}

  function Groups(mod: bv32, k: nat): (s: Symbols)
    requires k <= 6
    ensures |s| == k
  {
    seq(k, i requires 0 <= i < k => Group(mod, i))
  }

  /** Packing the groups of a 30-bit number gives it back. */
  lemma {:induction false} GroupsPack(mod: bv32, k: nat)
    requires mod < 0x4000_0000 && k <= 6
    ensures FiveBit(Groups(mod, k)) && Run(0, Groups(mod, k)) == Above(mod, k)
  {
    hide Step, Xor, Shift, Above, Group;
    if k == 0 {
      AboveIs(mod);
    } else {
      GroupsPack(mod, k - 1);
      GroupJoins(mod, k - 1);
      assert Groups(mod, k)[..k - 1] == Groups(mod, k - 1);
      SmallStep(Above(mod, k - 1), Group(mod, k - 1));
    }
  }

  ghost function Checksum(hrp: string, values: Symbols): Symbols {
    Groups(Xor(Run(1, ExpandHRP(hrp) + values + Zeros(6)), 1), 6)
  }

  lemma RunEndsIn30Bits(c: bv32, v: Symbols)
    requires v != [] && v[|v| - 1] == 0
    ensures Run(c, v) < 0x4000_0000
  {
    hide Step;
    StepRange(Run(c, v[..|v| - 1]), 0);
  }

  lemma XorOne(a: bv32)
    requires a < 0x4000_0000
    ensures Xor(a, 1) < 0x4000_0000
  {}

  lemma Solve(a: bv32, b: bv32)
    ensures Xor(a, b) == 1 <==> b == Xor(a, 1)
  {
    hide Xor;
    XorAssociates(a, a, b);
    XorAssociates(a, a, 1);
    XorSelf(a, a);
    XorSelf(b, b);
    XorSelf(1, 1);
  }

  /** Six symbols after the values make the checksum valid exactly when they are the checksum. */
  lemma ChecksumExactly(hrp: string, values: Symbols, s: Symbols)
    requires |s| == 6 && FiveBit(s)
    ensures ChecksumOk(hrp, values + s) <==> s == Checksum(hrp, values)
    ensures |Checksum(hrp, values)| == 6 && FiveBit(Checksum(hrp, values))
  {
    hide Run, Xor, ExpandHRP, Groups;
    var x := ExpandHRP(hrp) + values;
    var c := Run(1, x);
    var top := Run(1, x + Zeros(6));
    var mod := Xor(top, 1);
    RunEndsIn30Bits(1, x + Zeros(6));
    XorOne(top);
    GroupsPack(mod, 6);
    assert ExpandHRP(hrp) + (values + s) == x + s;
    RunAppend(1, x, s);
    RunAppend(1, x, Zeros(6));
    RunLinear(c, 0, Zeros(6), s);
    XorSelf(c, 0);
    ZeroLeft(s);
    Solve(top, Run(0, s));
    var g := Groups(mod, 6);
    if Run(0, s) == Run(0, g) { PackDifferent(s, g); }
  }

  lemma ZeroLeft(s: Symbols)
    ensures XorAll(Zeros(|s|), s) == s
  {
    hide Xor;
    forall i | 0 <= i < |s| ensures Xor(0, s[i]) == s[i] { XorSelf(s[i], 0); }
  }

  lemma PackDifferent(s: Symbols, g: Symbols)
    requires |s| == |g| == 6 && FiveBit(s) && FiveBit(g) && Run(0, s) == Run(0, g)
    ensures s == g
  {
    hide Run, Xor;
    RunLinear(0, 0, s, g);
    XorSelf(0, 0);
    XorSelf(Run(0, s), 0);
    XorFiveBit(s, g);
    PackInjective(XorAll(s, g));
  }

  method PolyMod(v: Symbols) returns (c: bv32)
    ensures c == Run(1, v)
  {
    hide Run, Step, Xor, Shift, Reduce;
    c := 1;
    RunNone(1, v);
    for i := 0 to |v|
      invariant c == Run(1, v[..i])
    {
      var was := c;
      c := Xor(Shift(was), v[i]);
      c := Xor(c, Reduce(was, 1, 0x3b6a57b2));
      c := Xor(c, Reduce(was, 2, 0x26508e6d));
      c := Xor(c, Reduce(was, 4, 0x1ea119fa));
      c := Xor(c, Reduce(was, 8, 0x3d4233dd));
      c := Xor(c, Reduce(was, 16, 0x2a1462b3));
      StepByBits(was, v[i]);
      RunMore(1, v, i);
    }
    assert v[..|v|] == v;
  }

  lemma RunNone(c: bv32, v: Symbols)
    ensures Run(c, v[..0]) == c
  {}

  lemma RunMore(c: bv32, v: Symbols, i: nat)
    requires i < |v|
    ensures Run(c, v[..i + 1]) == Step(Run(c, v[..i]), v[i])
  {
    hide Step;
    assert v[..i + 1][..i] == v[..i];
  }

  /** The five conditional reductions, one after the other, are the step. */
  lemma StepByBits(c: bv32, v: bv32)
    ensures Step(c, v) ==
      Xor(Xor(Xor(Xor(Xor(Xor(Shift(c), v),
        Reduce(c, 1, 0x3b6a57b2)), Reduce(c, 2, 0x26508e6d)), Reduce(c, 4, 0x1ea119fa)),
        Reduce(c, 8, 0x3d4233dd)), Reduce(c, 16, 0x2a1462b3))
  {
    hide Xor, Shift, Reduce;
    var s := Xor(Shift(c), v);
    var r1, r2, r3 := Reduce(c, 1, 0x3b6a57b2), Reduce(c, 2, 0x26508e6d), Reduce(c, 4, 0x1ea119fa);
    var r4, r5 := Reduce(c, 8, 0x3d4233dd), Reduce(c, 16, 0x2a1462b3);
    XorAssociates(s, r1, r2);
    XorAssociates(s, Xor(r1, r2), r3);
    XorAssociates(s, Low(c), High(c));
    XorAssociates(Xor(s, Low(c)), r4, r5);
  }

  // ---- Text ----

  function Spell(v: Symbols): (s: string)
    ensures |s| == |v|
  {
    seq(|v|, i requires 0 <= i < |v| => CharOf(v[i]))
  }

  function SymbolsOf(s: string): (v: Symbols)
    ensures |v| == |s|
  {
    seq(|s|, i requires 0 <= i < |s| => SymbolOf(s[i]))
  }

  function Lowered(s: string): (r: string)
    ensures |r| == |s|
  {
    seq(|s|, i requires 0 <= i < |s| => LowerCase(s[i]))
  }

  ghost function Encoding(hrp: string, values: Symbols): string {
    hrp + "1" + Spell(values + Checksum(hrp, values))
  }

  predicate Printable(c: char) { 33 <= c as int <= 126 }
  predicate Lower(c: char) { 'a' <= c <= 'z' }
  predicate Upper(c: char) { 'A' <= c <= 'Z' }

  /** The position of the last '1', or -1. */
  function LastOne(s: string): (p: int)
    ensures -1 <= p < |s|
    ensures p >= 0 ==> s[p] == '1'
    ensures forall i :: p < i < |s| ==> s[i] != '1'
  {
    if s == [] then -1 else if s[|s| - 1] == '1' then |s| - 1 else LastOne(s[..|s| - 1])
  }

  ghost predicate OneCase(s: string) {
    (forall i :: 0 <= i < |s| ==> Printable(s[i])) &&
    !((exists i :: 0 <= i < |s| && Lower(s[i])) && (exists i :: 0 <= i < |s| && Upper(s[i])))
  }

  predicate Shaped(s: string) {
    |s| <= 90 && LastOne(s) > 0 && LastOne(s) + 7 <= |s|
  }

  ghost function Decoding(s: string): Decoded {
    if !OneCase(s) || !Shaped(s) then Failure else
    var pos := LastOne(s);
    var values, hrp := SymbolsOf(s[pos + 1..]), Lowered(s[..pos]);
    if NONE in values || !ChecksumOk(hrp, values) then Failure
    else Text(hrp, values[..|values| - 6])
  }

  /** A prefix of printable characters without capitals, and no more than 90 characters in all. */
  ghost predicate Admissible(hrp: string, values: Symbols) {
    0 < |hrp| && |hrp| + 1 + |values| + 6 <= 90 &&
    forall i :: 0 <= i < |hrp| ==> Printable(hrp[i]) && !Upper(hrp[i])
  }

  lemma {:induction false} LastOneIs(s: string, p: nat)
    requires p < |s| && s[p] == '1' && forall i :: p < i < |s| ==> s[i] != '1'
    ensures LastOne(s) == p
  {
    if p < |s| - 1 { LastOneIs(s[..|s| - 1], p); }
  }

  lemma SpellInverse(v: Symbols)
    requires FiveBit(v)
    ensures SymbolsOf(Spell(v)) == v && NONE !in v
    ensures forall i :: 0 <= i < |v| ==> Plain(Spell(v)[i]) && !Upper(Spell(v)[i])
  {
    hide CharOf, SymbolOf;
    forall i | 0 <= i < |v| ensures SymbolOf(CharOf(v[i])) == v[i] && Plain(CharOf(v[i])) {
      TableInverse(v[i]);
    }
  }

  /** The parts in which a reader finds an encoding. */
  lemma EncodingParts(hrp: string, values: Symbols)
    requires FiveBit(values)
    ensures var s, all := Encoding(hrp, values), values + Checksum(hrp, values);
            |s| == |hrp| + 1 + |values| + 6 && LastOne(s) == |hrp| && s[..|hrp|] == hrp &&
            SymbolsOf(s[|hrp| + 1..]) == all && NONE !in all && ChecksumOk(hrp, all) && all[..|all| - 6] == values
    ensures forall i :: |hrp| <= i < |Encoding(hrp, values)| ==>
            Printable(Encoding(hrp, values)[i]) && !Upper(Encoding(hrp, values)[i])
  {
    hide CharOf, SymbolOf, Checksum, ChecksumOk;
    var sum := Checksum(hrp, values);
    ChecksumExactly(hrp, values, Zeros(6));
    ChecksumExactly(hrp, values, sum);
    var all := values + sum;
    SpellInverse(all);
    var s := Encoding(hrp, values);
    forall i | |hrp| < i < |s| ensures s[i] == Spell(all)[i - |hrp| - 1] && s[i] != '1' {
      assert Plain(Spell(all)[i - |hrp| - 1]);
    }
    LastOneIs(s, |hrp|);
    assert s[|hrp| + 1..] == Spell(all);
  }

  /** Decoding gives prefix and data back exactly for the admissible inputs. */
  lemma RoundTrip(hrp: string, values: Symbols)
    requires FiveBit(values)
    ensures Decoding(Encoding(hrp, values)) == Text(hrp, values) <==> Admissible(hrp, values)
  {
    hide Encoding, SymbolsOf, ChecksumOk, Checksum;
    EncodingParts(hrp, values);
    var s := Encoding(hrp, values);
    assert forall i :: 0 <= i < |hrp| ==> s[i] == hrp[i];
    if Admissible(hrp, values) {
      assert forall i :: 0 <= i < |s| ==> Printable(s[i]) && !Upper(s[i]);
      assert Lowered(hrp) == hrp;
    }
    if Decoding(s) == Text(hrp, values) {
      assert Lowered(hrp) == hrp;
      forall i | 0 <= i < |hrp| ensures Printable(hrp[i]) && !Upper(hrp[i]) {
        assert Printable(s[i]);
        assert Lowered(hrp)[i] == LowerCase(hrp[i]);
      }
    }
  }

  /** Whatever decodes is, but for its case, the encoding of what it decodes to. */
  lemma DecodedIsEncoded(s: string)
    requires Decoding(s).Text?
    ensures Encoding(Decoding(s).hrp, Decoding(s).values) == Lowered(s)
  {
    hide CharOf, SymbolOf, Checksum, ChecksumOk, LowerCase;
    var pos := LastOne(s);
    var tail := s[pos + 1..];
    var all, hrp := SymbolsOf(tail), Lowered(s[..pos]);
    var n := |all| - 6;
    var values, sum := all[..n], all[n..];
    forall i | 0 <= i < |all| ensures all[i] < 32 && CharOf(all[i]) == LowerCase(tail[i]) {
      assert all[i] in all;
      TableOnto(tail[i]);
    }
    assert all == values + sum;
    ChecksumExactly(hrp, values, sum);
    OneIsLower();
    assert Spell(all) == Lowered(tail);
    assert Lowered(s) == hrp + "1" + Lowered(tail);
  }

  lemma OneIsLower()
    ensures LowerCase('1') == '1'
  {}

  // ---- A known text ----

  lemma KnownSteps()
    ensures Step(Step(Step(1, 3), 0), 1) == 0x8c01
    ensures Step(Step(Step(0x8c01, 10), 28), 25) == 0x3d6a_fc2b
    ensures Step(Step(Step(0x3d6a_fc2b, 31), 20), 31) == 1
  {}

  lemma RunThree(c: bv32, v: Symbols, x: bv32, y: bv32, z: bv32)
    ensures Run(c, v + [x, y, z]) == Step(Step(Step(Run(c, v), x), y), z)
  {
    hide Step;
    assert v + [x, y, z] == v + [x] + [y] + [z];
    RunAppend(c, v, [x]);
    RunAppend(c, v + [x], [y]);
    RunAppend(c, v + [x] + [y], [z]);
    RunOne(Run(c, v), x);
    RunOne(Run(c, v + [x]), y);
    RunOne(Run(c, v + [x] + [y]), z);
  }

  lemma RunOne(c: bv32, x: bv32)
    ensures Run(c, [x]) == Step(c, x)
  {
    hide Step;
    assert [x][..0] == [];
  }

  lemma KnownPrefix()
    ensures ExpandHRP("a") == [3, 0, 1]
  {}

  lemma KnownSpelling()
    ensures Spell([10, 28, 25, 31, 20, 31]) == "2uel5l"
  {}

  /** The encoding of no symbols under the prefix a. */
  lemma KnownText()
    ensures Encoding("a", []) == "a12uel5l"
  {
    hide Step, Run, Spell, ExpandHRP, Checksum;
    var sum: Symbols := [10, 28, 25, 31, 20, 31];
    KnownPrefix();
    KnownSteps();
    RunThree(1, [], 3, 0, 1);
    RunNone(1, [0]);
    RunThree(1, [3, 0, 1], 10, 28, 25);
    RunThree(1, [3, 0, 1, 10, 28, 25], 31, 20, 31);
    assert [0 as bv32][..0] == [] && [] + [3 as bv32, 0, 1] == [3, 0, 1];
    assert [3 as bv32, 0, 1] + [10, 28, 25] == [3, 0, 1, 10, 28, 25];
    assert [3, 0, 1] + ([] + sum) == [3, 0, 1, 10, 28, 25] + [31, 20, 31];
    assert ChecksumOk("a", [] + sum);
    ChecksumExactly("a", [], sum);
    KnownSpelling();
    assert [] + sum == sum;
  }

  // ---- The routines ----

  method ExpandPrefix(hrp: string) returns (r: Symbols)
    ensures r == ExpandHRP(hrp)
  {
    hide HighBits, LowBits;
    var n := |hrp|;
    var ret := new bv32[n * 2 + 1](_ => 0);
    for i := 0 to n
      invariant forall j :: 0 <= j < i ==> ret[j] == HighBits(hrp[j])
      invariant forall j :: n + 1 <= j < n + 1 + i ==> ret[j] == LowBits(hrp[j - n - 1])
      invariant ret[n] == 0
    {
      ret[i] := HighBits(hrp[i]);
      ret[i + n + 1] := LowBits(hrp[i]);
    }
    ret[n] := 0;
    r := ret[..];
  }

  method VerifyChecksum(hrp: string, values: Symbols) returns (ok: bool)
    ensures ok <==> ChecksumOk(hrp, values)
  {
    hide Run, ExpandHRP;
    var prefix := ExpandPrefix(hrp);
    var mod := PolyMod(prefix + values);
    ok := mod == 1;
  }

  /** (mod >> (5 * (5 - i))) & 31. */
  function Slice(mod: bv32, i: nat): bv32
    requires i < 6
  {
    LowFive(if i == 0 then mod >> 25 else if i == 1 then mod >> 20 else if i == 2 then mod >> 15
            else if i == 3 then mod >> 10 else if i == 4 then mod >> 5 else mod)
  }

  lemma SliceIs(mod: bv32, i: nat)
    requires mod < 0x4000_0000 && i < 6
    ensures Slice(mod, i) == Group(mod, i)
  {
    hide Above, LowFive;
    AboveIs(mod);
    AboveStep(mod, 5);
  }

  method CreateChecksum(hrp: string, values: Symbols) returns (ret: Symbols)
    ensures ret == Checksum(hrp, values)
  {
    hide Run, ExpandHRP, Xor, Slice, Group;
    var prefix := ExpandPrefix(hrp);
    var enc := prefix + values + Zeros(6);
    var top := PolyMod(enc);
    var mod := Xor(top, 1);
    RunEndsIn30Bits(1, enc);
    XorOne(top);
    ret := [];
    for i := 0 to 6
      invariant ret == Groups(mod, i)
    {
      SliceIs(mod, i);
      ret := ret + [Slice(mod, i)];
    }
  }

  method Encode(hrp: string, values: Symbols) returns (s: string)
    requires FiveBit(values)
    ensures s == Encoding(hrp, values)
  {
    hide Checksum, CharOf;
    var checksum := CreateChecksum(hrp, values);
    var combined := values + checksum;
    s := hrp + "1";
    for i := 0 to |combined|
      invariant s == hrp + "1" + Spell(combined[..i])
    {
      s := s + [CharOf(combined[i])];
      assert Spell(combined[..i + 1]) == Spell(combined[..i]) + [CharOf(combined[i])];
    }
    assert combined[..|combined|] == combined;
  }

  /** Whether every character is printable and no two letters differ in case. */
  method CheckCharacters(s: string) returns (ok: bool)
    ensures ok <==> OneCase(s)
  {
    var lower, upper := false, false;
    for i := 0 to |s|
      invariant forall j :: 0 <= j < i ==> Printable(s[j])
      invariant lower <==> exists j :: 0 <= j < i && Lower(s[j])
      invariant upper <==> exists j :: 0 <= j < i && Upper(s[j])
    {
      var c := s[i];
      if c as int < 33 || c as int > 126 { return false; }
      if 'a' <= c <= 'z' { lower := true; }
      if 'A' <= c <= 'Z' { upper := true; }
      assert Lower(s[i]) <==> 'a' <= c <= 'z';
    }
    ok := !(lower && upper);
  }

  method ReverseFind(s: string) returns (p: int)
    ensures p == LastOne(s)
  {
    p := |s| - 1;
    while p >= 0 && s[p] != '1'
      invariant -1 <= p < |s|
      invariant forall i :: p < i < |s| ==> s[i] != '1'
    {
      p := p - 1;
    }
    if p >= 0 { LastOneIs(s, p); }
  }

  method Decode(s: string) returns (r: Decoded)
    ensures r == Decoding(s)
  {
    hide OneCase, ChecksumOk, SymbolOf, LowerCase;
    var ok := CheckCharacters(s);
    if !ok { return Failure; }
    var pos := ReverseFind(s);
    if |s| > 90 || pos == -1 || pos == 0 || pos + 7 > |s| { return Failure; }
    ghost var all := SymbolsOf(s[pos + 1..]);
    var values := [];
    for i := 0 to |s| - 1 - pos
      invariant values == all[..i] && NONE !in values
    {
      var rev := SymbolOf(s[i + pos + 1]);
      assert rev == all[i];
      if rev == NONE {
        assert NONE in all;
        return Failure;
      }
      values := values + [rev];
    }
    assert values == all;
    var hrp := "";
    for i := 0 to pos
      invariant hrp == Lowered(s[..i])
    {
      hrp := hrp + [LowerCase(s[i])];
    }
    var valid := VerifyChecksum(hrp, values);
    if !valid { return Failure; }
    r := Text(hrp, values[..|values| - 6]);
  }
}
