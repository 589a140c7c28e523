/** Golomb-Rice coding of numbers and of ascending lists, on bit strings and on bit streams. */
module Golomb {
  import opened Bits
  import opened Limbs
  import opened ArithSteps
  import opened BitStream

  const WORD: nat := 0x1_0000_0000_0000_0000

  datatype Decoded<T> = End | Value(value: T, rest: seq<bool>)

  function Ones(n: nat): (s: seq<bool>)
    ensures |s| == n
  {
    seq(n, _ => true)
  }

  /** The quotient in unary, a zero, and the p low bits. */
  function Code(p: nat, x: nat): seq<bool> {
    DivideSmaller(x, Pow2(p));
    Ones(x / Pow2(p)) + [false] + BitsOf(x, p)
  }

  function LeadingOnes(s: seq<bool>): (n: nat)
    ensures n <= |s|
    ensures forall i :: 0 <= i < n ==> s[i]
    ensures n < |s| ==> !s[n]
  {
    if s == [] || !s[0] then 0 else 1 + LeadingOnes(s[1..])
  }

  function NumberOf(s: seq<bool>): nat {
    if s == [] then 0 else 2 * NumberOf(s[..|s| - 1]) + if s[|s| - 1] then 1 else 0
  }

  function DecodeOne(p: nat, s: seq<bool>): Decoded<nat> {
    var q := LeadingOnes(s);
    if q + 1 + p > |s| then End
    else Value((q * Pow2(p) + NumberOf(s[q + 1..q + 1 + p])) % WORD, s[q + 1 + p..])
  }

  lemma {:induction false} NumberOfBits(x: nat, n: nat)
    requires x < Pow2(n)
    ensures NumberOf(BitsOf(x, n)) == x
  {
    if n > 0 {
      NumberOfBits(x / 2, n - 1);
      assert BitsOf(x, n)[..n - 1] == BitsOf(x / 2, n - 1);
    }
  }

  lemma {:induction false} LeadingOnesAre(s: seq<bool>, q: nat)
    requires q < |s| && (forall i :: 0 <= i < q ==> s[i]) && !s[q]
    ensures LeadingOnes(s) == q
  {
    if q > 0 { LeadingOnesAre(s[1..], q - 1); }
  }

  /** Decoding inverts encoding, whatever follows in the stream. */
  lemma CodeRoundTrip(p: nat, x: nat, rest: seq<bool>)
    requires x < WORD
    ensures DecodeOne(p, Code(p, x) + rest) == Value(x, rest)
  {
    hide Pow2, BitsOf, NumberOf;
    DivideSmaller(x, Pow2(p));
    Euclid(x, Pow2(p));
    var q, r := x / Pow2(p), x % Pow2(p);
    var s := Code(p, x) + rest;
    LeadingOnesAre(s, q);
    assert s[q + 1..q + 1 + p] == BitsOf(x, p) && s[q + 1 + p..] == rest;
    BitsOfRemainder(x, p);
    NumberOfBits(r, p);
  }

  // ---- Lists of ascending numbers as differences ----

  ghost predicate Ascending(s: seq<nat>) {
    forall i, j :: 0 <= i < j < |s| ==> s[i] <= s[j]
  }

  function CodeAll(p: nat, last: nat, values: seq<nat>): seq<bool>
    requires Ascending([last] + values)
    decreases |values|
  {
    if values == [] then [] else
    AscendingTail(last, values);
    Code(p, values[0] - last) + CodeAll(p, values[0], values[1..])
  }

  lemma AscendingTail(last: nat, values: seq<nat>)
    requires Ascending([last] + values) && values != []
    ensures last <= values[0] && Ascending([values[0]] + values[1..])
  {
    var s := [last] + values;
    assert s[0] == last && s[1] == values[0];
    assert [values[0]] + values[1..] == s[1..];
  }

  /** n numbers, each the sum of its predecessor and a decoded difference. */
  function DecodeAll(p: nat, last: nat, n: nat, s: seq<bool>): Decoded<seq<nat>>
    decreases n
  {
    if n == 0 then Value([], s) else
    var d := DecodeOne(p, s);
    if d.End? then End else
    var v := (last + d.value) % WORD;
    var t := DecodeAll(p, v, n - 1, d.rest);
    if t.End? then End else Value([v] + t.value, t.rest)
  }

  lemma {:induction false} ListRoundTrip(p: nat, last: nat, values: seq<nat>, rest: seq<bool>)
    requires Ascending([last] + values)
    requires forall i :: 0 <= i < |values| ==> values[i] < WORD
    ensures DecodeAll(p, last, |values|, CodeAll(p, last, values) + rest) == Value(values, rest)
    decreases |values|
  {
    hide Code, DecodeOne;
    if values != [] {
      AscendingTail(last, values);
      var v := values[0];
      var tail := CodeAll(p, v, values[1..]);
      ListRoundTrip(p, v, values[1..], rest);
      CodeRoundTrip(p, v - last, tail + rest);
      Regroup(Code(p, v - last), tail, rest);
      assert [v] + values[1..] == values;
    } else {
      assert [] + rest == rest;
    }
  }

  lemma {:induction false} DecodedLength(p: nat, last: nat, n: nat, s: seq<bool>)
    requires DecodeAll(p, last, n, s).Value?
    ensures |DecodeAll(p, last, n, s).value| == n
    decreases n
  {
    if n > 0 {
      var d := DecodeOne(p, s);
      DecodedLength(p, (last + d.value) % WORD, n - 1, d.rest);
    }
  }

  // ---- On streams ----

  lemma {:induction false} AllOnes(n: nat)
    ensures BitsOf(Pow2(n) - 1, n) == Ones(n)
  {
    if n > 0 {
      assert Pow2(n) - 1 == 2 * (Pow2(n - 1) - 1) + 1;
      AllOnes(n - 1);
    }
  }

  lemma OnesOf64(n: nat)
    requires n <= 64
    ensures Pow2(64) == WORD
    ensures BitsOf(WORD - 1, n) == Ones(n)
  {
    hide Pow2, BitsOf;
    Pow2Values();
    Pow2Add(64 - n, n);
    AllOnes(n);
    var k := Pow2(64 - n) - 1;
    Distribute(k, 1, Pow2(n));
    BitsModulo(Pow2(n) - 1, k, n);
  }

  lemma Fits64(x: nat, p: nat)
    requires x < WORD
    ensures 0 <= x / Pow2(p) < WORD
  {
    DivideSmaller(x, Pow2(p));
  }

  method GolombRiceEncode(writer: BitWriter, p: nat, x: nat)
    requires writer.Valid() && p < 64 && x < WORD
    modifies writer
    ensures writer.Valid() && writer.Contents() == old(writer.Contents()) + Code(p, x)
  {
    hide Pow2, BitsOf;
    Fits64(x, p);
    var q := x / Pow2(p);
    ghost var total, start := q, writer.Contents();
    while q > 0
      invariant 0 <= q <= total && writer.Valid()
      invariant writer.Contents() == start + Ones(total - q)
    {
      var nbits := if q <= 64 then q else 64;
      OnesOf64(nbits);
      var ok := writer.Write(WORD - 1, nbits);
      Regroup(start, Ones(total - q), Ones(nbits));
      assert Ones(total - q) + Ones(nbits) == Ones(total - (q - nbits));
      q := q - nbits;
    }
    var ok := writer.Write(0, 1);
    ZeroBit();
    ok := writer.Write(x, p);
    assert start + Ones(total) + [false] + BitsOf(x, p) == start + Code(p, x);
  }

  lemma ZeroBit()
    ensures BitsOf(0, 1) == [false]
  {
    assert BitsOf(0, 0) == [];
  }

  lemma OneBit(r: nat, b: bool)
    requires r < Pow2(1) && BitsOf(r, 1) == [b]
    ensures r == 1 <==> b
  {
    assert BitsOf(r, 1) == BitsOf(r / 2, 0) + [r % 2 == 1];
    assert BitsOf(r, 1)[0] == (r % 2 == 1);
  }

  method GolombRiceDecode(reader: BitReader, p: nat) returns (ok: bool, x: nat)
    requires reader.Valid() && p < 64
    modifies reader
    ensures reader.Valid() && (old(reader.offset) > 0 ==> reader.offset > 0)
    ensures ok <==> DecodeOne(p, old(reader.Remaining())).Value?
    ensures ok ==> Value(x, reader.Remaining()) == DecodeOne(p, old(reader.Remaining()))
  {
    hide Pow2, BitsOf, DecodeOne, Joined;
    ghost var s := reader.Remaining();
    var q := 0;
    while true
      invariant old(reader.offset) > 0 ==> reader.offset > 0
      invariant 0 <= q <= |s| && reader.Valid() && reader.Remaining() == s[q..]
      invariant forall i :: 0 <= i < q ==> s[i]
      decreases |s| - q
    {
      TooShort(p, s, q);
      var got, bit := reader.Read(1);
      if !got { return false, 0; }
      assert s[q..][..1] == [s[q]] && s[q..][1..] == s[q + 1..];
      OneBit(bit, s[q]);
      if bit != 1 { break; }
      q := q + 1;
    }
    TooShort(p, s, q);
    var got, r := reader.Read(p);
    if !got { return false, 0; }
    DecodedIs(p, s, q, r);
    ok, x := true, Joined(q, p, r);
  }

  /** (q << p) + r in 64 bits: the shift and the sum wrap around. */
  function Joined(q: nat, p: nat, r: nat): nat {
    (q * Pow2(p) % WORD + r) % WORD
  }

  lemma TooShort(p: nat, s: seq<bool>, q: nat)
    requires q <= |s| && forall i :: 0 <= i < q ==> s[i]
    ensures q == |s| ==> DecodeOne(p, s) == End
    ensures q < |s| && !s[q] && q + 1 + p > |s| ==> DecodeOne(p, s) == End
  {
    if q < |s| && !s[q] { LeadingOnesAre(s, q); }
  }

  lemma DecodedIs(p: nat, s: seq<bool>, q: nat, r: nat)
    requires q + 1 + p <= |s| && (forall i :: 0 <= i < q ==> s[i]) && !s[q]
    requires r < Pow2(p) && BitsOf(r, p) == s[q + 1..][..p]
    ensures DecodeOne(p, s) == Value(Joined(q, p, r), s[q + 1..][p..])
  {
    hide Pow2, BitsOf, NumberOf;
    LeadingOnesAre(s, q);
    assert s[q + 1..][..p] == s[q + 1..q + 1 + p] && s[q + 1..][p..] == s[q + 1 + p..];
    NumberOfBits(r, p);
    MulMonotone(0, q, Pow2(p));
    WrapTwice(q * Pow2(p), r);
  }

  lemma WrapTwice(a: nat, b: nat)
    ensures (a % WORD + b) % WORD == (a + b) % WORD
  {}

  /** Nine with two low bits: the quotient 2 in unary, a zero, and the remainder 1. */
  lemma KnownCode()
    ensures Code(2, 9) == [true, true, false, false, true]
  {
    assert Pow2(2) == 4;
    assert BitsOf(9, 2) == BitsOf(4, 1) + [true] && BitsOf(4, 1) == BitsOf(2, 0) + [false];
  }
}
