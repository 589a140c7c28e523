/** The base58 routines as they run: repeated "buffer = buffer * base + digit" in place. */
module Base58Codec {
  import opened Radix
  import opened Base58

  lemma {:induction false} NumberCons(base: nat, x: nat, t: seq<nat>)
    ensures Number(base, [x] + t) == x * Pow(base, |t|) + Number(base, t)
  {
    var s := [x] + t;
    var n := |t|;
    if n == 0 {
      assert s[..0] == [];
    } else {
      var u := t[..n - 1];
      assert s[..n] == [x] + u;
      NumberCons(base, x, u);
      ConsAlgebra(x, Pow(base, n - 1), Number(base, u), base);
    }
  }

  lemma ConsAlgebra(x: nat, p: nat, v: nat, base: nat)
    ensures (x * p + v) * base == x * (base * p) + v * base
  {
    Associate(x, p, base);
    assert (x * p + v) * base == (x * p) * base + v * base;
  }

  lemma CarryStep(c: nat, m: nat, x: nat, digit: nat, carry: nat, base: nat, p: nat, n: nat, o: nat, ch: nat)
    requires c + m * x == carry * base + digit
    requires c * p + n == o * m + ch
    ensures carry * (base * p) + (digit * p + n) == (x * p + o) * m + ch
  {
    Associate(carry, base, p);
    calc {
      carry * (base * p) + digit * p + n;
      (carry * base) * p + digit * p + n;
      (carry * base + digit) * p + n;
      (c + m * x) * p + n;
      { assert (c + m * x) * p == c * p + (m * x) * p; }
      (m * x) * p + o * m + ch;
      { assert (m * x) * p == (x * p) * m; }
      (x * p) * m + o * m + ch;
      (x * p + o) * m + ch;
    }
  }

  lemma CarryGone(carry: nat, p: nat, n: nat, total: int)
    requires carry * p + n == total < p
    ensures carry == 0 && n == total
  {
    assert carry >= 1 ==> carry * p >= p;
  }

  lemma DivStep(n: nat, base: nat)
    requires base > 1
    ensures 0 <= n / base && 0 <= n % base < base && n == (n / base) * base + n % base
  {
    if n > 0 { Shrinks(n, base); }
  }

  /** The first size - length cells are zero: the number fits in the last length cells. */
  ghost predicate FitsIn(s: seq<nat>, length: nat) {
    length <= |s| && forall i :: 0 <= i < |s| - length ==> s[i] == 0
  }

  /**
   * buffer = buffer * mult + ch, from the last cell backwards. The cells beyond length are zero
   * and are touched only while there is a carry; the source asserts that no carry is left over.
   */
  method MulAdd(buf: array<nat>, base: nat, mult: nat, ch: nat, length: nat) returns (i: nat)
    requires base > 1 && InBase(base, buf[..]) && FitsIn(buf[..], length)
    requires Number(base, buf[..]) * mult + ch < Pow(base, buf.Length)
    modifies buf
    ensures InBase(base, buf[..]) && FitsIn(buf[..], i)
    ensures Number(base, buf[..]) == old(Number(base, buf[..])) * mult + ch
  {
    hide Number, Pow, Balanced, Times, Kept, Carried;
    var size := buf.Length;
    ghost var was := buf[..];
    var carry: nat := ch;
    i := 0;
    EmptyTail(base, was, size, ch, mult);
    while (carry != 0 || i < length) && i < size
      invariant i <= size
      invariant InBase(base, buf[..])
      invariant buf[..size - i] == was[..size - i]
      invariant Balanced(base, carry, buf[size - i..], was[size - i..], mult, ch)
    {
      var k := size - 1 - i;
      ghost var c, x, tail := carry, buf[k], buf[size - i..];
      carry := Times(carry, mult, buf[k]);
      buf[k] := Kept(carry, base);
      carry := Carried(carry, base);
      assert buf[k..] == [buf[k]] + tail && was[k..] == [x] + was[size - i..];
      BalanceStep(base, c, x, tail, was[size - i..], mult, ch);
      i := i + 1;
    }
    if i == size {
      assert buf[0..] == buf[..] && was[0..] == was;
      BalanceEnd(base, carry, buf[..], was, mult, ch);
    } else {
      DropZeros(base, size - i, was);
      DropZeros(base, size - i, buf[..]);
      BalanceEmpty(base, buf[size - i..], was[size - i..], mult, ch);
    }
    assert carry == 0;
  }

  ghost predicate Balanced(base: nat, carry: nat, tail: seq<nat>, was: seq<nat>, mult: nat, ch: nat) {
    |tail| == |was| && carry * Pow(base, |tail|) + Number(base, tail) == Number(base, was) * mult + ch
  }

  lemma EmptyTail(base: nat, was: seq<nat>, size: nat, ch: nat, mult: nat)
    requires size == |was|
    ensures Balanced(base, ch, was[size..], was[size..], mult, ch)
  {}

  function Times(carry: nat, mult: nat, digit: nat): nat { carry + mult * digit }

  function Kept(t: nat, base: nat): (r: nat)
    requires base > 1
    ensures r < base
  {
    t % base
  }

  function Carried(t: nat, base: nat): nat
    requires base > 1
  {
    DivStep(t, base);
    t / base
  }

  lemma BalanceStep(base: nat, c: nat, x: nat, tail: seq<nat>, was: seq<nat>, mult: nat, ch: nat)
    requires base > 1 && Balanced(base, c, tail, was, mult, ch)
    ensures var t := Times(c, mult, x);
            Balanced(base, Carried(t, base), [Kept(t, base)] + tail, [x] + was, mult, ch)
  {
    hide Number;
    var t := Times(c, mult, x);
    DivStep(t, base);
    NumberCons(base, t % base, tail);
    NumberCons(base, x, was);
    CarryStep(c, mult, x, t % base, t / base, base, Pow(base, |tail|), Number(base, tail), Number(base, was), ch);
  }

  lemma BalanceEnd(base: nat, carry: nat, s: seq<nat>, was: seq<nat>, mult: nat, ch: nat)
    requires Balanced(base, carry, s, was, mult, ch)
    requires Number(base, was) * mult + ch < Pow(base, |s|)
    ensures carry == 0 && Number(base, s) == Number(base, was) * mult + ch
  {
    hide Number, Pow;
    CarryGone(carry, Pow(base, |s|), Number(base, s), Number(base, was) * mult + ch);
  }

  lemma BalanceEmpty(base: nat, s: seq<nat>, was: seq<nat>, mult: nat, ch: nat)
    requires Balanced(base, 0, s, was, mult, ch)
    ensures Number(base, s) == Number(base, was) * mult + ch
  {}

  /** The cells after the leading zeros are the digits of the number. */
  method SkipZeros(buf: array<nat>, base: nat, length: nat) returns (it: nat)
    requires base > 1 && InBase(base, buf[..]) && FitsIn(buf[..], length)
    ensures it <= buf.Length && buf[it..] == Digits(base, Number(base, buf[..]))
  {
    hide Number, Digits;
    it := buf.Length - length;
    while it < buf.Length && buf[it] == 0
      invariant it <= buf.Length
      invariant forall i :: 0 <= i < it ==> buf[i] == 0
    {
      it := it + 1;
    }
    DropZeros(base, it, buf[..]);
    DigitsOfNumber(base, buf[it..]);
    assert buf[..][it..] == buf[it..];
  }

  lemma PrefixFits(from: nat, to: nat, d: seq<nat>, n: nat, size: nat)
    requires from > 0 && InBase(from, d) && |d| <= n
    requires Pow(from, n) <= Pow(to, size)
    ensures Number(from, d) < Pow(to, size)
  {
    NumberBound(from, d);
    PowMonotone(from, |d|, n);
  }

  lemma Snoc(base: nat, d: seq<nat>, x: nat)
    ensures Number(base, d + [x]) == Number(base, d) * base + x
  {
    assert (d + [x])[..|d|] == d;
  }

  /** The base58 digits of the number that the bytes of b from position p on stand for. */
  method ConvertBytes(b: Bytes, start: nat) returns (digits: seq<nat>)
    requires start <= |b|
    ensures digits == Digits(58, Number(256, b[start..]))
  {
    hide Number, Pow, Digits;
    ghost var n := |b| - start;
    var p := start;
    var size := (|b| - p) * 138 / 100 + 1;
    var b58 := new nat[size](_ => 0);
    AllZeros(58, b58[..]);
    EncodeFits(n);
    var length := 0;
    ghost var read: seq<nat> := [];
    AllZeros(256, read);
    while p < |b|
      invariant start <= p <= |b|
      invariant read == b[start..p]
      invariant InBase(58, b58[..]) && FitsIn(b58[..], length)
      invariant Number(58, b58[..]) == Number(256, read)
    {
      Snoc(256, read, b[p]);
      read := read + [b[p]];
      PrefixFits(256, 58, read, n, size);
      length := MulAdd(b58, 58, 256, b[p], length);
      p := p + 1;
    }
    assert b[start..] == read;
    var it := SkipZeros(b58, 58, length);
    digits := b58[it..];
  }

  method EncodeBase58(b: Bytes) returns (str: string)
    ensures str == Encoding(b)
  {
    hide Number, Digits;
    var zeroes := 0;
    while zeroes < |b| && b[zeroes] == 0
      invariant zeroes <= |b| && forall i :: 0 <= i < zeroes ==> b[i] == 0
    {
      zeroes := zeroes + 1;
    }
    LeadingZerosAre(b, zeroes);
    DropZeros(256, zeroes, b);
    var digits := ConvertBytes(b, zeroes);
    ghost var all := Rebase(256, 58, b);
    assert all == Zeros(zeroes) + digits;
    str := seq(zeroes, _ => '1');
    for k := 0 to |digits|
      invariant |str| == zeroes + k
      invariant forall i :: 0 <= i < |str| ==> str[i] == ALPHABET[all[i]]
    {
      str := str + [ALPHABET[digits[k]]];
    }
  }

  // ---- Decoding ----

  lemma OnlyOneIsZero(c: char)
    ensures DigitOf(c) == 0 <==> c == '1'
    ensures !IsSpace('1')
  {}

  /** Text after the leading spaces: so many ones, then characters with these digits. */
  ghost predicate ReadSoFar(u: string, zeroes: nat, d: seq<nat>) {
    zeroes + |d| <= |u| &&
    (forall i :: 0 <= i < zeroes ==> u[i] == '1') &&
    (zeroes < |u| ==> u[zeroes] != '1') &&
    (forall i :: zeroes <= i < zeroes + |d| ==> DigitOf(u[i]) == d[i - zeroes] && !IsSpace(u[i]))
  }

  /** WellFormed, for text after the leading spaces. */
  ghost predicate OneWord(u: string) {
    (forall i :: 0 <= i < WordLength(u) ==> DigitOf(u[i]) >= 0) &&
    (forall i :: WordLength(u) <= i < |u| ==> IsSpace(u[i]))
  }

  lemma {:induction false} SkipSpacesIs(t: string, k: nat)
    requires k <= |t| && (forall i :: 0 <= i < k ==> IsSpace(t[i])) && (k < |t| ==> !IsSpace(t[k]))
    ensures SkipSpaces(t) == k
  {
    if k > 0 { SkipSpacesIs(t[1..], k - 1); }
  }

  lemma {:induction false} WordLengthIs(t: string, k: nat)
    requires k <= |t| && (forall i :: 0 <= i < k ==> !IsSpace(t[i])) && (k < |t| ==> IsSpace(t[k]))
    ensures WordLength(t) == k
  {
    if k > 0 { WordLengthIs(t[1..], k - 1); }
  }

  lemma WordDigits(u: string, zeroes: nat, d: seq<nat>)
    requires ReadSoFar(u, zeroes, d)
    requires zeroes + |d| < |u| ==> IsSpace(u[zeroes + |d|])
    ensures WordLength(u) == zeroes + |d|
    ensures forall i :: 0 <= i < WordLength(u) ==> DigitOf(u[i]) >= 0
    ensures ReadDigits(u[..WordLength(u)]) == Zeros(zeroes) + d
    ensures LeadingZeros(Zeros(zeroes) + d) == zeroes
  {
    hide LeadingZeros, IsSpace, DigitOf, WordLength;
    OnlyOneIsZero('1');
    WordLengthIs(u, zeroes + |d|);
    if d != [] { OnlyOneIsZero(u[zeroes]); }
    LeadingZerosAre(Zeros(zeroes) + d, zeroes);
  }

  /** Reads base58 characters up to a space or the end; stops with ok false at any other character. */
  method ReadWord(u: string, zeroes: nat) returns (ok: bool, p: nat, bytes: seq<nat>, ghost d: seq<nat>)
    requires ReadSoFar(u, zeroes, [])
    ensures !ok ==> !OneWord(u)
    ensures ok ==> p == zeroes + |d| && ReadSoFar(u, zeroes, d) && InBase(58, d)
    ensures ok ==> (p < |u| ==> IsSpace(u[p]))
    ensures ok ==> bytes == Digits(256, Number(58, d))
  {
    hide Number, Pow, Digits;
    p := zeroes;
    ghost var n := |u| - p;
    var size := (|u| - p) * 733 / 1000 + 1;
    var b256 := new nat[size](_ => 0);
    AllZeros(256, b256[..]);
    DecodeFits(n);
    var length := 0;
    d := [];
    AllZeros(58, d);
    while p < |u| && !IsSpace(u[p])
      invariant p == zeroes + |d|
      invariant ReadSoFar(u, zeroes, d) && InBase(58, d)
      invariant InBase(256, b256[..]) && FitsIn(b256[..], length)
      invariant Number(256, b256[..]) == Number(58, d)
    {
      var carry := DigitOf(u[p]);
      if carry == -1 {
        assert WordLength(u) > p;
        return false, p, [], d;
      }
      Snoc(58, d, carry);
      d := d + [carry];
      PrefixFits(58, 256, d, n, size);
      length := MulAdd(b256, 256, 58, carry, length);
      p := p + 1;
    }
    var it := SkipZeros(b256, 256, length);
    bytes := b256[it..];
    ok := true;
  }

  lemma DecodedTo(str: string, zeroes: nat, d: seq<nat>)
    requires var t := CString(str);
             ReadSoFar(t[SkipSpaces(t)..], zeroes, d) && OneWord(t[SkipSpaces(t)..])
    requires var t := CString(str); var u := t[SkipSpaces(t)..];
             zeroes + |d| < |u| ==> IsSpace(u[zeroes + |d|])
    requires InBase(58, d)
    ensures Decoding(str) == Data(Zeros(zeroes) + Digits(256, Number(58, d)))
  {
    hide Number, Digits, IsSpace, DigitOf, CString, WordLength, SkipSpaces, LeadingZeros;
    var t := CString(str);
    var u := t[SkipSpaces(t)..];
    WordDigits(u, zeroes, d);
    assert WellFormed(t) && Word(t) == u[..zeroes + |d|];
    DropZeros(58, zeroes, Zeros(zeroes) + d);
    assert (Zeros(zeroes) + d)[zeroes..] == d;
  }

  lemma NotDecoded(str: string)
    requires var t := CString(str); !OneWord(t[SkipSpaces(t)..])
    ensures Decoding(str) == Invalid
  {}

  method DecodeBase58(str: string) returns (r: Decoded)
    ensures r == Decoding(str)
  {
    hide Number, Digits, Decoding, IsSpace, DigitOf, CString, WordLength, SkipSpaces, LeadingZeros, InBase;
    var t := CString(str);
    var p := 0;
    while p < |t| && IsSpace(t[p])
      invariant p <= |t| && forall i :: 0 <= i < p ==> IsSpace(t[i])
    {
      p := p + 1;
    }
    SkipSpacesIs(t, p);
    var u := t[p..];
    var zeroes := 0;
    while zeroes < |u| && u[zeroes] == '1'
      invariant zeroes <= |u| && forall i :: 0 <= i < zeroes ==> u[i] == '1'
    {
      zeroes := zeroes + 1;
    }
    var ok, end, bytes, d := ReadWord(u, zeroes);
    if !ok {
      NotDecoded(str);
      return Invalid;
    }
    WordDigits(u, zeroes, d);
    p := end;
    while p < |u| && IsSpace(u[p])
      invariant end <= p <= |u| && forall i :: end <= i < p ==> IsSpace(u[i])
    {
      p := p + 1;
    }
    if p < |u| {
      NotDecoded(str);
      return Invalid;
    }
    DecodedTo(str, zeroes, d);
    return Data(seq(zeroes, _ => 0) + bytes);
  }

  // ---- With a four-byte checksum ----

  type Hash = f: seq<nat> -> seq<nat> | forall s :: |f(s)| == 32 && InBase(256, f(s))
    witness (s: seq<nat>) => Zeros(32)

  function Sealed(hash: Hash, b: seq<nat>): seq<nat> { b + hash(b)[..4] }

  ghost function CheckedDecoding(hash: Hash, str: string): Decoded {
    var d := Decoding(str);
    if d.Data? then Unseal(hash, d.bytes) else Invalid
  }

  function Unseal(hash: Hash, v: seq<nat>): Decoded {
    if |v| >= 4 && hash(v[..|v| - 4])[..4] == v[|v| - 4..] then Data(v[..|v| - 4]) else Invalid
  }

  lemma UnsealExactly(hash: Hash, v: seq<nat>, b: seq<nat>)
    ensures Unseal(hash, v) == Data(b) <==> v == Sealed(hash, b)
  {
    if v == Sealed(hash, b) {
      assert |v| == |b| + 4 && v[..|b|] == b && v[|b|..] == hash(b)[..4];
    }
    if Unseal(hash, v) == Data(b) {
      assert v == v[..|v| - 4] + v[|v| - 4..];
    }
  }

  /** Accepted are exactly the texts of sealed byte strings, and what comes back is under the seal. */
  lemma CheckedExactly(hash: Hash, str: string, b: seq<nat>)
    ensures CheckedDecoding(hash, str) == Data(b) <==> Decoding(str) == Data(b + hash(b)[..4])
  {
    hide Decoding, Unseal;
    var d := Decoding(str);
    if d.Data? { UnsealExactly(hash, d.bytes, b); }
  }

  lemma CheckedRoundTrip(hash: Hash, b: Bytes)
    ensures CheckedDecoding(hash, Encoding(Sealed(hash, b))) == Data(b)
  {
    hide Decoding, CheckedDecoding;
    RoundTrip(Sealed(hash, b));
    CheckedExactly(hash, Encoding(Sealed(hash, b)), b);
  }

  method EncodeBase58Check(hash: Hash, b: Bytes) returns (str: string)
    ensures str == Encoding(b + hash(b)[..4])
  {
    var vch := b + hash(b)[..4];
    str := EncodeBase58(vch);
  }

  method DecodeBase58Check(hash: Hash, str: string) returns (r: Decoded)
    ensures r == CheckedDecoding(hash, str)
    ensures forall b :: r == Data(b) <==> Decoding(str) == Data(b + hash(b)[..4])
  {
    hide Decoding;
    forall b ensures CheckedDecoding(hash, str) == Data(b) <==> Decoding(str) == Data(b + hash(b)[..4]) {
      CheckedExactly(hash, str, b);
    }
    var decoded := DecodeBase58(str);
    if decoded.Invalid? || |decoded.bytes| < 4 { return Invalid; }
    var v := decoded.bytes;
    if hash(v[..|v| - 4])[..4] != v[|v| - 4..] { return Invalid; }
    return Data(v[..|v| - 4]);
  }
}
