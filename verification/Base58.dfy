/** Base58 text: conversion between byte strings and digit strings in a fixed buffer. */
module Base58 {
  import opened Radix

  type Bytes = s: seq<nat> | InBase(256, s)

  datatype Decoded = Invalid | Data(bytes: seq<nat>)

  /** The digits and letters without 0, I, O and l, in runs of neighbours. */
  const ALPHABET: string :=
    (("123456789" + "ABCDEFGH") + ("JKLMN" + "PQRSTUVWXYZ")) + ("abcdefghijk" + "mnopqrstuvwxyz")

  function IsSpace(c: char): bool {
    c == ' ' || c as int == 12 || c == '\n' || c == '\r' || c == '\t' || c as int == 11
  }

  /** The table from characters to digits; -1 marks a character outside the alphabet. */
  function DigitOf(c: char): (d: int)
    ensures -1 <= d < 58
  {
    if '1' <= c <= '9' then c as int - '1' as int
    else if 'A' <= c <= 'H' then c as int - 'A' as int + 9
    else if 'J' <= c <= 'N' then c as int - 'J' as int + 17
    else if 'P' <= c <= 'Z' then c as int - 'P' as int + 22
    else if 'a' <= c <= 'k' then c as int - 'a' as int + 33
    else if 'm' <= c <= 'z' then c as int - 'm' as int + 44
    else -1
  }

  /** The table and the alphabet are inverse to each other. */
  lemma TableInverse(d: nat)
    requires d < 58
    ensures |ALPHABET| == 58
    ensures DigitOf(ALPHABET[d]) == d && !IsSpace(ALPHABET[d]) && ALPHABET[d] != '\0'
  {
    UpperRuns();
    LowerRuns();
    JoinedRuns("123456789", "ABCDEFGH", "JKLMN", "PQRSTUVWXYZ", "abcdefghijk", "mnopqrstuvwxyz", d);
  }

  lemma UpperRuns()
    ensures Run("123456789", '1') && Run("ABCDEFGH", 'A') && Run("JKLMN", 'J') && Run("PQRSTUVWXYZ", 'P')
  {}

  lemma LowerRuns()
    ensures Run("abcdefghijk", 'a') && Run("mnopqrstuvwxyz", 'm')
  {}

  lemma JoinedRuns(a: string, b: string, c: string, e: string, f: string, g: string, d: nat)
    requires |a| == 9 && |b| == 8 && |c| == 5 && |e| == 11 && |f| == 11 && |g| == 14 && d < 58
    requires Run(a, '1') && Run(b, 'A') && Run(c, 'J') && Run(e, 'P') && Run(f, 'a') && Run(g, 'm')
    ensures var x := ((a + b) + (c + e)) + (f + g);
            DigitOf(x[d]) == d && !IsSpace(x[d]) && x[d] != '\0'
  {}

  ghost predicate Run(s: string, first: char) {
    forall i :: 0 <= i < |s| ==> s[i] as int == first as int + i
  }

  lemma TableOnto(c: char)
    requires DigitOf(c) >= 0
    ensures |ALPHABET| == 58 && ALPHABET[DigitOf(c)] == c && !IsSpace(c) && c != '\0'
  {
    TableInverse(DigitOf(c));
    DigitInjective(c, ALPHABET[DigitOf(c)]);
  }

  lemma DigitInjective(c: char, d: char)
    requires DigitOf(c) == DigitOf(d) >= 0
    ensures c == d
  {}

  // ---- What the text means ----

  function Spell(digits: seq<nat>): (s: string)
    requires InBase(58, digits)
    ensures |s| == |digits|
  {
    seq(|digits|, i requires 0 <= i < |digits| => ALPHABET[digits[i]])
  }

  /** The text as C sees it: up to the first NUL. */
  function CString(s: string): (r: string)
    ensures |r| <= |s|
    ensures forall i :: 0 <= i < |r| ==> r[i] == s[i] && r[i] != '\0'
    ensures |r| < |s| ==> s[|r|] == '\0'
  {
    if s == [] || s[0] == '\0' then [] else [s[0]] + CString(s[1..])
  }

  function SkipSpaces(s: string): (n: nat)
    ensures n <= |s|
    ensures forall i :: 0 <= i < n ==> IsSpace(s[i])
    ensures n < |s| ==> !IsSpace(s[n])
  {
    if s == [] || !IsSpace(s[0]) then 0 else 1 + SkipSpaces(s[1..])
  }

  function WordLength(s: string): (n: nat)
    ensures n <= |s|
    ensures forall i :: 0 <= i < n ==> !IsSpace(s[i])
    ensures n < |s| ==> IsSpace(s[n])
  {
    if s == [] || IsSpace(s[0]) then 0 else 1 + WordLength(s[1..])
  }

  /** A text is one word of base58 characters, with spaces around it. */
  ghost predicate WellFormed(s: string) {
    var t := s[SkipSpaces(s)..];
    var w := WordLength(t);
    (forall i :: 0 <= i < w ==> DigitOf(t[i]) >= 0) &&
    (forall i :: w <= i < |t| ==> IsSpace(t[i]))
  }

  function Word(s: string): string {
    var t := s[SkipSpaces(s)..];
    t[..WordLength(t)]
  }

  function ReadDigits(s: string): (r: seq<nat>)
    requires forall i :: 0 <= i < |s| ==> DigitOf(s[i]) >= 0
    ensures InBase(58, r)
  {
    seq(|s|, i requires 0 <= i < |s| => DigitOf(s[i]))
  }

  function Encoding(b: seq<nat>): string { Spell(Rebase(256, 58, b)) }

  ghost function Decoding(s: string): Decoded {
    var c := CString(s);
    if WellFormed(c) then Data(Rebase(58, 256, ReadDigits(Word(c)))) else Invalid
  }

  // ---- Round trips ----

  lemma {:induction false} CStringWhole(s: string)
    requires forall i :: 0 <= i < |s| ==> s[i] != '\0'
    ensures CString(s) == s
  {
    if s != [] { CStringWhole(s[1..]); }
  }

  lemma {:induction false} WordWhole(s: string)
    requires forall i :: 0 <= i < |s| ==> !IsSpace(s[i])
    ensures SkipSpaces(s) == 0 && WordLength(s) == |s|
  {
    if s != [] { WordWhole(s[1..]); }
  }

  /** Decoding an encoding gives the bytes back, for every byte string. */
  lemma RoundTrip(b: Bytes)
    ensures Decoding(Encoding(b)) == Data(b)
  {
    hide Rebase;
    var d := Rebase(256, 58, b);
    var s := Spell(d);
    forall i | 0 <= i < |s| ensures DigitOf(s[i]) == d[i] && !IsSpace(s[i]) && s[i] != '\0' {
      TableInverse(d[i]);
    }
    CStringWhole(s);
    WordWhole(s);
    assert s[0..] == s && Word(s) == s;
    assert ReadDigits(s) == d;
    RebaseInverse(256, 58, b);
  }

  /** A text that decodes is the encoding of what it decodes to, but for spaces around it. */
  lemma DecodedIsEncoded(s: string, b: seq<nat>)
    requires Decoding(s) == Data(b)
    ensures InBase(256, b) && Encoding(b) == Word(CString(s))
  {
    hide Rebase;
    var w := Word(CString(s));
    var d := ReadDigits(w);
    RebaseInverse(58, 256, d);
    var e := Encoding(b);
    assert |e| == |w|;
    forall i | 0 <= i < |w| ensures e[i] == w[i] {
      TableOnto(w[i]);
    }
  }

  // ---- The buffers are large enough ----

  function EncodeSize(n: nat): nat { n * 138 / 100 + 1 }
  function DecodeSize(n: nat): nat { n * 733 / 1000 + 1 }

  lemma Powers58()
    ensures Pow(58, 2) == 3364 && Pow(58, 3) == 195112 && Pow(58, 5) == 656356768 && Pow(58, 6) == 38068692544
    ensures Pow(58, 7) == 2207984167552 && Pow(58, 9) == 7427658739644928
    ensures Pow(58, 10) == 430804206899405824 && Pow(58, 11) == 24986644000165537792
  {
    hide Pow;
    PowStep(58, 0);
    PowStep(58, 1);
    PowStep(58, 2);
    PowAdd(58, 2, 3);
    PowAdd(58, 3, 3);
    PowAdd(58, 2, 5);
    PowAdd(58, 3, 6);
    PowAdd(58, 5, 5);
    PowAdd(58, 5, 6);
  }

  lemma PowStep(b: nat, n: nat)
    ensures Pow(b, 0) == 1 && Pow(b, n + 1) == b * Pow(b, n)
  {}

  lemma Powers256()
    ensures Pow(256, 0) == 1 && Pow(256, 1) == 256 && Pow(256, 2) == 65536 && Pow(256, 3) == 16777216
    ensures Pow(256, 4) == 4294967296 && Pow(256, 5) == 1099511627776 && Pow(256, 6) == 281474976710656
    ensures Pow(256, 7) == 72057594037927936 && Pow(256, 8) == 18446744073709551616
  {
    hide Pow;
    PowStep(256, 0);
    PowStep(256, 1);
    PowStep(256, 2);
    PowStep(256, 3);
    PowStep(256, 4);
    PowStep(256, 5);
    PowStep(256, 6);
    PowStep(256, 7);
  }

  /** 256^r < 58^(1.38 r + 1) for the remainders. */
  lemma EncodeResidue(r: nat)
    requires r < 8
    ensures Pow(256, r) < Pow(58, EncodeSize(r))
  {
    hide Pow;
    Powers58();
    Powers256();
    PowStep(58, 0);
  }

  /** n bytes always fit in floor(1.38 n) + 1 base58 digits. */
  lemma EncodeFits(n: nat)
    ensures Pow(256, n) < Pow(58, EncodeSize(n))
  {
    hide Pow;
    var k, r := n / 8, n % 8;
    Powers58();
    Powers256();
    PowBlocks(256, 8, 58, 11, k);
    EncodeResidue(r);
    PowAdd(256, k * 8, r);
    PowAdd(58, k * 11, EncodeSize(r));
    PowMonotone(58, k * 11 + EncodeSize(r), EncodeSize(n));
    StrictProduct(Pow(256, k * 8), Pow(58, k * 11), Pow(256, r), Pow(58, EncodeSize(r)));
  }

  lemma StrictProduct(a: nat, b: nat, c: nat, d: nat)
    requires 0 < a <= b && c < d
    ensures a * c < b * d
  {
    MulBoth(a, b, c + 1, d);
    assert a * (c + 1) == a * c + a;
  }

  lemma MorePowers()
    ensures Pow(58, 1) == 58 && Pow(58, 4) == 11316496 && Pow(58, 8) == 128063081718016
    ensures Pow(58, 12) == 1449225352009601191936 && Pow(58, 13) == 84055070416556869132288 && Pow(58, 14) == 4875194084160298409672704 && Pow(58, 15) == 282761256881297307761016832
    ensures Pow(256, 9) == 4722366482869645213696 && Pow(256, 10) == 1208925819614629174706176
    ensures Pow(256, 11) == 309485009821345068724781056
  {
    hide Pow;
    Powers58();
    Powers256();
    PowStep(58, 0);
    PowAdd(58, 2, 2);
    PowAdd(58, 4, 4);
    PowAdd(58, 6, 6);
    PowAdd(58, 6, 7);
    PowAdd(58, 7, 7);
    PowAdd(58, 7, 8);
    PowAdd(256, 8, 1);
    PowAdd(256, 8, 2);
    PowAdd(256, 8, 3);
  }

  /** 58^b <= 256^(0.733 b + 1) for small b. */
  lemma SmallResidue(b: nat)
    requires b < 15
    ensures Pow(58, b) <= Pow(256, DecodeSize(b))
  {
    hide Pow;
    Powers58();
    Powers256();
    PowStep(58, 0);
    MorePowers();
  }

  /** Fifteen digits fit in eleven bytes, and seventy-one in fifty-two. */
  lemma LargePowers()
    ensures Pow(58, 15) <= Pow(256, 11)
    ensures Pow(58, 71) <= Pow(256, 52)
  {
    hide Pow;
    MorePowers();
    assert Pow(58, 30) == 79953928393091004080532279173738402825689466587316224 by { PowAdd(58, 15, 15); }
    assert Pow(58, 60) == 6392630665487523829925705590507004456832030712891733088851577912861189652777515686114891080333114973618176 by { PowAdd(58, 30, 30); }
    Powers58();
    PowAdd(58, 60, 11);
    assert Pow(256, 22) == 95780971304118053647396689196894323976171195136475136 by { PowAdd(256, 11, 11); }
    assert Pow(256, 44) == 9173994463960286046443283581208347763186259956673124494950355357547691504353939232280074212440502746218496 by { PowAdd(256, 22, 22); }
    Powers256();
    PowAdd(256, 44, 8);
  }

  lemma DecodeResidue(r: nat)
    requires r < 71
    ensures Pow(58, r) <= Pow(256, DecodeSize(r))
  {
    hide Pow;
    var a, b := r / 15, r % 15;
    var size := if b == 0 then 0 else DecodeSize(b);
    LargePowers();
    SmallResidue(b);
    PowStep(58, 0);
    PowStep(256, 0);
    PowBlocks(58, 15, 256, 11, a);
    PowAdd(58, a * 15, b);
    PowAdd(256, a * 11, size);
    MulBoth(Pow(58, a * 15), Pow(256, a * 11), Pow(58, b), Pow(256, size));
    SizeOfParts(a, b);
    PowMonotone(256, a * 11 + size, DecodeSize(r));
  }

  lemma SizeOfParts(a: nat, b: nat)
    requires a < 5 && b < 15
    ensures DecodeSize(15 * a + b) >= a * 11 + if b == 0 then 0 else DecodeSize(b)
  {}

  /** n base58 digits always fit in floor(0.733 n) + 1 bytes. */
  lemma DecodeFits(n: nat)
    ensures Pow(58, n) <= Pow(256, DecodeSize(n))
  {
    hide Pow;
    var k, r := n / 71, n % 71;
    LargePowers();
    PowBlocks(58, 71, 256, 52, k);
    DecodeResidue(r);
    PowAdd(58, k * 71, r);
    PowAdd(256, k * 52, DecodeSize(r));
    MulBoth(Pow(58, k * 71), Pow(256, k * 52), Pow(58, r), Pow(256, DecodeSize(r)));
    PowMonotone(256, k * 52 + DecodeSize(r), DecodeSize(n));
  }

  // ---- Known texts ----

  /** Three bytes with their text, and leading zero bytes as leading ones. */
  lemma KnownTexts()
    ensures Encoding([0x62, 0x62, 0x62]) == "a3gV"
    ensures Encoding([0, 0, 0x61]) == "112g"
  {
    hide Digits;
    KnownNumbers();
    DigitsOfNumber(58, [33, 2, 39, 28]);
    DigitsOfNumber(58, [1, 39]);
    assert Rebase(256, 58, [0x62, 0x62, 0x62]) == [33, 2, 39, 28];
    assert Rebase(256, 58, [0, 0, 0x61]) == [0, 0, 1, 39];
    KnownSpelling();
  }

  lemma KnownNumbers()
    ensures Number(256, [0x62, 0x62, 0x62]) == Number(58, [33, 2, 39, 28]) && LeadingZeros([0x62, 0x62, 0x62]) == 0
    ensures Number(256, [0, 0, 0x61]) == Number(58, [1, 39]) && LeadingZeros([0, 0, 0x61]) == 2
  {
    assert [0x62, 0x62, 0x62][..2] == [0x62, 0x62] && [0x62, 0x62][..1] == [0x62] && [0x62][..0] == [];
    assert [33, 2, 39, 28][..3] == [33, 2, 39] && [33, 2, 39][..2] == [33, 2] && [33, 2][..1] == [33] && [33][..0] == [];
    assert [0, 0, 0x61][..2] == [0, 0] && [0, 0][..1] == [0] && [0][..0] == [] && [1, 39][..1] == [1] && [1][..0] == [];
    assert [0, 0, 0x61][1..] == [0, 0x61] && [0, 0x61][1..] == [0x61];
  }

  lemma KnownSpelling()
    ensures Spell([33, 2, 39, 28]) == "a3gV" && Spell([0, 0, 1, 39]) == "112g"
  {
    SpelledAs([33, 2, 39, 28], "a3gV");
    SpelledAs([0, 0, 1, 39], "112g");
  }

  lemma SpelledAs(digits: seq<nat>, s: string)
    requires InBase(58, digits) && |s| == |digits| && forall i :: 0 <= i < |s| ==> DigitOf(s[i]) == digits[i]
    ensures Spell(digits) == s
  {
    forall i | 0 <= i < |s| ensures Spell(digits)[i] == s[i] { TableOnto(s[i]); }
  }
}
