/** The bech32 characters and their symbols. */
module Bech32Table {

  const NONE: bv32 := 0xffff_ffff

  function Row0(v: bv32): char {
    if v == 0 then 'q' else if v == 1 then 'p' else if v == 2 then 'z' else if v == 3 then 'r'
    else if v == 4 then 'y' else if v == 5 then '9' else if v == 6 then 'x' else '8'
  }

  function Find0(c: char): bv32 {
    if c == 'q' then 0 else if c == 'p' then 1 else if c == 'z' then 2 else if c == 'r' then 3
    else if c == 'y' then 4 else if c == '9' then 5 else if c == 'x' then 6 else if c == '8' then 7 else NONE
  }

  function Row1(v: bv32): char {
    if v == 8 then 'g' else if v == 9 then 'f' else if v == 10 then '2' else if v == 11 then 't'
    else if v == 12 then 'v' else if v == 13 then 'd' else if v == 14 then 'w' else '0'
  }

  function Find1(c: char): bv32 {
    if c == 'g' then 8 else if c == 'f' then 9 else if c == '2' then 10 else if c == 't' then 11
    else if c == 'v' then 12 else if c == 'd' then 13 else if c == 'w' then 14 else if c == '0' then 15 else NONE
  }

  function Row2(v: bv32): char {
    if v == 16 then 's' else if v == 17 then '3' else if v == 18 then 'j' else if v == 19 then 'n'
    else if v == 20 then '5' else if v == 21 then '4' else if v == 22 then 'k' else 'h'
  }

  function Find2(c: char): bv32 {
    if c == 's' then 16 else if c == '3' then 17 else if c == 'j' then 18 else if c == 'n' then 19
    else if c == '5' then 20 else if c == '4' then 21 else if c == 'k' then 22 else if c == 'h' then 23 else NONE
  }

  function Row3(v: bv32): char {
    if v == 24 then 'c' else if v == 25 then 'e' else if v == 26 then '6' else if v == 27 then 'm'
    else if v == 28 then 'u' else if v == 29 then 'a' else if v == 30 then '7' else 'l'
  }

  function Find3(c: char): bv32 {
    if c == 'c' then 24 else if c == 'e' then 25 else if c == '6' then 26 else if c == 'm' then 27
    else if c == 'u' then 28 else if c == 'a' then 29 else if c == '7' then 30 else if c == 'l' then 31 else NONE
  }

  /** The character of a symbol. */
  function CharOf(v: bv32): char {
    if v < 8 then Row0(v) else if v < 16 then Row1(v) else if v < 24 then Row2(v) else Row3(v)
  }

  function LowerCase(c: char): char {
    if 'A' <= c <= 'Z' then (c as int - 'A' as int + 'a' as int) as char else c
  }

  function Find(d: char): bv32 {
    if Find0(d) != NONE then Find0(d) else if Find1(d) != NONE then Find1(d)
    else if Find2(d) != NONE then Find2(d) else Find3(d)
  }

  /** The symbol of a character, in either case. */
  function SymbolOf(c: char): bv32 { Find(LowerCase(c)) }

  ghost predicate Plain(c: char) {
    33 <= c as int <= 126 && c != '1' && !('A' <= c <= 'Z')
  }

  lemma Row0Inverse(v: bv32)
    requires v < 8
    ensures Find0(Row0(v)) == v && Plain(Row0(v))
  {}

  lemma Find0Inverse(c: char)
    requires Find0(c) != NONE
    ensures Find0(c) < 8 && Row0(Find0(c)) == c && c != '1'
  {}

  lemma Row1Inverse(v: bv32)
    requires 8 <= v < 16
    ensures Find0(Row1(v)) == NONE && Find1(Row1(v)) == v && Plain(Row1(v))
  {}

  lemma Find1Inverse(c: char)
    requires Find1(c) != NONE
    ensures 8 <= Find1(c) < 16 && Row1(Find1(c)) == c && c != '1'
  {}

  lemma Row2Inverse(v: bv32)
    requires 16 <= v < 24
    ensures Find0(Row2(v)) == NONE && Find1(Row2(v)) == NONE && Find2(Row2(v)) == v && Plain(Row2(v))
  {}

  lemma Find2Inverse(c: char)
    requires Find2(c) != NONE
    ensures 16 <= Find2(c) < 24 && Row2(Find2(c)) == c && c != '1'
  {}

  lemma Row3Inverse(v: bv32)
    requires 24 <= v < 32
    ensures Find0(Row3(v)) == NONE && Find1(Row3(v)) == NONE && Find2(Row3(v)) == NONE && Find3(Row3(v)) == v && Plain(Row3(v))
  {}

  lemma Find3Inverse(c: char)
    requires Find3(c) != NONE
    ensures 24 <= Find3(c) < 32 && Row3(Find3(c)) == c && c != '1'
  {}

  lemma TableInverse(v: bv32)
    requires v < 32
    ensures SymbolOf(CharOf(v)) == v && Plain(CharOf(v)) && LowerCase(CharOf(v)) == CharOf(v)
  {
    hide Row0, Row1, Row2, Row3, Find0, Find1, Find2, Find3;
    if v < 8 { Row0Inverse(v); } else if v < 16 { Row1Inverse(v); }
    else if v < 24 { Row2Inverse(v); } else { Row3Inverse(v); }
  }

  lemma TableOnto(c: char)
    requires SymbolOf(c) != NONE
    ensures SymbolOf(c) < 32 && CharOf(SymbolOf(c)) == LowerCase(c) && c != '1'
  {
    hide Row0, Row1, Row2, Row3, Find0, Find1, Find2, Find3;
    var d := LowerCase(c);
    if Find0(d) != NONE { Find0Inverse(d); } else if Find1(d) != NONE { Find1Inverse(d); }
    else if Find2(d) != NONE { Find2Inverse(d); } else { Find3Inverse(d); }
  }

  /** The characters in the order of their symbols. */
  lemma FirstHalf(v: bv32)
    requires v < 16
    ensures CharOf(v) == "qpzry9x8gf2tvdw0"[v]
  {}

  lemma SecondHalf(v: bv32)
    requires v < 16
    ensures CharOf(16 + v) == "s3jn54khce6mua7l"[v]
  {}
}
