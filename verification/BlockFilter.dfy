/** Golomb-coded sets: hashing into a range, building, parsing and matching. */
module BlockFilter {
  import opened Bits
  import opened Limbs
  import opened ArithSteps
  import opened BitStream
  import opened Golomb

  const MAX_SIZE: nat := 0x0200_0000

  type Element = seq<nat>
  type Hasher = f: Element -> nat | forall e :: f(e) < WORD witness (e: Element) => 0

  // ---- Mapping a hash into a range ----

  lemma LimbProduct(x: nat, y: nat)
    requires x < BASE && y < BASE
    ensures 0 <= x * y <= (BASE - 1) * (BASE - 1)
  {
    MulMonotone(0, x, y);
    MulMonotone(x, BASE - 1, y);
    MulMonotone(y, BASE - 1, BASE - 1);
  }

  /** The four partial products of two 64-bit numbers add up to the product. */
  lemma PartialProducts(xh: nat, xl: nat, nh: nat, nl: nat)
    ensures (xh * BASE + xl) * (nh * BASE + nl)
         == (xh * nh) * (BASE * BASE) + (xh * nl + xl * nh) * BASE + xl * nl
  {
    var y := nh * BASE + nl;
    calc {
      (xh * BASE + xl) * y;
      (xh * BASE) * y + xl * y;
      { assert (xh * BASE) * y == (xh * y) * BASE; }
      (xh * y) * BASE + xl * y;
      { assert xh * y == (xh * nh) * BASE + xh * nl; assert xl * y == (xl * nh) * BASE + xl * nl; }
      ((xh * nh) * BASE + xh * nl) * BASE + (xl * nh) * BASE + xl * nl;
    }
  }

  lemma UpperHalf(product: nat, ac: nat, ad: nat, bc: nat, bd: nat)
    requires product == ac * (BASE * BASE) + (ad + bc) * BASE + bd
    ensures var mid := bd / BASE + bc % BASE + ad % BASE;
            ac + bc / BASE + ad / BASE + mid / BASE == product / WORD
  {
    var mid := bd / BASE + bc % BASE + ad % BASE;
    var upper := ac + bc / BASE + ad / BASE + mid / BASE;
    assert product == upper * WORD + (mid % BASE) * BASE + bd % BASE;
  }

  /** The upper 64 bits of x * n, from 32-bit pieces; no intermediate sum needs more than 64 bits. */
  function MapIntoRange(x: nat, n: nat): (r: nat)
    requires x < WORD && n < WORD
    ensures r == x * n / WORD
    ensures n > 0 ==> r < n
  {
    var x_hi, x_lo, n_hi, n_lo := x / BASE, x % BASE, n / BASE, n % BASE;
    LimbProduct(x_hi, n_hi);
    LimbProduct(x_hi, n_lo);
    LimbProduct(x_lo, n_hi);
    LimbProduct(x_lo, n_lo);
    var ac, ad, bc, bd := x_hi * n_hi, x_hi * n_lo, x_lo * n_hi, x_lo * n_lo;
    var mid34 := bd / BASE + bc % BASE + ad % BASE;
    var upper64 := ac + bc / BASE + ad / BASE + mid34 / BASE;
    PartialProducts(x_hi, x_lo, n_hi, n_lo);
    UpperHalf(x * n, ac, ad, bc, bd);
    BelowRange(x, n);
    assert ac < WORD && ad < WORD && bc < WORD && bd < WORD && mid34 < WORD && upper64 < WORD;
    upper64
  }

  lemma BelowRange(x: nat, n: nat)
    requires x < WORD && n < WORD
    ensures 0 <= x * n / WORD < WORD
    ensures n > 0 ==> x * n / WORD < n
  {
    MulMonotone(0, x, n);
    MulMonotone(x, WORD - 1, n);
  }

  // ---- The element count in front of the bits ----

  function CompactSize(n: nat): (s: seq<nat>)
    requires n < BASE
    ensures 1 <= |s| <= 5 && forall i :: 0 <= i < |s| ==> s[i] < 256
  {
    if n < 253 then [n]
    else if n <= 0xffff then [253, n % 256, n / 256]
    else [254, n % 256, n / 256 % 256, n / 0x1_0000 % 256, n / 0x100_0000]
  }

  datatype Size = Bad | Size(n: nat, used: nat)

  /** Reads a count; a longer form than needed and a count above MAX_SIZE are refused. */
  function ReadCompactSize(s: seq<nat>): (r: Size)
    ensures r.Size? ==> r.used <= |s| && r.n <= MAX_SIZE
  {
    if s == [] then Bad
    else if s[0] < 253 then Accept(s[0], 1, 0)
    else if s[0] == 253 then (if |s| < 3 then Bad else Accept(s[1] + 256 * s[2], 3, 253))
    else if s[0] == 254 then
      (if |s| < 5 then Bad else Accept(s[1] + 256 * s[2] + 0x1_0000 * s[3] + 0x100_0000 * s[4], 5, 0x1_0000))
    else if |s| < 9 then Bad
    else Accept(s[1] + 256 * s[2] + 0x1_0000 * s[3] + 0x100_0000 * s[4]
                + BASE * (s[5] + 256 * s[6] + 0x1_0000 * s[7] + 0x100_0000 * s[8]), 9, BASE)
  }

  function Accept(n: nat, used: nat, least: nat): (r: Size)
    ensures r.Size? ==> r.used == used && r.n == n <= MAX_SIZE
  {
    if n < least || n > MAX_SIZE then Bad else Size(n, used)
  }

  /** A count is read back exactly when it does not exceed MAX_SIZE. */
  lemma CountRoundTrip(n: nat, rest: seq<nat>)
    requires n < BASE
    ensures ReadCompactSize(CompactSize(n) + rest) == if n <= MAX_SIZE then Size(n, |CompactSize(n)|) else Bad
  {
    if n > 0xffff {
      FourBytes(n);
    }
  }

  /** The first count that is written and cannot be read back. */
  lemma UnreadableCount()
    ensures ReadCompactSize(CompactSize(0x0200_0001)) == Bad
  {
    CountRoundTrip(0x0200_0001, []);
    assert CompactSize(0x0200_0001) + [] == CompactSize(0x0200_0001);
  }

  /** The shortest and the longest count of each form. */
  lemma KnownCounts()
    ensures CompactSize(252) == [252] && CompactSize(253) == [253, 253, 0] && CompactSize(0xffff) == [253, 255, 255]
    ensures CompactSize(0x1_0000) == [254, 0, 0, 1, 0] && CompactSize(0xffff_ffff) == [254, 255, 255, 255, 255]
  {
  }

  lemma FourBytes(n: nat)
    ensures n % 256 + 256 * (n / 256 % 256) + 0x1_0000 * (n / 0x1_0000 % 256) + 0x100_0000 * (n / 0x100_0000) == n
  {
    var a := n / 256;
    var b := a / 256;
    assert n / 0x1_0000 == b && n / 0x100_0000 == b / 256;
  }

  // ---- Hashed elements in order ----

  function InsertSorted(s: seq<nat>, x: nat): (r: seq<nat>)
    requires Ascending(s)
    ensures Ascending(r) && multiset(r) == multiset(s) + multiset{x}
  {
    if s == [] || x <= s[0] then
      assert [x] + s == [x] + s[..];
      [x] + s
    else
      var t := InsertSorted(s[1..], x);
      assert s == [s[0]] + s[1..];
      InsertedAbove(s, x, t);
      [s[0]] + t
  }

  lemma InsertedAbove(s: seq<nat>, x: nat, t: seq<nat>)
    requires Ascending(s) && s != [] && s[0] < x && Ascending(t)
    requires multiset(t) == multiset(s[1..]) + multiset{x}
    ensures Ascending([s[0]] + t)
  {
    forall j | 0 <= j < |t| ensures s[0] <= t[j] {
      assert t[j] in multiset(t);
      assert t[j] in multiset(s[1..]) || t[j] == x;
      if t[j] != x {
        assert t[j] in s[1..];
      }
    }
  }

  function HashToRange(hash: Hasher, range: nat, e: Element): (v: nat)
    requires range < WORD
    ensures v < WORD && v == hash(e) * range / WORD
  {
    MapIntoRange(hash(e), range)
  }

  ghost function Hashing(hash: Hasher, range: nat, elements: set<Element>, v: nat): set<Element>
    requires range < WORD
  {
    set e | e in elements && hash(e) * range / WORD == v
  }

  /** The hashes of the elements in ascending order: each as often as elements have it. */
  ghost predicate HashesOf(hash: Hasher, range: nat, elements: set<Element>, values: seq<nat>)
    requires range < WORD
  {
    Ascending(values) && |values| == |elements| &&
    (forall i :: 0 <= i < |values| ==> values[i] < WORD) &&
    forall v: nat :: multiset(values)[v] == |Hashing(hash, range, elements, v)|
  }

  lemma HashesHave(hash: Hasher, range: nat, elements: set<Element>, values: seq<nat>, e: Element)
    requires range < WORD && HashesOf(hash, range, elements, values) && e in elements
    ensures HashToRange(hash, range, e) in values
  {
    hide HashToRange;
    var v := HashToRange(hash, range, e);
    assert e in Hashing(hash, range, elements, v);
    assert v in multiset(values);
  }

  lemma HashesFrom(hash: Hasher, range: nat, elements: set<Element>, values: seq<nat>, v: nat) returns (e: Element)
    requires range < WORD && HashesOf(hash, range, elements, values) && v in values
    ensures e in elements && HashToRange(hash, range, e) == v
  {
    hide HashToRange;
    assert v in multiset(values);
    assert Hashing(hash, range, elements, v) != {};
    e :| e in Hashing(hash, range, elements, v);
  }

  method BuildHashedSet(hash: Hasher, range: nat, elements: set<Element>) returns (values: seq<nat>)
    requires range < WORD
    ensures HashesOf(hash, range, elements, values)
  {
    hide HashToRange, InsertSorted, HashesOf;
    values := [];
    var left := elements;
    NoHashes(hash, range);
    assert elements - elements == {};
    while left != {}
      invariant left <= elements
      invariant HashesOf(hash, range, elements - left, values)
      decreases left
    {
      var e :| e in left;
      OneMoreHash(hash, range, elements - left, e, values);
      values := InsertSorted(values, HashToRange(hash, range, e));
      assert elements - (left - {e}) == elements - left + {e};
      left := left - {e};
    }
    assert elements - {} == elements;
  }

  lemma NoHashes(hash: Hasher, range: nat)
    requires range < WORD
    ensures HashesOf(hash, range, {}, [])
  {}

  lemma OneMoreHash(hash: Hasher, range: nat, elements: set<Element>, e: Element, values: seq<nat>)
    requires range < WORD && e !in elements && HashesOf(hash, range, elements, values)
    ensures Ascending(values)
    ensures HashesOf(hash, range, elements + {e}, InsertSorted(values, HashToRange(hash, range, e)))
  {
    hide HashToRange, InsertSorted, Hashing, Ascending;
    var x := HashToRange(hash, range, e);
    var r := InsertSorted(values, x);
    var before: multiset<nat>, after: multiset<nat> := multiset(values), multiset(r);
    assert |after| == |before| + 1;
    forall v: nat ensures after[v] == |Hashing(hash, range, elements + {e}, v)| {
      HashingMore(hash, range, elements, e, v);
    }
    BoundedMore(values, r, x);
  }

  lemma HashingMore(hash: Hasher, range: nat, elements: set<Element>, e: Element, v: nat)
    requires range < WORD && e !in elements
    ensures |Hashing(hash, range, elements + {e}, v)|
         == |Hashing(hash, range, elements, v)| + if HashToRange(hash, range, e) == v then 1 else 0
  {
    hide HashToRange;
    if HashToRange(hash, range, e) == v {
      assert Hashing(hash, range, elements + {e}, v) == Hashing(hash, range, elements, v) + {e};
    } else {
      assert Hashing(hash, range, elements + {e}, v) == Hashing(hash, range, elements, v);
    }
  }

  lemma BoundedMore(values: seq<nat>, r: seq<nat>, x: nat)
    requires multiset(r) == multiset(values) + multiset{x} && x < WORD
    requires forall i :: 0 <= i < |values| ==> values[i] < WORD
    ensures forall i :: 0 <= i < |r| ==> r[i] < WORD
  {
    forall i | 0 <= i < |r| ensures r[i] < WORD {
      assert r[i] in multiset(r);
      assert r[i] in multiset(values) || r[i] == x;
      if r[i] != x { assert r[i] in values; }
    }
  }

  // ---- Filters ----

  datatype Filter = Filter(p: nat, m: nat, n: nat, range: nat, encoded: seq<nat>)
  datatype Outcome = Thrown | Built(filter: Filter)

  predicate Shaped(f: Filter) {
    f.p < 64 && f.m < BASE && f.n < BASE && f.range == f.n * f.m
  }

  lemma RangeFits(n: nat, m: nat)
    requires n < BASE && m < BASE
    ensures 0 <= n * m < WORD
  {
    LimbProduct(n, m);
  }

  /** The encoding is the count and the coded values, zero-padded to a byte. */
  ghost predicate Coded(f: Filter, values: seq<nat>) {
    Shaped(f) && |values| == f.n && Ascending([0] + values) &&
    (forall i :: 0 <= i < |values| ==> values[i] < WORD) &&
    |CompactSize(f.n)| <= |f.encoded| && f.encoded[..|CompactSize(f.n)|] == CompactSize(f.n) &&
    var bits, body := CodeAll(f.p, 0, values), Flat(f.encoded[|CompactSize(f.n)|..]);
    |bits| <= |body| < |bits| + 8 && body[..|bits|] == bits
  }

  /** A reader of the encoding sees the count and then these values. */
  ghost predicate ReadsAs(f: Filter, values: seq<nat>) {
    Shaped(f) && |values| == f.n &&
    var size := ReadCompactSize(f.encoded);
    size.Size? && size.n == f.n &&
    var d := DecodeAll(f.p, 0, f.n, Flat(f.encoded[size.used..]));
    d.Value? && d.value == values
  }

  /** The coded values are what a reader sees, unless the count is too large to be read. */
  lemma CodedReads(f: Filter, values: seq<nat>)
    requires Coded(f, values)
    ensures f.n <= MAX_SIZE ==> ReadCompactSize(f.encoded).Size? && ReadsAs(f, values)
    ensures f.n <= MAX_SIZE ==> |DecodeAll(f.p, 0, f.n, Flat(f.encoded[|CompactSize(f.n)|..])).rest| < 8
    ensures f.n > MAX_SIZE ==> ReadCompactSize(f.encoded) == Bad
  {
    hide CodeAll, DecodeAll, Flat, ReadCompactSize, CompactSize;
    var k := |CompactSize(f.n)|;
    assert f.encoded == CompactSize(f.n) + f.encoded[k..];
    CountRoundTrip(f.n, f.encoded[k..]);
    var bits, body := CodeAll(f.p, 0, values), Flat(f.encoded[k..]);
    assert body == bits + body[|bits|..];
    ListRoundTrip(f.p, 0, values, body[|bits|..]);
  }

  lemma StartAscending(values: seq<nat>)
    requires Ascending(values)
    ensures Ascending([0] + values)
  {}

  method BuildFilter(hash: Hasher, p: nat, m: nat, elements: set<Element>) returns (r: Outcome, ghost values: seq<nat>)
    requires p < 64 && m < BASE
    ensures r.Thrown? <==> |elements| >= BASE
    ensures r.Built? ==> Shaped(r.filter) && r.filter.p == p && r.filter.m == m && r.filter.n == |elements|
    ensures r.Built? ==> (RangeFits(|elements|, m); HashesOf(hash, |elements| * m, elements, values)) && Coded(r.filter, values)
  {
    hide CodeAll, Code, Flat, BitsOf, CompactSize;
    values := [];
    if |elements| >= BASE { return Thrown, values; }
    var n := |elements|;
    RangeFits(n, m);
    var range := n * m;
    var hashed := BuildHashedSet(hash, range, elements);
    values := hashed;
    StartAscending(hashed);
    var body := [];
    if elements != {} {
      body := WriteAll(p, hashed);
    } else {
      NothingCoded(p);
    }
    var encoded := CompactSize(n) + body;
    assert encoded[|CompactSize(n)|..] == body;
    r := Built(Filter(p, m, n, range, encoded));
  }

  lemma NothingCoded(p: nat)
    ensures Ascending([0] + []) && CodeAll(p, 0, []) == [] && Flat([]) == []
  {}

  /** The differences of the values through a bit writer. */
  method WriteAll(p: nat, values: seq<nat>) returns (body: seq<nat>)
    requires p < 64 && Ascending([0] + values)
    requires forall i :: 0 <= i < |values| ==> values[i] < WORD
    ensures var bits := CodeAll(p, 0, values);
            |bits| <= |Flat(body)| < |bits| + 8 && Flat(body)[..|bits|] == bits
  {
    hide CodeAll, Code, Flat, BitsOf, ByteOk, Held;
    var writer := new BitWriter();
    var last := 0;
    ghost var all := CodeAll(p, 0, values);
    assert values[0..] == values;
    for i := 0 to |values|
      invariant fresh(writer) && writer.Valid()
      invariant last == if i == 0 then 0 else values[i - 1]
      invariant Ascending([last] + values[i..])
      invariant writer.Contents() + CodeAll(p, last, values[i..]) == all
    {
      CodeStep(p, last, values, i);
      Regroup(writer.Contents(), Code(p, values[i] - last), CodeAll(p, values[i], values[i + 1..]));
      GolombRiceEncode(writer, p, values[i] - last);
      last := values[i];
    }
    CodeEnd(p, last, values);
    assert writer.Contents() == all;
    FlushPads(writer.written, writer.buffer, writer.offset);
    writer.Flush();
    body := writer.written;
  }

  lemma CodeStep(p: nat, last: nat, values: seq<nat>, i: nat)
    requires i < |values| && Ascending([last] + values[i..])
    ensures last <= values[i] && Ascending([values[i]] + values[i + 1..])
    ensures CodeAll(p, last, values[i..]) == Code(p, values[i] - last) + CodeAll(p, values[i], values[i + 1..])
  {
    hide Code;
    AscendingTail(last, values[i..]);
    assert values[i..][1..] == values[i + 1..];
  }

  lemma CodeEnd(p: nat, last: nat, values: seq<nat>)
    ensures Ascending([last] + values[|values|..]) && CodeAll(p, last, values[|values|..]) == []
  {}

  /** Flushing adds the missing bits of the last byte and changes none. */
  lemma FlushPads(written: seq<nat>, buffer: nat, offset: nat)
    requires offset < 8 && ByteOk(buffer, offset)
    ensures var all, out := Flat(written) + Held(buffer, offset), written + if offset == 0 then [] else [buffer];
            |all| <= |Flat(out)| < |all| + 8 && Flat(out)[..|all|] == all
  {
    hide Pow2, BitsOf, Flat;
    if offset == 0 {
      assert Held(buffer, 0) == [];
      assert written + [] == written;
    } else {
      FlatSnoc(written, buffer);
      BitsSplit(buffer, offset, 8 - offset);
    }
  }

  /** Accepts an encoding that holds as many codes as it says and no further byte. */
  method ParseFilter(p: nat, m: nat, encoded: seq<nat>) returns (r: Outcome, ghost values: seq<nat>)
    requires p < 64 && m < BASE
    ensures r.Built? ==> ReadsAs(r.filter, values) && r.filter.encoded == encoded && r.filter.p == p && r.filter.m == m
    ensures r.Built? <==> var size := ReadCompactSize(encoded);
                          size.Size? && var d := DecodeAll(p, 0, size.n, Flat(encoded[size.used..])); d.Value? && |d.rest| < 8
  {
    hide DecodeOne, Flat, BitsOf, DecodeAll, ReadCompactSize;
    values := [];
    var size := ReadCompactSize(encoded);
    if size.Bad? { return Thrown, values; }
    var n := size.n;
    ghost var all := DecodeAll(p, 0, n, Flat(encoded[size.used..]));
    var reader := new BitReader(encoded, size.used);
    var ok := ReadCodes(reader, p, n);
    if !ok { return Thrown, values; }
    RestLength(reader.buffer, reader.offset, encoded, reader.pos);
    if reader.pos != |encoded| { return Thrown, values; }
    values := all.value;
    DecodedLength(p, 0, n, Flat(encoded[size.used..]));
    r := Built(Filter(p, m, n, n * m, encoded));
  }

  /** Reads n codes and forgets them; fails when the data runs out. */
  method ReadCodes(reader: BitReader, p: nat, n: nat) returns (ok: bool)
    requires reader.Valid() && reader.offset > 0 && p < 64
    modifies reader
    ensures reader.Valid() && reader.offset > 0
    ensures ok <==> DecodeAll(p, 0, n, old(reader.Remaining())).Value?
    ensures ok ==> reader.Remaining() == DecodeAll(p, 0, n, old(reader.Remaining())).rest
  {
    hide DecodeOne, Flat, BitsOf, DecodeAll;
    ghost var all := DecodeAll(p, 0, n, reader.Remaining());
    ghost var last: nat, done: seq<nat> := 0, [];
    assert [] + (if all.Value? then all.value else []) == (if all.Value? then all.value else []);
    for i := 0 to n
      invariant reader.Valid() && reader.offset > 0
      invariant Continues(all, done, DecodeAll(p, last, n - i, reader.Remaining()))
    {
      DecodeStep(p, last, n - i, reader.Remaining(), all, done);
      var delta;
      ok, delta := GolombRiceDecode(reader, p);
      if !ok { return; }
      done := done + [(last + delta) % WORD];
      last := (last + delta) % WORD;
    }
    DecodeNone(p, last, reader.Remaining());
    ok := true;
  }

  lemma DecodeNone(p: nat, last: nat, s: seq<bool>)
    ensures DecodeAll(p, last, 0, s) == Value([], s)
  {}

  lemma DecodeStep(p: nat, last: nat, n: nat, s: seq<bool>, all: Decoded<seq<nat>>, done: seq<nat>)
    requires n > 0 && Continues(all, done, DecodeAll(p, last, n, s))
    ensures var d := DecodeOne(p, s);
            if d.End? then all == End
            else var v := (last + d.value) % WORD; Continues(all, done + [v], DecodeAll(p, v, n - 1, d.rest))
  {
    hide DecodeOne;
    var d := DecodeOne(p, s);
    if d.Value? {
      var v := (last + d.value) % WORD;
      var t := DecodeAll(p, v, n - 1, d.rest);
      if t.Value? { Regroup(done, [v], t.value); }
    }
  }

  /** Nothing but padding is left exactly when the last byte has been fetched. */
  lemma RestLength(buffer: nat, offset: nat, data: seq<nat>, pos: nat)
    requires 0 < offset <= 8 && pos <= |data|
    ensures pos == |data| <==> |BitsOf(buffer, 8 - offset) + Flat(data[pos..])| < 8
  {}

  /** all is done followed by what is still to come. */
  ghost predicate Continues(all: Decoded<seq<nat>>, done: seq<nat>, next: Decoded<seq<nat>>) {
    all == if next.End? then End else Value(done + next.value, next.rest)
  }

  // ---- Matching ----

  ghost predicate Meets(values: seq<nat>, queries: seq<nat>) {
    exists v :: v in values && v in queries
  }

  /** The scan of two lists side by side, on any lists. */
  function MergeScan(values: seq<nat>, queries: seq<nat>): bool
    decreases |values| + |queries|
  {
    if values == [] || queries == [] then false
    else if queries[0] < values[0] then MergeScan(values, queries[1..])
    else queries[0] == values[0] || MergeScan(values[1..], queries)
  }

  /** True only if the lists share a value; exactly then when both ascend. */
  lemma {:induction false} MergeScanExactly(values: seq<nat>, queries: seq<nat>)
    ensures MergeScan(values, queries) ==> Meets(values, queries)
    ensures Ascending(values) && Ascending(queries) ==> (MergeScan(values, queries) <==> Meets(values, queries))
    decreases |values| + |queries|
  {
    if values != [] && queries != [] {
      MergeScanExactly(values, queries[1..]);
      MergeScanExactly(values[1..], queries);
      MeetsRest(values, queries);
    }
  }

  lemma MeetsRest(values: seq<nat>, queries: seq<nat>)
    requires values != [] && queries != []
    ensures Meets(values, queries[1..]) || Meets(values[1..], queries) || values[0] == queries[0] ==> Meets(values, queries)
    ensures Ascending(values) && queries[0] < values[0] && Meets(values, queries) ==> Meets(values, queries[1..])
    ensures Ascending(queries) && values[0] < queries[0] && Meets(values, queries) ==> Meets(values[1..], queries)
  {
    assert values[0] in values && queries[0] in queries;
    assert forall v :: v in values <==> v == values[0] || v in values[1..];
    assert forall v :: v in queries <==> v == queries[0] || v in queries[1..];
    if Meets(values, queries) {
      var v :| v in values && v in queries;
      assert Ascending(values) ==> values[0] <= v;
      assert Ascending(queries) ==> queries[0] <= v;
    }
  }

  /** Scans the decoded values against the queries. Throws only when the count cannot be read. */
  method MatchInternal(f: Filter, queries: seq<nat>, ghost values: seq<nat>) returns (threw: bool, r: bool)
    requires Shaped(f)
    requires ReadsAs(f, values) || ReadCompactSize(f.encoded).Bad?
    ensures threw <==> ReadCompactSize(f.encoded).Bad?
    ensures !threw ==> r == MergeScan(values, queries)
    ensures !threw && r ==> Meets(values, queries)
    ensures !threw && Ascending(values) && Ascending(queries) ==> (r <==> Meets(values, queries))
  {
    hide DecodeOne, Flat, BitsOf, DecodeAll, ReadCompactSize, Meets, Ascending, MergeScan, Continues;
    MergeScanExactly(values, queries);
    var size := ReadCompactSize(f.encoded);
    if size.Bad? { return true, false; }
    threw := false;
    var reader := new BitReader(f.encoded, size.used);
    ghost var all := DecodeAll(f.p, 0, f.n, Flat(f.encoded[size.used..]));
    ghost var done: seq<nat> := [];
    ContinuesStart(all);
    var value: nat := 0;
    var index := 0;
    assert values[0..] == values && queries[0..] == queries;
    for i := 0 to f.n
      invariant fresh(reader) && reader.Valid() && |done| == i && index <= |queries|
      invariant Continues(all, done, DecodeAll(f.p, value, f.n - i, reader.Remaining()))
      invariant MergeScan(values, queries) == MergeScan(values[i..], queries[index..])
    {
      DecodeStep(f.p, value, f.n - i, reader.Remaining(), all, done);
      var ok, delta := GolombRiceDecode(reader, f.p);
      assert ok;
      value := (value + delta) % WORD;
      done := done + [value];
      StillPrefix(all, done, DecodeAll(f.p, value, f.n - i - 1, reader.Remaining()));
      ghost var was := index;
      index := Advance(queries, index, value);
      ScanPast(values[i..], queries, was, index);
      ScanHere(values, i, queries, index);
      if index == |queries| { return false, false; }
      if queries[index] == value { return false, true; }
    }
    ScanNone(values[f.n..], queries[index..]);
    r := false;
  }

  lemma {:induction false} ScanPast(values: seq<nat>, queries: seq<nat>, start: nat, index: nat)
    requires values != [] && start <= index <= |queries|
    requires forall j :: start <= j < index ==> queries[j] < values[0]
    ensures MergeScan(values, queries[start..]) == MergeScan(values, queries[index..])
    decreases index - start
  {
    if start < index {
      assert queries[start..][1..] == queries[start + 1..];
      ScanPast(values, queries, start + 1, index);
    }
  }

  lemma ScanHere(values: seq<nat>, i: nat, queries: seq<nat>, index: nat)
    requires i < |values| && index <= |queries|
    requires index < |queries| ==> queries[index] >= values[i]
    ensures index == |queries| ==> !MergeScan(values[i..], queries[index..])
    ensures index < |queries| && queries[index] == values[i] ==> MergeScan(values[i..], queries[index..])
    ensures index < |queries| && queries[index] != values[i] ==>
              MergeScan(values[i..], queries[index..]) == MergeScan(values[i + 1..], queries[index..])
  {
    assert values[i..][1..] == values[i + 1..];
  }

  lemma ScanNone(values: seq<nat>, queries: seq<nat>)
    ensures values == [] ==> !MergeScan(values, queries)
  {}

  /** Skips the queries below value. */
  method Advance(queries: seq<nat>, start: nat, value: nat) returns (index: nat)
    requires start <= |queries|
    ensures start <= index <= |queries|
    ensures forall j :: start <= j < index ==> queries[j] < value
    ensures index < |queries| ==> queries[index] >= value
  {
    index := start;
    while index < |queries| && queries[index] < value
      invariant start <= index <= |queries|
      invariant forall j :: start <= j < index ==> queries[j] < value
    {
      index := index + 1;
    }
  }

  lemma ContinuesStart(all: Decoded<seq<nat>>)
    ensures Continues(all, [], all)
  {
    if all.Value? { assert [] + all.value == all.value; }
  }

  lemma StillPrefix(all: Decoded<seq<nat>>, done: seq<nat>, next: Decoded<seq<nat>>)
    requires all.Value? && Continues(all, done, next)
    ensures done <= all.value
  {}

  /** A built filter matches every element it was built from, unless it has more than MAX_SIZE of them. */
  method Match(hash: Hasher, f: Filter, e: Element, ghost values: seq<nat>) returns (threw: bool, r: bool)
    requires Coded(f, values) && f.range < WORD
    ensures threw <==> f.n > MAX_SIZE
    ensures !threw ==> (r <==> hash(e) * f.range / WORD in values)
    ensures !threw ==> forall elements :: HashesOf(hash, f.range, elements, values) && e in elements ==> r
  {
    hide HashToRange, ReadsAs, ReadCompactSize, HashesOf;
    CodedReads(f, values);
    CodedAscends(f, values);
    var query := HashToRange(hash, f.range, e);
    threw, r := MatchInternal(f, [query], values);
    assert query in [query];
    forall elements | HashesOf(hash, f.range, elements, values) && e in elements ensures query in values {
      HashesHave(hash, f.range, elements, values, e);
    }
  }

  lemma CodedAscends(f: Filter, values: seq<nat>)
    requires Coded(f, values)
    ensures Shaped(f) && Ascending(values)
  {
    assert values == ([0] + values)[1..];
  }

  method MatchAny(hash: Hasher, f: Filter, elements: set<Element>, ghost values: seq<nat>) returns (threw: bool, r: bool)
    requires Coded(f, values) && f.range < WORD
    ensures threw <==> f.n > MAX_SIZE
    ensures !threw ==> (r <==> exists e :: e in elements && hash(e) * f.range / WORD in values)
  {
    hide HashToRange, ReadsAs, ReadCompactSize, Coded, HashesOf, Meets, Ascending;
    CodedReads(f, values);
    CodedAscends(f, values);
    var queries := BuildHashedSet(hash, f.range, elements);
    MeetsElements(hash, f.range, elements, queries, values);
    threw, r := MatchInternal(f, queries, values);
  }

  lemma MeetsElements(hash: Hasher, range: nat, elements: set<Element>, queries: seq<nat>, values: seq<nat>)
    requires range < WORD && HashesOf(hash, range, elements, queries)
    ensures Ascending(queries)
    ensures Meets(values, queries) <==> exists e :: e in elements && HashToRange(hash, range, e) in values
  {
    hide HashToRange;
    if Meets(values, queries) {
      var v :| v in values && v in queries;
      var e := HashesFrom(hash, range, elements, queries, v);
    }
    forall e | e in elements && HashToRange(hash, range, e) in values ensures Meets(values, queries) {
      HashesHave(hash, range, elements, queries, e);
    }
  }

  /** A built filter is accepted when parsed, exactly when its count can be read. */
  lemma BuiltParses(f: Filter, values: seq<nat>)
    requires Coded(f, values)
    ensures var size := ReadCompactSize(f.encoded);
            f.n <= MAX_SIZE <==>
            size.Size? && var d := DecodeAll(f.p, 0, size.n, Flat(f.encoded[size.used..])); d.Value? && |d.rest| < 8
  {
    hide DecodeAll, Flat, ReadCompactSize, CompactSize;
    CodedReads(f, values);
    var k := |CompactSize(f.n)|;
    assert f.encoded == CompactSize(f.n) + f.encoded[k..] by { CodedPrefix(f, values); }
    CountRoundTrip(f.n, f.encoded[k..]);
  }

  lemma CodedPrefix(f: Filter, values: seq<nat>)
    requires Coded(f, values)
    ensures f.n < BASE && |CompactSize(f.n)| <= |f.encoded|
    ensures f.encoded == CompactSize(f.n) + f.encoded[|CompactSize(f.n)|..]
  {}
}
