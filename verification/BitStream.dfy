/** Bit strings, most significant bit first, and the byte streams that carry them. */
module BitStream {
  import opened Bits
  import opened Limbs
  import opened ArithSteps

  /** The n low bits of x. */
  function BitsOf(x: nat, n: nat): (s: seq<bool>)
    ensures |s| == n
  {
    if n == 0 then [] else BitsOf(x / 2, n - 1) + [x % 2 == 1]
  }

  /** The bits of a byte string. */
  function Flat(bytes: seq<nat>): (s: seq<bool>)
    ensures |s| == 8 * |bytes|
  {
    if bytes == [] then [] else BitsOf(bytes[0], 8) + Flat(bytes[1..])
  }

  lemma {:induction false} FlatSnoc(bytes: seq<nat>, b: nat)
    ensures Flat(bytes + [b]) == Flat(bytes) + BitsOf(b, 8)
  {
    if bytes == [] {
      assert [] + [b] == [b] && [b][1..] == [];
    } else {
      FlatSnoc(bytes[1..], b);
      assert (bytes + [b])[1..] == bytes[1..] + [b];
    }
  }

  lemma {:induction false} BitsSplit(x: nat, a: nat, b: nat)
    ensures x / Pow2(b) >= 0 && BitsOf(x, a + b) == BitsOf(x / Pow2(b), a) + BitsOf(x, b)
  {
    DivideSmaller(x, Pow2(b));
    if b == 0 {
      Quotient(x, x, 1, 0);
    } else {
      BitsSplit(x / 2, a, b - 1);
      DivideTwice(x, 2, Pow2(b - 1));
    }
  }

  lemma {:induction false} BitsModulo(x: nat, k: nat, n: nat)
    ensures BitsOf(x + k * Pow2(n), n) == BitsOf(x, n)
  {
    if n > 0 {
      assert k * Pow2(n) == 2 * (k * Pow2(n - 1));
      BitsModulo(x / 2, k, n - 1);
    }
  }

  lemma BitsOfRemainder(x: nat, n: nat)
    ensures BitsOf(x % Pow2(n), n) == BitsOf(x, n)
  {
    Euclid(x, Pow2(n));
    DivideSmaller(x, Pow2(n));
    BitsModulo(x % Pow2(n), x / Pow2(n), n);
  }

  /** Appending k bits to a number appends them to its bits. */
  lemma BitsAppend(x: nat, n: nat, y: nat, k: nat)
    requires y < Pow2(k)
    ensures BitsOf(x * Pow2(k) + y, n + k) == BitsOf(x, n) + BitsOf(y, k)
  {
    hide BitsOf, Pow2;
    BitsSplit(x * Pow2(k) + y, n, k);
    Quotient(x * Pow2(k) + y, x, Pow2(k), y);
    BitsModulo(y, x, k);
  }

  lemma RemainderOfQuotient(x: nat, a: nat, b: nat)
    requires a > 0 && b > 0
    ensures a * b > 0 && (x % (a * b)) / b == (x / b) % a
  {
    var q, r := x / b, x % b;
    Euclid(x, b);
    var u, v := q / a, q % a;
    Euclid(q, a);
    NestedRemainder(x, b, a, q, r, u, v);
    Quotient(x, u, b * a, v * b + r);
    assert a * b == b * a;
    Quotient(v * b + r, v, b, r);
  }

  // ---- Writing ----

  /** The byte-sized part of (data << (64 - nbits)) >> (56 + offset). */
  function Chunk(data: nat, nbits: nat, bits: nat): nat
    requires bits <= nbits
  {
    DivideSmaller(data % Pow2(nbits), Pow2(nbits - bits));
    (data % Pow2(nbits)) / Pow2(nbits - bits)
  }

  lemma ChunkBits(data: nat, nbits: nat, bits: nat)
    requires bits <= nbits
    ensures Chunk(data, nbits, bits) < Pow2(bits)
    ensures BitsOf(data, nbits) == BitsOf(Chunk(data, nbits, bits), bits) + BitsOf(data, nbits - bits)
  {
    hide Pow2, BitsOf;
    var rest := nbits - bits;
    Pow2Add(bits, rest);
    RemainderOfQuotient(data, Pow2(bits), Pow2(rest));
    BitsSplit(data, bits, rest);
    DivideSmaller(data, Pow2(rest));
    BitsOfRemainder(data / Pow2(rest), bits);
  }

  /** What the two shifts of a 64-bit word leave. */
  function Aligned(data: nat, nbits: nat, offset: nat): nat
    requires nbits <= 64 && offset < 8
  {
    DivideSmaller(data * Pow2(64 - nbits) % Pow2(64), Pow2(56 + offset));
    data * Pow2(64 - nbits) % Pow2(64) / Pow2(56 + offset)
  }

  lemma AlignedIs(data: nat, nbits: nat, offset: nat, bits: nat)
    requires 0 < nbits <= 64 && offset < 8 && bits == (if 8 - offset < nbits then 8 - offset else nbits)
    ensures Aligned(data, nbits, offset) == Chunk(data, nbits, bits) * Pow2(8 - offset - bits)
  {
    hide Pow2;
    var d := data % Pow2(nbits);
    Pow2Add(nbits, 64 - nbits);
    ScaledRemainder(data, Pow2(nbits), Pow2(64 - nbits));
    Pow2Values();
    if bits == nbits {
      var up := 8 - offset - nbits;
      Pow2Add(up, 56 + offset);
      Associate(d, Pow2(up), Pow2(56 + offset));
      Quotient(d * Pow2(64 - nbits), d * Pow2(up), Pow2(56 + offset), 0);
      Quotient(d, d, 1, 0);
    } else {
      Pow2Add(64 - nbits, nbits - bits);
      DivideTwice(d * Pow2(64 - nbits), Pow2(64 - nbits), Pow2(nbits - bits));
      Quotient(d * Pow2(64 - nbits), d, Pow2(64 - nbits), 0);
    }
  }

  lemma ScaledRemainder(x: nat, m: nat, k: nat)
    requires m > 0 && k > 0
    ensures m * k > 0 && (x * k) % (m * k) == (x % m) * k
  {
    var q, r := x / m, x % m;
    Euclid(x, m);
    Distribute(q * m, r, k);
    Associate(q, m, k);
    MulMonotone(r + 1, m, k);
    Distribute(r, 1, k);
    MulMonotone(0, r, k);
    Quotient(x * k, q, m * k, r * k);
  }

  /** The bits held in a partly filled byte. */
  function Held(buffer: nat, offset: nat): (s: seq<bool>)
    requires offset <= 8
  {
    DivideSmaller(buffer, Pow2(8 - offset));
    BitsOf(buffer / Pow2(8 - offset), offset)
  }

  ghost predicate ByteOk(buffer: nat, offset: nat) {
    offset <= 8 && buffer < 256 && buffer % Pow2(8 - offset) == 0
  }

  lemma FillByte(buffer: nat, offset: nat, chunk: nat, bits: nat)
    requires ByteOk(buffer, offset) && offset + bits <= 8 && chunk < Pow2(bits)
    ensures var term := chunk * Pow2(8 - offset - bits);
            term >= 0 && Or(buffer, term) == buffer + term && ByteOk(buffer + term, offset + bits) &&
            Held(buffer + term, offset + bits) == Held(buffer, offset) + BitsOf(chunk, bits)
  {
    hide Pow2, BitsOf, Or;
    var room := 8 - offset - bits;
    var u := Pow2(room);
    var term := chunk * u;
    Pow2Add(bits, room);
    Pow2Add(offset, 8 - offset);
    Pow2Values();
    var high := buffer / Pow2(8 - offset);
    Euclid(buffer, Pow2(8 - offset));
    DivideSmaller(buffer, Pow2(8 - offset));
    MulMonotone(chunk + 1, Pow2(bits), u);
    Distribute(chunk, 1, u);
    MulMonotone(0, chunk, u);
    OrDisjoint(high, term, 8 - offset);
    TopMultiple(buffer, high, Pow2(8 - offset), Pow2(offset), 256);
    Associate(high, Pow2(bits), u);
    Distribute(high * Pow2(bits), chunk, u);
    Quotient(buffer + term, high * Pow2(bits) + chunk, u, 0);
    BitsAppend(high, offset, chunk, bits);
  }

  class BitWriter {
    var written: seq<nat>
    var buffer: nat
    var offset: nat

    ghost predicate Valid()
      reads this
    {
      offset < 8 && ByteOk(buffer, offset) && forall i :: 0 <= i < |written| ==> written[i] < 256
    }

    /** Every bit written so far, flushed or not. */
    ghost function Contents(): (s: seq<bool>)
      requires Valid()
      reads this
    {
      Flat(written) + Held(buffer, offset)
    }

    constructor ()
      ensures Valid() && Contents() == []
    {
      written, buffer, offset := [], 0, 0;
      new;
      Empty();
    }

    lemma Empty()
      requires written == [] && buffer == 0 && offset == 0
      ensures Valid() && Contents() == []
    {
      Quotient(0, 0, Pow2(8), 0);
    }

    method Write(data: nat, count: int) returns (ok: bool)
      requires Valid() && data < 0x1_0000_0000_0000_0000
      modifies this
      ensures Valid() && (ok <==> 0 <= count <= 64)
      ensures Contents() == old(Contents()) + if ok then BitsOf(data, count) else []
    {
      hide Pow2, BitsOf, Flat, Held, ByteOk, Aligned, Chunk, Or;
      if count < 0 || count > 64 { return false; }
      var nbits := count;
      ghost var start := Contents();
      ghost var done := [];
      while nbits > 0
        invariant 0 <= nbits <= count
        invariant Valid() && Contents() == start + done
        invariant done + BitsOf(data, nbits) == BitsOf(data, count)
      {
        var bits := if 8 - offset < nbits then 8 - offset else nbits;
        ghost var chunk := Chunk(data, nbits, bits);
        ghost var old_held := Held(buffer, offset);
        AlignedIs(data, nbits, offset, bits);
        ChunkBits(data, nbits, bits);
        FillByte(buffer, offset, chunk, bits);
        buffer := Or(buffer, Aligned(data, nbits, offset));
        offset := offset + bits;
        nbits := nbits - bits;
        Regroup(Flat(written), old_held, BitsOf(chunk, bits));
        Regroup(start, done, BitsOf(chunk, bits));
        Regroup(done, BitsOf(chunk, bits), BitsOf(data, nbits));
        done := done + BitsOf(chunk, bits);
        assert Flat(written) + Held(buffer, offset) == start + done;
        if offset == 8 {
          FullByte(buffer);
          FlatSnoc(written, buffer);
          Flush();
        }
      }
      NoBits(data);
      ok := true;
    }

    /** Hands over the current byte, with zeros in the bits not yet written. */
    method Flush()
      requires offset <= 8 && ByteOk(buffer, offset) && forall i :: 0 <= i < |written| ==> written[i] < 256
      modifies this
      ensures Valid() && offset == 0
      ensures written == old(written) + if old(offset) == 0 then [] else [old(buffer)]
      ensures old(offset) > 0 ==> Contents() == Flat(written)
      ensures old(offset) == 0 ==> unchanged(this)
    {
      hide Flat;
      if offset == 0 { return; }
      BufferByte(buffer, offset);
      written := written + [buffer];
      buffer := 0;
      offset := 0;
      Quotient(0, 0, Pow2(8), 0);
    }
  }

  lemma Regroup<T>(a: seq<T>, b: seq<T>, c: seq<T>)
    ensures (a + b) + c == a + (b + c)
  {}

  lemma BufferByte(buffer: nat, offset: nat)
    requires ByteOk(buffer, offset)
    ensures buffer < 256
  {}

  lemma NoBits(data: nat)
    ensures BitsOf(data, 0) == []
  {}

  lemma FullByte(buffer: nat)
    ensures Held(buffer, 8) == BitsOf(buffer, 8)
  {
    Quotient(buffer, buffer, 1, 0);
  }

  // ---- Reading ----

  /** The next bits of a partly read byte: (uint8)(buffer << offset) >> (8 - bits). */
  function Piece(buffer: nat, offset: nat, bits: nat): nat
    requires offset + bits <= 8
  {
    DivideSmaller(buffer * Pow2(offset) % 256, Pow2(8 - bits));
    buffer * Pow2(offset) % 256 / Pow2(8 - bits)
  }

  lemma PieceBits(buffer: nat, offset: nat, bits: nat)
    requires offset + bits <= 8
    ensures Piece(buffer, offset, bits) < Pow2(bits)
    ensures BitsOf(buffer, 8 - offset) == BitsOf(Piece(buffer, offset, bits), bits) + BitsOf(buffer, 8 - offset - bits)
  {
    hide Pow2, BitsOf;
    var left := 8 - offset;
    Pow2Values();
    Pow2Add(left, offset);
    ScaledRemainder(buffer, Pow2(left), Pow2(offset));
    Pow2Add(offset, left - bits);
    var low := buffer % Pow2(left);
    DivideTwice(low * Pow2(offset), Pow2(offset), Pow2(left - bits));
    Quotient(low * Pow2(offset), low, Pow2(offset), 0);
    assert Piece(buffer, offset, bits) == Chunk(buffer, left, bits);
    ChunkBits(buffer, left, bits);
  }

  /** data << bits | piece, in 64 bits. */
  function Push(data: nat, bits: nat, piece: nat): nat {
    Or(data * Pow2(bits) % Pow2(64), piece)
  }

  lemma Accumulate(data: nat, done: nat, piece: nat, bits: nat)
    requires data < Pow2(done) && piece < Pow2(bits) && done + bits <= 64
    ensures Push(data, bits, piece) < Pow2(done + bits)
    ensures BitsOf(Push(data, bits, piece), done + bits) == BitsOf(data, done) + BitsOf(piece, bits)
  {
    hide Pow2, BitsOf, Or;
    Pow2Add(done, bits);
    Pow2Monotone(done + bits, 64);
    MulMonotone(data + 1, Pow2(done), Pow2(bits));
    Distribute(data, 1, Pow2(bits));
    MulMonotone(0, data, Pow2(bits));
    Quotient(data * Pow2(bits), 0, Pow2(64), data * Pow2(bits));
    OrDisjoint(data, piece, bits);
    BitsAppend(data, done, piece, bits);
  }

  class BitReader {
    const data: seq<nat>
    var pos: nat
    var buffer: nat
    var offset: nat

    ghost predicate Valid()
      reads this
    {
      pos <= |data| && offset <= 8
    }

    /** The bits not yet read. */
    ghost function Remaining(): (s: seq<bool>)
      requires Valid()
      reads this
    {
      BitsOf(buffer, 8 - offset) + Flat(data[pos..])
    }

    constructor (bytes: seq<nat>, start: nat)
      requires start <= |bytes|
      ensures data == bytes && Valid() && Remaining() == Flat(bytes[start..]) && offset > 0
    {
      data, pos, buffer, offset := bytes, start, 0, 8;
    }

    /** Fetches the next byte when the current one is used up; fails at the end of the data. */
    method Refill() returns (ok: bool)
      requires Valid()
      modifies this`pos, this`buffer, this`offset
      ensures Valid() && Remaining() == old(Remaining())
      ensures ok <==> Remaining() != []
      ensures ok ==> offset < 8
      ensures !ok ==> offset == old(offset)
    {
      hide BitsOf, Flat;
      ok := true;
      if offset == 8 {
        NoBits(buffer);
        EndOfFlat(data, pos);
        if pos == |data| {
          return false;
        }
        NextByte(data, pos);
        buffer := data[pos];
        pos := pos + 1;
        offset := 0;
      }
    }

    /** The next bits of the current byte. */
    method Take(bits: nat) returns (piece: nat)
      requires Valid() && bits <= 8 - offset
      modifies this`offset
      ensures Valid() && piece < Pow2(bits) && offset == old(offset) + bits
      ensures old(Remaining()) == BitsOf(piece, bits) + Remaining()
    {
      hide Pow2, BitsOf, Flat, Piece;
      PieceBits(buffer, offset, bits);
      piece := Piece(buffer, offset, bits);
      Regroup(BitsOf(piece, bits), BitsOf(buffer, 8 - offset - bits), Flat(data[pos..]));
      offset := offset + bits;
    }

    /** The next count bits as a number; fails when there are not that many. */
    method Read(count: int) returns (ok: bool, r: nat)
      requires Valid()
      modifies this
      ensures Valid() && (old(offset) > 0 ==> offset > 0)
      ensures ok <==> 0 <= count <= 64 && count <= |old(Remaining())|
      ensures ok ==> r < Pow2(count) && BitsOf(r, count) == old(Remaining())[..count] && Remaining() == old(Remaining())[count..]
    {
      hide Pow2, BitsOf, Flat, Push;
      if count < 0 || count > 64 { return false, 0; }
      var nbits := count;
      r := 0;
      ghost var start := Remaining();
      NoBits(0);
      Pow2Values();
      while nbits > 0
        invariant 0 <= nbits <= count && Valid() && (old(offset) > 0 ==> offset > 0)
        invariant r < Pow2(count - nbits)
        invariant BitsOf(r, count - nbits) + Remaining() == start
      {
        var more := Refill();
        if !more {
          return false, r;
        }
        var bits := if 8 - offset < nbits then 8 - offset else nbits;
        var piece := Take(bits);
        Regroup(BitsOf(r, count - nbits), BitsOf(piece, bits), Remaining());
        Accumulate(r, count - nbits, piece, bits);
        r := Push(r, bits, piece);
        nbits := nbits - bits;
      }
      ReadDone(BitsOf(r, count), Remaining(), start);
      ok := true;
    }
  }

  lemma ReadDone<T>(a: seq<T>, b: seq<T>, s: seq<T>)
    requires a + b == s
    ensures |a| <= |s| && s[..|a|] == a && s[|a|..] == b
  {}

  lemma NextByte(data: seq<nat>, pos: nat)
    requires pos < |data|
    ensures Flat(data[pos..]) == BitsOf(data[pos], 8) + Flat(data[pos + 1..])
  {
    assert data[pos..][1..] == data[pos + 1..];
  }

  lemma EndOfFlat(data: seq<nat>, pos: nat)
    requires pos <= |data|
    ensures pos == |data| ==> Flat(data[pos..]) == []
  {}
}
