/** The rolling bloom filter (src/bloom.cpp): no recently inserted item is ever forgotten. */
module RollingBloom {
  import opened Bits

  type Item = seq<nat>

  // ----- bits of 64-bit words -----

  predicate GetBit(w: bv64, b: bv6) { (w >> b) & 1 == 1 }

  function SetBit(w: bv64, b: bv6, v: bool): bv64 {
    (w & !((1 as bv64) << b)) | ((if v then 1 else 0 as bv64) << b)
  }

  // The word operations have names, so that proofs can use what they do to a bit and nothing else.

  function AndWord(x: bv64, y: bv64): bv64 { x & y }

  function OrWord(x: bv64, y: bv64): bv64 { x | y }

  function XorWord(x: bv64, y: bv64): bv64 { x ^ y }

  function Mask(v: bool): bv64 { (0 as bv64) - (if v then 1 else 0) }

  lemma SetBitGet(w: bv64, b: bv6, v: bool, c: bv6)
    ensures GetBit(SetBit(w, b, v), c) == if b == c then v else GetBit(w, c)
  {
  }

  /** The first and second word of a pair after the wipe of generation (g1, g2). */
  function WipeLow(p1: bv64, p2: bv64, g1: bool, g2: bool): bv64 {
    AndWord(p1, OrWord(XorWord(p1, Mask(g1)), XorWord(p2, Mask(g2))))
  }

  function WipeHigh(p1: bv64, p2: bv64, g1: bool, g2: bool): bv64 {
    AndWord(p2, OrWord(XorWord(p1, Mask(g1)), XorWord(p2, Mask(g2))))
  }

  lemma OrBits(x: bv64, y: bv64, b: bv6)
    ensures GetBit(OrWord(x, y), b) == (GetBit(x, b) || GetBit(y, b))
  {
    hide GetBit;
    OrRaw(x, y, b);
  }

  lemma OrRaw(x: bv64, y: bv64, b: bv6)
    ensures GetBit(x | y, b) == (GetBit(x, b) || GetBit(y, b))
  {
  }

  lemma AndBits(x: bv64, y: bv64, b: bv6)
    ensures GetBit(AndWord(x, y), b) == (GetBit(x, b) && GetBit(y, b))
  {
    hide GetBit;
    AndRaw(x, y, b);
  }

  lemma AndRaw(x: bv64, y: bv64, b: bv6)
    ensures GetBit(x & y, b) == (GetBit(x, b) && GetBit(y, b))
  {
  }

  lemma XorBits(x: bv64, y: bv64, b: bv6)
    ensures GetBit(XorWord(x, y), b) == (GetBit(x, b) != GetBit(y, b))
  {
    hide GetBit;
    XorRaw(x, y, b);
  }

  lemma XorRaw(x: bv64, y: bv64, b: bv6)
    ensures GetBit(x ^ y, b) == (GetBit(x, b) != GetBit(y, b))
  {
  }

  lemma MaskBits(v: bool, b: bv6)
    ensures GetBit(Mask(v), b) == v
  {
  }

  /** The word-parallel wipe: a position loses its bits exactly when they spell the generation. */
  lemma WipeBits(p1: bv64, p2: bv64, g1: bool, g2: bool, b: bv6)
    ensures var hit := GetBit(p1, b) == g1 && GetBit(p2, b) == g2;
            && GetBit(WipeLow(p1, p2, g1, g2), b) == (GetBit(p1, b) && !hit)
            && GetBit(WipeHigh(p1, p2, g1, g2), b) == (GetBit(p2, b) && !hit)
  {
    hide GetBit, Mask, AndWord, OrWord, XorWord;
    var x, y := XorWord(p1, Mask(g1)), XorWord(p2, Mask(g2));
    MaskBits(g1, b);
    MaskBits(g2, b);
    XorBits(p1, Mask(g1), b);
    XorBits(p2, Mask(g2), b);
    OrBits(x, y, b);
    AndBits(p1, OrWord(x, y), b);
    AndBits(p2, OrWord(x, y), b);
  }

  /** The generation, 1 to 3, that the two bits of a position spell; 0 when it is unset. */
  function Spell(lo: bv64, hi: bv64, b: bv6): nat {
    (if GetBit(lo, b) then 1 else 0) + (if GetBit(hi, b) then 2 else 0)
  }

  lemma SpellZero(b: bv6)
    ensures Spell(0, 0, b) == 0
  {
  }

  lemma SpellSet(lo: bv64, hi: bv64, b: bv6, g: nat, c: bv6)
    requires 1 <= g <= 3
    ensures Spell(SetBit(lo, b, g % 2 == 1), SetBit(hi, b, g / 2 == 1), c) == if b == c then g else Spell(lo, hi, c)
  {
    hide GetBit, SetBit;
    SetBitGet(lo, b, g % 2 == 1, c);
    SetBitGet(hi, b, g / 2 == 1, c);
  }

  lemma SpellWipe(lo: bv64, hi: bv64, g: nat, b: bv6)
    requires 1 <= g <= 3
    ensures Spell(WipeLow(lo, hi, g % 2 == 1, g / 2 == 1), WipeHigh(lo, hi, g % 2 == 1, g / 2 == 1), b) ==
            if Spell(lo, hi, b) == g then 0 else Spell(lo, hi, b)
  {
    hide GetBit, WipeLow, WipeHigh;
    WipeBits(lo, hi, g % 2 == 1, g / 2 == 1, b);
  }

  /** Labels repeat after three generations. */
  function Label(gen: nat): (r: nat)
    ensures 1 <= r <= 3
  {
    gen % 3 + 1
  }

  lemma LabelsDiffer(g: nat, h: nat)
    requires g < h <= g + 2
    ensures Label(g) != Label(h)
  {
  }

  lemma RecentGeneration(e: nat, gen: nat, t: nat, i: nat, g: nat)
    requires t <= e && i < (g + 1) * e && i >= gen * e + t - 2 * e
    ensures g + 2 >= gen
  {
    if g + 2 < gen {
      var d := gen - g - 3;
      Spread(g + 1, d, e);
      Spread(g + 1 + d, 2, e);
    }
  }

  lemma Spread(a: nat, b: nat, e: nat)
    ensures (a + b) * e == a * e + b * e && b * e >= 0
  {
  }

  // ----- the filter -----

  /** A place in the filter: bit `bit` of the words 2 * pair and 2 * pair + 1. */
  datatype Place = Place(pair: nat, bit: bv6)

  class RollingBloomFilter {
    const nHashFuncs: nat
    const nEntriesPerGeneration: nat
    /** MurmurHash3 with the seed that RollingBloomHash derives from the hash number and the tweak. */
    const hash: (nat, bv32, Item) -> bv32
    const data: array<bv64>
    var nTweak: bv32
    var nEntriesThisGeneration: nat
    var nGeneration: nat
    /** The items inserted since the last reset, and how many generations have begun before the current one. */
    ghost var history: seq<Item>
    ghost var past: nat

    ghost predicate Sized() {
      data.Length >= 2 && data.Length % 2 == 0
    }

    /** Where the n'th hash function puts an item. */
    function PlaceOf(n: nat, item: Item): (p: Place)
      requires Sized()
      reads this`nTweak
      ensures 2 * p.pair + 1 < data.Length
      ensures var h := hash(n, nTweak, item);
              p.pair == (h as int * data.Length / 0x1_0000_0000) / 2 && p.bit == (h & 0x3F) as bv6
    {
      var h := hash(n, nTweak, item);
      Place(FastMod(h as int, data.Length) / 2, (h & 0x3F) as bv6)
    }

    /** The generation recorded at a place. */
    function At(p: Place): nat
      requires Sized() && 2 * p.pair + 1 < data.Length
      reads data
    {
      Spell(data[2 * p.pair], data[2 * p.pair + 1], p.bit)
    }

    /** The place was last written in a generation from `gen` to the current one, and not wiped since. */
    ghost predicate WrittenSince(p: Place, gen: nat)
      requires Sized() && 2 * p.pair + 1 < data.Length
      reads this`past, data
    {
      exists g :: gen <= g <= past && At(p) == Label(g)
    }

    /** Items fill one generation after the other. */
    ghost predicate InGeneration(i: nat, gen: nat) {
      gen * nEntriesPerGeneration <= i < (gen + 1) * nEntriesPerGeneration
    }

    ghost predicate Covered(i: nat, gen: nat)
      requires Sized() && i < |history|
      reads this, data
    {
      forall n :: 0 <= n < nHashFuncs ==> WrittenSince(PlaceOf(n, history[i]), gen)
    }

    ghost predicate Valid()
      reads this, data
    {
      && Sized()
      && 1 <= nGeneration <= 3
      && (nEntriesPerGeneration > 0 ==>
            && nEntriesThisGeneration <= nEntriesPerGeneration
            && nGeneration == Label(past)
            && |history| == past * nEntriesPerGeneration + nEntriesThisGeneration
            && forall i: nat, gen: nat :: i < |history| && past <= gen + 2 && InGeneration(i, gen) ==> Covered(i, gen))
    }

    constructor (nElements: nat, nHashFuncs: nat, words: nat, hash: (nat, bv32, Item) -> bv32, tweak: bv32)
      requires words >= 2 && words % 2 == 0
      ensures Valid() && fresh(data) && history == [] && nEntriesPerGeneration == (nElements + 1) / 2
      ensures nTweak == tweak && Unset()
      ensures this.nHashFuncs == nHashFuncs && data.Length == words && this.hash == hash
    {
      this.nHashFuncs, this.nEntriesPerGeneration, this.hash := nHashFuncs, (nElements + 1) / 2, hash;
      this.data := new bv64[words](i => 0);
      this.nTweak, this.nEntriesThisGeneration, this.nGeneration := tweak, 0, 1;
      this.history, this.past := [], 0;
      new;
      ZerosUnset();
    }

    /** No place carries a generation. */
    ghost predicate Unset()
      requires Sized()
      reads data
    {
      forall p: Place :: 2 * p.pair + 1 < data.Length ==> At(p) == 0
    }

    lemma ZerosUnset()
      requires Sized() && forall i :: 0 <= i < data.Length ==> data[i] == 0
      ensures Unset()
    {
      hide Spell;
      forall p: Place | 2 * p.pair + 1 < data.Length ensures At(p) == 0 {
        SpellZero(p.bit);
      }
    }

    method Reset(tweak: bv32)
      requires Valid()
      modifies this, data
      ensures Valid() && history == [] && nTweak == tweak && Unset()
      ensures nGeneration == 1 && nEntriesThisGeneration == 0
    {
      nTweak, nEntriesThisGeneration, nGeneration := tweak, 0, 1;
      history, past := [], 0;
      for i := 0 to data.Length
        invariant forall k :: 0 <= k < i ==> data[k] == 0
        modifies data
      {
        data[i] := 0;
      }
      ZerosUnset();
    }

    /** Clears exactly the places that carry the current generation's label. */
    method Wipe()
      requires Sized() && 1 <= nGeneration <= 3
      modifies data
      ensures forall p: Place :: 2 * p.pair + 1 < data.Length ==>
                At(p) == if old(At(p)) == nGeneration then 0 else old(At(p))
    {
      hide Spell, WipeLow, WipeHigh;
      var g1, g2 := nGeneration % 2 == 1, nGeneration / 2 == 1;
      var p := 0;
      while p < data.Length
        invariant 0 <= p <= data.Length && p % 2 == 0
        invariant forall k :: 0 <= k && 2 * k + 1 < p ==>
                    && data[2 * k] == WipeLow(old(data[2 * k]), old(data[2 * k + 1]), g1, g2)
                    && data[2 * k + 1] == WipeHigh(old(data[2 * k]), old(data[2 * k + 1]), g1, g2)
        invariant forall k :: p <= k < data.Length ==> data[k] == old(data[k])
      {
        var p1, p2 := data[p], data[p + 1];
        data[p] := WipeLow(p1, p2, g1, g2);
        data[p + 1] := WipeHigh(p1, p2, g1, g2);
        p := p + 2;
      }
      forall q: Place | 2 * q.pair + 1 < data.Length
        ensures At(q) == if old(At(q)) == nGeneration then 0 else old(At(q))
      {
        SpellWipe(old(data[2 * q.pair]), old(data[2 * q.pair + 1]), nGeneration, q.bit);
      }
    }

    /** Marks one place with the current generation. */
    method Mark(p: Place)
      requires Sized() && 1 <= nGeneration <= 3 && 2 * p.pair + 1 < data.Length
      modifies data
      ensures forall q: Place :: 2 * q.pair + 1 < data.Length ==> At(q) == if q == p then nGeneration else old(At(q))
    {
      hide Spell, SetBit;
      data[2 * p.pair] := SetBit(data[2 * p.pair], p.bit, nGeneration % 2 == 1);
      data[2 * p.pair + 1] := SetBit(data[2 * p.pair + 1], p.bit, nGeneration / 2 == 1);
      forall q: Place | 2 * q.pair + 1 < data.Length ensures At(q) == if q == p then nGeneration else old(At(q)) {
        SpellSet(old(data[2 * p.pair]), old(data[2 * p.pair + 1]), p.bit, nGeneration, q.bit);
      }
    }

    ghost predicate IsPlaceOf(p: Place, item: Item, k: nat)
      requires Sized()
      reads this`nTweak
    {
      exists n :: 0 <= n < k && p == PlaceOf(n, item)
    }

    method MarkAll(item: Item)
      requires Sized() && 1 <= nGeneration <= 3
      modifies data
      ensures forall q: Place :: 2 * q.pair + 1 < data.Length ==>
                At(q) == if IsPlaceOf(q, item, nHashFuncs) then nGeneration else old(At(q))
    {
      hide Spell;
      for n := 0 to nHashFuncs
        invariant forall q: Place :: 2 * q.pair + 1 < data.Length ==>
                    At(q) == if IsPlaceOf(q, item, n) then nGeneration else old(At(q))
      {
        label Before: assert true;
        Mark(PlaceOf(n, item));
        forall q: Place | 2 * q.pair + 1 < data.Length
          ensures At(q) == if IsPlaceOf(q, item, n + 1) then nGeneration else old(At(q))
        {
          assert IsPlaceOf(q, item, n + 1) <==> IsPlaceOf(q, item, n) || q == PlaceOf(n, item);
        }
      }
    }

    /** True exactly when every place of the item is set, so true for every item of the last two generations. */
    method Contains(item: Item) returns (r: bool)
      requires Valid()
      ensures r == forall n :: 0 <= n < nHashFuncs ==> At(PlaceOf(n, item)) != 0
      ensures forall i :: 0 <= i < |history| && i >= |history| - 2 * nEntriesPerGeneration && history[i] == item ==> r
    {
      hide GetBit, OrWord;
      r := true;
      for n := 0 to nHashFuncs
        invariant r && forall k :: 0 <= k < n ==> At(PlaceOf(k, item)) != 0
      {
        var p := PlaceOf(n, item);
        OrBits(data[2 * p.pair], data[2 * p.pair + 1], p.bit);
        if !GetBit(OrWord(data[2 * p.pair], data[2 * p.pair + 1]), p.bit) {
          r := false;
          break;
        }
      }
      forall i | 0 <= i < |history| && i >= |history| - 2 * nEntriesPerGeneration && history[i] == item
        ensures forall n :: 0 <= n < nHashFuncs ==> At(PlaceOf(n, item)) != 0
      {
        RecentIsCovered(i);
      }
    }

    lemma RecentIsCovered(i: nat)
      requires Valid() && i < |history| && i >= |history| - 2 * nEntriesPerGeneration
      ensures forall n :: 0 <= n < nHashFuncs ==> At(PlaceOf(n, history[i])) != 0
    {
      hide Spell, FastMod;
      var e := nEntriesPerGeneration;
      var gen := i / e;
      assert gen * e <= i < (gen + 1) * e by { Divides(i, e); }
      RecentGeneration(e, past, nEntriesThisGeneration, i, gen);
      assert Covered(i, gen);
    }

    static lemma Divides(i: nat, e: nat)
      requires e > 0
      ensures (i / e) * e <= i < (i / e + 1) * e
    {
      assert i == (i / e) * e + i % e;
    }

    /** Every item of the generations from two before `now` on still has all its places written since. */
    ghost predicate AllCovered(now: nat)
      requires Sized()
      reads this, data
    {
      forall i: nat, gen: nat :: i < |history| && now <= gen + 2 && InGeneration(i, gen) ==> Covered(i, gen)
    }

    /** A generation is full: the next one begins, and the places that carry its label are wiped. */
    method BeginGeneration()
      requires Valid()
      modifies this`nEntriesThisGeneration, this`nGeneration, this`past, data
      ensures Sized() && nEntriesThisGeneration == 0 && past == old(past) + 1
      ensures nGeneration == old(nGeneration) % 3 + 1
      ensures forall p: Place :: 2 * p.pair + 1 < data.Length ==>
                At(p) == if old(At(p)) == nGeneration then 0 else old(At(p))
      ensures nEntriesPerGeneration > 0 ==> AllCovered(past)
    {
      hide Spell, FastMod, Label;
      nEntriesThisGeneration := 0;
      nGeneration := nGeneration + 1;
      if nGeneration == 4 { nGeneration := 1; }
      Wipe();
      past := past + 1;
      if nEntriesPerGeneration > 0 {
        assert nGeneration == Label(past) by { NextLabel(old(past)); }
        forall i: nat, gen: nat | i < |history| && past <= gen + 2 && InGeneration(i, gen) ensures Covered(i, gen) {
          assert old(Covered(i, gen));
          forall n | 0 <= n < nHashFuncs ensures WrittenSince(PlaceOf(n, history[i]), gen) {
            assert old(WrittenSince(PlaceOf(n, history[i]), gen));
            ghost var g :| gen <= g <= old(past) && old(At(PlaceOf(n, history[i]))) == Label(g);
            LabelsDiffer(g, past);
          }
        }
      }
    }

    static lemma NextLabel(g: nat)
      ensures Label(g + 1) == Label(g) % 3 + 1
    {
    }

    /** Marks the places of one more item of the current generation. */
    method Insert(item: Item)
      requires Valid()
      modifies this, data
      ensures Valid() && history == old(history) + [item] && nTweak == old(nTweak)
      ensures nGeneration == if old(nEntriesThisGeneration) == nEntriesPerGeneration
                             then old(nGeneration) % 3 + 1 else old(nGeneration)
      ensures forall p: Place :: 2 * p.pair + 1 < data.Length ==>
                At(p) == if IsPlaceOf(p, item, nHashFuncs) then nGeneration
                         else if nGeneration != old(nGeneration) && old(At(p)) == nGeneration then 0 else old(At(p))
    {
      hide Spell, FastMod, Label;
      if nEntriesThisGeneration == nEntriesPerGeneration {
        BeginGeneration();
      } else {
        assert nEntriesPerGeneration > 0 ==> AllCovered(past);
      }
      assert nEntriesPerGeneration > 0 ==> nGeneration == Label(past) by { NextLabel(old(past)); }
      nEntriesThisGeneration := nEntriesThisGeneration + 1;
      label Marking:
      MarkAll(item);
      history := history + [item];
      if nEntriesPerGeneration > 0 {
        assert |history| == past * nEntriesPerGeneration + nEntriesThisGeneration by {
          Spread(old(past), 1, nEntriesPerGeneration);
        }
        forall i: nat, gen: nat | i < |history| && past <= gen + 2 && InGeneration(i, gen) ensures Covered(i, gen) {
          if i < |history| - 1 {
            assert old@Marking(Covered(i, gen));
          } else {
            NewestGeneration(nEntriesPerGeneration, past, nEntriesThisGeneration, gen);
          }
          forall n | 0 <= n < nHashFuncs ensures WrittenSince(PlaceOf(n, history[i]), gen) {
            var p := PlaceOf(n, history[i]);
            if i < |history| - 1 {
              assert old@Marking(WrittenSince(p, gen));
            } else {
              assert IsPlaceOf(p, item, nHashFuncs);
            }
            assert At(p) == nGeneration ==> At(p) == Label(past);
          }
        }
      }
    }

    static lemma NewestGeneration(e: nat, past: nat, t: nat, gen: nat)
      requires t <= e && gen * e <= past * e + t - 1
      ensures gen <= past
    {
      Spread(past, 1, e);
      if gen > past { Spread(past + 1, gen - past - 1, e); }
    }
  }
}
