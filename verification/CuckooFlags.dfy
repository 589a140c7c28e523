/** The garbage-collection flags of the cuckoo cache, eight to a byte (src/cuckoocache.h). */
module CuckooFlags {

  function BitMask(i: nat): bv8
    requires i < 8
  {
    [1, 2, 4, 8, 16, 32, 64, 128][i]
  }

  function BitOf(m: bv8, i: nat): bool
    requires i < 8
  {
    m & BitMask(i) != 0
  }

  lemma OrSets(m: bv8, i: nat, j: nat)
    requires i < 8 && j < 8
    ensures BitOf(m | BitMask(i), j) == (i == j || BitOf(m, j))
  {
    MasksDisjoint(i, j);
    OrDisjoint(m, BitMask(i), BitMask(j));
  }

  lemma AndClears(m: bv8, i: nat, j: nat)
    requires i < 8 && j < 8
    ensures BitOf(m & !BitMask(i), j) == (i != j && BitOf(m, j))
  {
    MasksDisjoint(i, j);
    ClearDisjoint(m, BitMask(i), BitMask(j));
  }

  lemma MasksDisjoint(i: nat, j: nat)
    requires i < 8 && j < 8
    ensures BitMask(i) & BitMask(j) == if i == j then BitMask(i) else 0
    ensures BitMask(i) != 0
  {
  }

  lemma OrDisjoint(m: bv8, a: bv8, b: bv8)
    ensures a & b == 0 ==> (m | a) & b == m & b
    ensures (m | a) & a == a
  {
  }

  lemma ClearDisjoint(m: bv8, a: bv8, b: bv8)
    ensures a & b == 0 ==> (m & !a) & b == m & b
    ensures (m & !a) & a == 0
  {
  }

  class BitPackedFlags {
    const size: nat
    const mem: array<bv8>

    ghost predicate Sized() {
      mem.Length == (size + 7) / 8
    }

    function IsSet(s: nat): bool
      requires Sized() && s < size
      reads mem
    {
      BitOf(mem[s / 8], s % 8)
    }

    /** All flags start out set. */
    constructor (size: nat)
      ensures Sized() && fresh(mem) && this.size == size
      ensures forall s: nat :: s < size ==> IsSet(s)
    {
      this.size := size;
      mem := new bv8[(size + 7) / 8](i => 0xFF);
      new;
      assert forall i: nat :: i < 8 ==> BitOf(0xFF, i);
    }

    method SetBit(s: nat)
      requires Sized() && s < size
      modifies mem
      ensures forall k: nat :: k < size ==> IsSet(k) == (k == s || old(IsSet(k)))
    {
      hide BitMask, BitOf;
      mem[s / 8] := mem[s / 8] | BitMask(s % 8);
      forall k: nat | k < size ensures IsSet(k) == (k == s || old(IsSet(k))) {
        OrSets(old(mem[s / 8]), s % 8, k % 8);
      }
    }

    method UnsetBit(s: nat)
      requires Sized() && s < size
      modifies mem
      ensures forall k: nat :: k < size ==> IsSet(k) == (k != s && old(IsSet(k)))
    {
      hide BitMask, BitOf;
      mem[s / 8] := mem[s / 8] & !BitMask(s % 8);
      forall k: nat | k < size ensures IsSet(k) == (k != s && old(IsSet(k))) {
        AndClears(old(mem[s / 8]), s % 8, k % 8);
      }
    }
  }
}
