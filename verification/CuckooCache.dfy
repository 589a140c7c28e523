/** The cuckoo cache of recently validated elements (src/cuckoocache.h). */
module CuckooCache {
  import opened Common
  import opened Bits
  import opened CuckooFlags

  type Element = int

  // ----- tables as values: t the elements, c the collection flags, e the epoch flags -----

  ghost predicate IsLive(t: seq<Element>, c: seq<bool>, x: Element) {
    exists i :: 0 <= i < |t| && i < |c| && !c[i] && t[i] == x
  }

  /** Whether x is live and of the current epoch, so that the next ageing leaves it live. */
  ghost predicate IsCurrent(t: seq<Element>, c: seq<bool>, f: seq<bool>, x: Element) {
    exists i :: 0 <= i < |t| && i < |c| && i < |f| && !c[i] && f[i] && t[i] == x
  }

  /** An element and its epoch flag go into a slot; what was live and current there is in hand. */
  lemma SwapKeepsEpochs(t: seq<Element>, c: seq<bool>, f: seq<bool>, i: nat, e: Element, epoch: bool, x: Element)
    requires |t| == |c| == |f| && i < |t|
    ensures IsCurrent(t[i := e], c[i := false], f[i := epoch], x) || (!c[i] && f[i] && x == t[i])
       <==> IsCurrent(t, c, f, x) || (epoch && x == e)
  {
    var t', c', f' := t[i := e], c[i := false], f[i := epoch];
    if IsCurrent(t, c, f, x) {
      var k :| 0 <= k < |t| && !c[k] && f[k] && t[k] == x;
      assert k != i ==> !c'[k] && f'[k] && t'[k] == x;
    }
    if epoch && x == e { assert !c'[i] && f'[i] && t'[i] == x; }
    if IsCurrent(t', c', f', x) {
      var k :| 0 <= k < |t| && !c'[k] && f'[k] && t'[k] == x;
      assert k != i ==> !c[k] && f[k] && t[k] == x;
    }
  }

  /** Current elements, the one in hand included, against those current at the start and the new one. */
  ghost predicate SameEpochs(t0: seq<Element>, f0: seq<bool>, e0: Element, t: seq<Element>, f: seq<bool>, e: Element, epoch: bool, c: seq<bool>) {
    forall x :: IsCurrent(t0, c, f0, x) || x == e0 <==> IsCurrent(t, c, f, x) || (epoch && x == e)
  }

  /** The number of entries of the current epoch that have not been given up. */
  function CurrentCount(c: seq<bool>, e: seq<bool>): nat
    requires |c| == |e|
  {
    if c == [] then 0
    else
      var n := |c| - 1;
      CurrentCount(c[..n], e[..n]) + if !c[n] && e[n] then 1 else 0
  }

  lemma {:induction false} CountUpdate(c: seq<bool>, e: seq<bool>, i: nat, cv: bool, ev: bool)
    requires |c| == |e| && i < |c|
    ensures CurrentCount(c[i := cv], e[i := ev]) ==
            CurrentCount(c, e) + (if !cv && ev then 1 else 0) - (if !c[i] && e[i] then 1 else 0)
  {
    var n := |c| - 1;
    if i == n {
      assert c[i := cv][..n] == c[..n] && e[i := ev][..n] == e[..n];
    } else {
      CountUpdate(c[..n], e[..n], i, cv, ev);
      assert c[i := cv][..n] == c[..n][i := cv] && e[i := ev][..n] == e[..n][i := ev];
    }
  }

  lemma {:induction false} CountNone(c: seq<bool>, e: seq<bool>)
    requires |c| == |e| && forall i :: 0 <= i < |c| ==> c[i] || !e[i]
    ensures CurrentCount(c, e) == 0
  {
    if c != [] { CountNone(c[..|c| - 1], e[..|e| - 1]); }
  }

  /** How far the current epoch can grow: over its intended size by one entry, or by a sixteenth. */
  function EpochBound(epochSize: nat): nat {
    epochSize + Max(1, epochSize / 16)
  }

  lemma CounterFits(epochSize: nat, n: nat)
    requires n < epochSize
    ensures Max(1, Max(epochSize / 16, epochSize - n)) >= 1
    ensures n + Max(1, Max(epochSize / 16, epochSize - n)) + 1 <= EpochBound(epochSize)
    ensures epochSize + 1 <= EpochBound(epochSize)
  {
  }

  /** Elements in hand and in the table, against those there at the start. */
  ghost predicate SameElements(t0: seq<Element>, e0: Element, t: seq<Element>, e: Element, c: seq<bool>) {
    forall x :: IsLive(t0, c, x) || x == e0 <==> IsLive(t, c, x) || x == e
  }

  lemma SwapKeepsElements(t: seq<Element>, e: Element, c: seq<bool>, i: nat)
    requires |t| == |c| && i < |t| && !c[i]
    ensures SameElements(t, e, t[i := e], t[i], c)
  {
    forall x ensures IsLive(t, c, x) || x == e <==> IsLive(t[i := e], c, x) || x == t[i] {
      if IsLive(t, c, x) {
        var k :| 0 <= k < |t| && !c[k] && t[k] == x;
        assert k != i ==> t[i := e][k] == x;
      }
      assert t[i := e][i] == e;
      if IsLive(t[i := e], c, x) {
        var k :| 0 <= k < |t| && !c[k] && t[i := e][k] == x;
        assert k != i ==> t[k] == x;
      }
    }
  }

  lemma SameElementsTrans(t0: seq<Element>, e0: Element, t: seq<Element>, e: Element, t': seq<Element>, e': Element, c: seq<bool>)
    requires SameElements(t0, e0, t, e, c) && SameElements(t, e, t', e', c)
    ensures SameElements(t0, e0, t', e', c)
  {
  }

  /** Putting the element in hand into a discardable slot leaves nothing in hand. */
  lemma PlaceKeepsElements(t: seq<Element>, e: Element, c: seq<bool>, i: nat, x: Element)
    requires |t| == |c| && i < |t| && c[i]
    ensures IsLive(t[i := e], c[i := false], x) <==> IsLive(t, c, x) || x == e
  {
    assert t[i := e][i] == e && !c[i := false][i];
    if IsLive(t, c, x) {
      var k :| 0 <= k < |t| && !c[k] && t[k] == x;
      assert t[i := e][k] == x && !c[i := false][k];
    }
    if IsLive(t[i := e], c[i := false], x) {
      var k :| 0 <= k < |t| && !c[i := false][k] && t[i := e][k] == x;
      assert k != i ==> !c[k] && t[k] == x;
    }
  }

  /** The first of the slots `l` that holds x, or -1. */
  function Holder(t: seq<Element>, l: seq<nat>, x: Element): (h: int)
    requires forall k :: 0 <= k < |l| ==> l[k] < |t|
    ensures h == -1 || (h in l && t[h] == x)
    ensures h == -1 ==> forall k :: k in l ==> t[k] != x
  {
    if l == [] then -1 else if t[l[0]] == x then l[0] else Holder(t, l[1..], x)
  }

  lemma {:induction false} HolderAt(t: seq<Element>, l: seq<nat>, x: Element, k: nat)
    requires forall j :: 0 <= j < |l| ==> l[j] < |t|
    requires k < |l| && t[l[k]] == x && forall j :: 0 <= j < k ==> t[l[j]] != x
    ensures Holder(t, l, x) == l[k]
  {
    if k > 0 { HolderAt(t, l[1..], x, k - 1); }
  }

  /** Writing another element elsewhere does not change the first holder. */
  lemma {:induction false} HolderElsewhere(t: seq<Element>, l: seq<nat>, x: Element, i: nat, e: Element)
    requires forall j :: 0 <= j < |l| ==> l[j] < |t|
    requires i < |t| && e != x && Holder(t, l, x) != i
    ensures Holder(t[i := e], l, x) == Holder(t, l, x)
  {
    if l != [] && t[l[0]] != x { HolderElsewhere(t, l[1..], x, i, e); }
  }

  /** The table, the element in hand and the slot it came from, -1 at the start. */
  datatype Turn = Turn(table: seq<Element>, e: Element, last: int)

  class CuckooCache {
    const size: nat
    const epochSize: nat
    const depthLimit: nat
    const hashFunction: (nat, Element) -> nat
    const collectionFlags: BitPackedFlags
    var table: seq<Element>
    var epochFlags: seq<bool>
    var epochHeuristicCounter: nat

    /** The setup of the table. Its floating-point logarithm is left to the caller. */
    constructor (newSize: nat, depthLimit: nat, hashFunction: (nat, Element) -> nat)
      requires newSize < 0x1_0000_0000
      ensures Valid() && fresh(collectionFlags) && fresh(collectionFlags.mem)
      ensures size == Max(2, newSize) && this.depthLimit == depthLimit && this.hashFunction == hashFunction
      ensures epochSize == Max(1, 45 * size % 0x1_0000_0000 / 100) == epochHeuristicCounter
      ensures forall x :: !IsLive(table, Collected(), x)
    {
      size := if newSize < 2 then 2 else newSize;
      var s := if newSize < 2 then 2 else newSize;
      epochSize := if 45 * s % 0x1_0000_0000 / 100 < 1 then 1 else 45 * s % 0x1_0000_0000 / 100;
      epochHeuristicCounter := if 45 * s % 0x1_0000_0000 / 100 < 1 then 1 else 45 * s % 0x1_0000_0000 / 100;
      this.depthLimit, this.hashFunction := depthLimit, hashFunction;
      table := seq(s, i => 0);
      epochFlags := seq(s, i => false);
      collectionFlags := new BitPackedFlags(s);
      new;
      CountNone(Collected(), epochFlags);
    }

    ghost predicate Sized()
      reads this
    {
      && size >= 2 && epochSize >= 1 && |table| == size && |epochFlags| == size
      && collectionFlags.Sized() && collectionFlags.size == size
    }

    ghost function Collected(): (c: seq<bool>)
      requires Sized()
      reads this, collectionFlags.mem
      ensures |c| == size && forall i :: 0 <= i < size ==> c[i] == collectionFlags.IsSet(i)
    {
      seq(size, i requires 0 <= i < size && Sized() reads this, collectionFlags.mem => collectionFlags.IsSet(i))
    }

    function Loc(k: nat, e: Element): (l: nat)
      requires size > 0
      ensures l < size
    {
      FastMod(hashFunction(k, e) % 0x1_0000_0000, size)
    }

    /** The eight slots an element may occupy. */
    function Locs(e: Element): (l: seq<nat>)
      requires size > 0
      ensures |l| == 8 && forall k :: 0 <= k < 8 ==> l[k] == Loc(k, e)
    {
      seq(8, k requires 0 <= k < 8 => Loc(k, e))
    }

    /** The slots are the eight hashes, scaled down from 32 bits to the size of the table. */
    lemma LocsScale(e: Element, k: nat)
      requires 0 < size && k < 8
      ensures var h := hashFunction(k, e) % 0x1_0000_0000; Locs(e)[k] * 0x1_0000_0000 <= h * size < (Locs(e)[k] + 1) * 0x1_0000_0000
    {
    }

    /** Each live slot is the first of its element's slots that holds it; so no element is live twice. */
    ghost predicate AllFirst(t: seq<Element>, c: seq<bool>)
      requires size > 0 && |t| == |c| == size
    {
      forall i :: 0 <= i < size && !c[i] ==> Holder(t, Locs(t[i]), t[i]) == i
    }

    ghost predicate Placed()
      requires Sized()
      reads this, collectionFlags.mem
    {
      AllFirst(table, Collected())
    }

    /** Locs[j] is the first discardable slot of e, which is not live: there it is the first holder. */
    lemma PlaceKeepsFirst(t: seq<Element>, c: seq<bool>, e: Element, j: nat)
      requires size > 0 && |t| == |c| == size && AllFirst(t, c) && !IsLive(t, c, e)
      requires j < 8 && (forall k :: 0 <= k < j ==> !c[Locs(e)[k]] && Locs(e)[k] != Locs(e)[j])
      ensures AllFirst(t[Locs(e)[j] := e], c[Locs(e)[j] := false])
    {
      hide Holder;
      var i := Locs(e)[j];
      forall k | 0 <= k < j ensures t[i := e][Locs(e)[k]] != e {
        assert IsLive(t, c, t[Locs(e)[k]]);
      }
      HolderAt(t[i := e], Locs(e), e, j);
      forall k | 0 <= k < size && !c[i := false][k] && k != i
        ensures Holder(t[i := e], Locs(t[k]), t[k]) == k
      {
        assert IsLive(t, c, t[k]);
        HolderElsewhere(t, Locs(t[k]), t[k], i, e);
      }
    }

    /** No slot of e is discardable and e is not live: whichever slot it takes, it is the first holder. */
    lemma SwapKeepsFirst(t: seq<Element>, c: seq<bool>, e: Element, i: nat)
      requires size > 0 && |t| == |c| == size && AllFirst(t, c) && !IsLive(t, c, e)
      requires i in Locs(e) && (forall l :: l in Locs(e) ==> !c[l])
      ensures AllFirst(t[i := e], c) && !IsLive(t[i := e], c, t[i])
    {
      hide Holder;
      var t' := t[i := e];
      forall l | l in Locs(e) ensures t[l] != e { assert IsLive(t, c, t[l]); }
      var j := FirstIndex(Locs(e), i);
      HolderAt(t', Locs(e), e, j);
      forall k | 0 <= k < size && !c[k] && k != i ensures Holder(t', Locs(t[k]), t[k]) == k {
        assert IsLive(t, c, t[k]);
        HolderElsewhere(t, Locs(t[k]), t[k], i, e);
      }
      forall k | 0 <= k < size && !c[k] ensures t'[k] != t[i] {
        if k != i { assert Holder(t, Locs(t[k]), t[k]) == k && Holder(t, Locs(t[i]), t[i]) == i; }
      }
    }

    static lemma {:induction false} FirstIndex(l: seq<nat>, x: nat) returns (j: nat)
      requires x in l
      ensures j < |l| && l[j] == x && forall k :: 0 <= k < j ==> l[k] != x
    {
      if l[0] == x { j := 0; } else { j := FirstIndex(l[1..], x); j := j + 1; }
    }

    /** The slot that already holds e becomes live again: it is the first holder. */
    lemma ReviveKeepsFirst(t: seq<Element>, c: seq<bool>, e: Element)
      requires size > 0 && |t| == |c| == size && AllFirst(t, c) && Holder(t, Locs(e), e) >= 0
      ensures AllFirst(t, c[Holder(t, Locs(e), e) := false])
    {
      hide Holder;
    }

    /** Giving slots up keeps the rest in place. */
    lemma FewerKeepFirst(t: seq<Element>, c: seq<bool>, c': seq<bool>)
      requires size > 0 && |t| == |c| == |c'| == size && AllFirst(t, c)
      requires forall i :: 0 <= i < size && c[i] ==> c'[i]
      ensures AllFirst(t, c')
    {
      hide Holder;
    }

    /** Every live element sits in the first of its slots that holds it, and the current epoch has not outgrown its bound. */
    ghost predicate Valid()
      reads this, collectionFlags.mem
    {
      && Sized()
      && Placed()
      && CurrentCount(Collected(), epochFlags) + epochHeuristicCounter <= EpochBound(epochSize)
    }

    method AllowErase(i: nat)
      requires Sized() && i < size
      modifies collectionFlags.mem
      ensures Collected() == old(Collected())[i := true]
    {
      collectionFlags.SetBit(i);
    }

    method PleaseKeep(i: nat)
      requires Sized() && i < size
      modifies collectionFlags.mem
      ensures Collected() == old(Collected())[i := false]
    {
      collectionFlags.UnsetBit(i);
    }

    /** The scan of epoch_check: the size of the current epoch. */
    method CountCurrent() returns (n: nat)
      requires Sized()
      ensures n == CurrentCount(Collected(), epochFlags)
    {
      n := 0;
      ghost var c := Collected();
      for i := 0 to size
        invariant n == CurrentCount(c[..i], epochFlags[..i]) && Collected() == c
      {
        assert c[..i + 1][..i] == c[..i] && epochFlags[..i + 1][..i] == epochFlags[..i];
        if epochFlags[i] && !collectionFlags.IsSet(i) { n := n + 1; }
      }
      assert c[..size] == c && epochFlags[..size] == epochFlags;
    }

    /** The ageing of epoch_check: the old epoch is given up, the current one becomes the old one. */
    method Age()
      requires Sized()
      modifies this`epochFlags, collectionFlags.mem
      ensures Sized()
      ensures forall i :: 0 <= i < size ==> Collected()[i] == (old(Collected())[i] || !old(epochFlags)[i])
      ensures forall i :: 0 <= i < size ==> !epochFlags[i]
    {
      for i := 0 to size
        invariant Sized()
        invariant forall k :: 0 <= k < i ==> !epochFlags[k] && Collected()[k] == (old(Collected())[k] || !old(epochFlags)[k])
        invariant forall k :: i <= k < size ==> epochFlags[k] == old(epochFlags)[k] && Collected()[k] == old(Collected())[k]
      {
        if epochFlags[i] {
          epochFlags := epochFlags[i := false];
        } else {
          AllowErase(i);
        }
      }
    }

    /** Whether epoch_check starts a new epoch: the counter has run out and the current epoch is full. */
    ghost predicate AgesNow(counter: nat, c: seq<bool>, e: seq<bool>)
      requires |c| == |e|
    {
      counter == 0 && CurrentCount(c, e) >= epochSize
    }

    /** The counter after epoch_check, which found `count` live entries of the current epoch. */
    function NextCounter(counter: nat, count: nat): nat {
      if counter != 0 then counter - 1
      else if count >= epochSize then epochSize
      else Max(1, Max(epochSize / 16, epochSize - count))
    }

    /** epoch_check: afterwards there is room in the bound for one more entry, and no given-up entry came back. */
    method EpochCheck()
      requires Valid()
      modifies this`epochFlags, this`epochHeuristicCounter, collectionFlags.mem
      ensures Sized()
      ensures forall i :: 0 <= i < size && old(Collected())[i] ==> Collected()[i]
      ensures !AgesNow(old(epochHeuristicCounter), old(Collected()), old(epochFlags)) ==>
                Collected() == old(Collected()) && epochFlags == old(epochFlags)
      ensures AgesNow(old(epochHeuristicCounter), old(Collected()), old(epochFlags)) ==>
                forall i :: 0 <= i < size ==> !epochFlags[i] && Collected()[i] == (old(Collected())[i] || !old(epochFlags)[i])
      ensures epochHeuristicCounter == NextCounter(old(epochHeuristicCounter), old(CurrentCount(Collected(), epochFlags)))
      ensures CurrentCount(Collected(), epochFlags) + epochHeuristicCounter + 1 <= EpochBound(epochSize)
    {
      hide CurrentCount, EpochBound, Max, Placed;
      if epochHeuristicCounter != 0 {
        epochHeuristicCounter := epochHeuristicCounter - 1;
        return;
      }
      var epochUnusedCount := CountCurrent();
      if epochUnusedCount >= epochSize {
        Age();
        CounterFits(epochSize, 0);
        epochHeuristicCounter := epochSize;
        CountNone(Collected(), epochFlags);
      } else {
        CounterFits(epochSize, epochUnusedCount);
        ghost var c := Collected();
        epochHeuristicCounter := Max(1, Max(epochSize / 16, epochSize - epochUnusedCount));
        assert Collected() == c;
      }
    }

    /** The table slot that already holds an element, if any of its eight does. */
    method FindSlot(e: Element) returns (loc: int)
      requires Sized()
      ensures loc == Holder(table, Locs(e), e)
      ensures loc == -1 || (loc in Locs(e) && 0 <= loc < size && table[loc] == e)
      ensures loc == -1 ==> forall l :: l in Locs(e) ==> table[l] != e
    {
      hide Holder;
      var locs := Locs(e);
      for k := 0 to 8
        invariant forall j :: 0 <= j < k ==> table[locs[j]] != e
      {
        if table[locs[k]] == e {
          HolderAt(table, locs, e, k);
          return locs[k];
        }
      }
      return -1;
    }

    /** The index of the first discardable slot among the eight of an element, or 8. */
    method FindDiscardable(e: Element) returns (k: nat)
      requires Sized()
      ensures k <= 8 && (forall j :: 0 <= j < k ==> !Collected()[Locs(e)[j]])
      ensures k < 8 ==> Collected()[Locs(e)[k]]
    {
      var locs := Locs(e);
      k := 0;
      while k < 8
        invariant k <= 8 && forall j :: 0 <= j < k ==> !Collected()[locs[j]]
      {
        if collectionFlags.IsSet(locs[k]) { return; }
        k := k + 1;
      }
    }

    /** The slot after the last one used, among the eight of an element; the second one at the start. */
    function NextSlot(e: Element, lastLoc: int): (loc: nat)
      requires size > 0
      ensures loc in Locs(e) && loc < size
      ensures lastLoc !in Locs(e) ==> loc == Locs(e)[1]
      ensures forall k :: 0 <= k < 8 && Locs(e)[k] == lastLoc && lastLoc !in Locs(e)[..k] ==> loc == Locs(e)[(k + 1) % 8]
    {
      Locs(e)[(1 + IndexOf(Locs(e), lastLoc)) % 8]
    }

    static function IndexOf(l: seq<nat>, x: int): (k: nat)
      ensures k <= |l| && x !in l[..k] && (k < |l| ==> l[k] == x)
    {
      if l == [] || l[0] == x then 0 else 1 + IndexOf(l[1..], x)
    }

    /** Whether none of an element's slots is discardable. */
    ghost predicate Crowded(e: Element, c: seq<bool>)
      requires size > 0 && |c| == size
    {
      forall l :: l in Locs(e) ==> !c[l]
    }

    /** The displacements of insert: `k` times the element in hand takes its next slot, whatever is there is in hand. */
    ghost function Displaced(t: seq<Element>, e: Element, k: nat): (r: Turn)
      requires size > 0 && |t| == size
      ensures |r.table| == size
    {
      if k == 0 then Turn(t, e, -1)
      else
        var r := Displaced(t, e, k - 1);
        var loc := NextSlot(r.e, r.last);
        Turn(r.table[loc := r.e], r.table[loc], loc)
    }

    /** The element in hand after `k` displacements. */
    ghost function InHand(t: seq<Element>, e: Element, k: nat): Element
      requires size > 0 && |t| == size
    {
      Displaced(t, e, k).e
    }

    method NextLoc(e: Element, lastLoc: int) returns (loc: nat)
      requires size > 0
      ensures loc in Locs(e) && loc < size && loc == NextSlot(e, lastLoc)
      ensures lastLoc !in Locs(e) ==> loc == Locs(e)[1]
      ensures forall k :: 0 <= k < 8 && Locs(e)[k] == lastLoc && lastLoc !in Locs(e)[..k] ==> loc == Locs(e)[(k + 1) % 8]
    {
      var locs := Locs(e);
      var k := 0;
      while k < 8 && locs[k] != lastLoc
        invariant 0 <= k <= 8 && forall j :: 0 <= j < k ==> locs[j] != lastLoc
      {
        k := k + 1;
      }
      loc := locs[(1 + k) % 8];
      assert k < 8 ==> lastLoc !in locs[..k];
    }

    /** Puts an element that is not live into its first discardable slot, and marks the slot live. */
    method Settle(e: Element, j: nat, epoch: bool)
      requires Sized() && Placed() && j < 8 && Collected()[Locs(e)[j]] && !IsLive(table, Collected(), e)
      requires forall k :: 0 <= k < j ==> !Collected()[Locs(e)[k]]
      modifies this`table, this`epochFlags, collectionFlags.mem
      ensures Sized() && Placed()
      ensures table == old(table)[Locs(e)[j] := e] && Collected() == old(Collected())[Locs(e)[j] := false]
      ensures epochFlags == old(epochFlags)[Locs(e)[j] := epoch] && SettledFirst(e, old(table), old(Collected()))
      ensures forall x :: IsLive(table, Collected(), x) <==> IsLive(old(table), old(Collected()), x) || x == e
      ensures forall x :: IsCurrent(table, Collected(), epochFlags, x) <==>
                          IsCurrent(old(table), old(Collected()), old(epochFlags), x) || (epoch && x == e)
      ensures CurrentCount(Collected(), epochFlags) <=
              old(CurrentCount(Collected(), epochFlags)) + if epoch then 1 else 0
    {
      hide CurrentCount, IsLive, IsCurrent, AllFirst;
      ghost var t, c, f := table, Collected(), epochFlags;
      var loc := Locs(e)[j];
      PlaceKeepsFirst(t, c, e, j);
      table := table[loc := e];
      PleaseKeep(loc);
      epochFlags := epochFlags[loc := epoch];
      assert Collected() == c[loc := false];
      assert SettledAt(e, j, t, c);
      CountUpdate(c, f, loc, false, epoch);
      forall x ensures IsLive(table, Collected(), x) <==> IsLive(t, c, x) || x == e {
        PlaceKeepsElements(t, e, c, loc, x);
      }
      forall x ensures IsCurrent(table, Collected(), epochFlags, x) <==> IsCurrent(t, c, f, x) || (epoch && x == e) {
        SwapKeepsEpochs(t, c, f, loc, e, epoch, x);
      }
    }

    /** The element is in the table already: its slot is kept. */
    method Revive(e: Element, loc: nat)
      requires Sized() && Placed() && loc == Holder(table, Locs(e), e)
      modifies this`epochFlags, collectionFlags.mem
      ensures Sized() && Placed()
      ensures Collected() == old(Collected())[loc := false] && epochFlags == old(epochFlags)[loc := true]
      ensures forall x :: IsLive(table, Collected(), x) <==> IsLive(table, old(Collected()), x) || x == e
      ensures forall x :: IsCurrent(table, Collected(), epochFlags, x) <==>
                          IsCurrent(table, old(Collected()), old(epochFlags), x) || x == e
      ensures CurrentCount(Collected(), epochFlags) <= old(CurrentCount(Collected(), epochFlags)) + 1
    {
      hide CurrentCount, IsLive, IsCurrent, AllFirst, Holder;
      ghost var t, c, f := table, Collected(), epochFlags;
      ReviveKeepsFirst(t, c, e);
      PleaseKeep(loc);
      epochFlags := epochFlags[loc := true];
      assert Collected() == c[loc := false];
      CountUpdate(c, f, loc, false, true);
      assert t[loc := e] == t;
      forall x ensures IsLive(table, Collected(), x) <==> IsLive(t, c, x) || x == e {
        if c[loc] { PlaceKeepsElements(t, e, c, loc, x); } else { KeepKeepsElements(t, e, c, loc, x); }
      }
      forall x ensures IsCurrent(table, Collected(), epochFlags, x) <==> IsCurrent(t, c, f, x) || x == e {
        KeepKeepsEpochs(t, c, f, loc, x);
      }
    }

    static lemma KeepKeepsEpochs(t: seq<Element>, c: seq<bool>, f: seq<bool>, i: nat, x: Element)
      requires |t| == |c| == |f| && i < |t|
      ensures IsCurrent(t, c[i := false], f[i := true], x) <==> IsCurrent(t, c, f, x) || x == t[i]
    {
      SwapKeepsEpochs(t, c, f, i, t[i], true, x);
      assert t[i := t[i]] == t;
      assert !c[i := false][i] && f[i := true][i];
    }

    static lemma KeepKeepsElements(t: seq<Element>, e: Element, c: seq<bool>, i: nat, x: Element)
      requires |t| == |c| && i < |t| && !c[i] && t[i] == e
      ensures IsLive(t[i := e], c[i := false], x) <==> IsLive(t, c, x) || x == e
    {
      assert t[i := e] == t && c[i := false] == c;
    }

    /** Exchanges the element in hand with a live one, flags included. */
    method Displace(e: Element, loc: nat, epoch: bool) returns (e': Element, epoch': bool)
      requires Sized() && Placed() && loc in Locs(e) && loc < size && !IsLive(table, Collected(), e)
      requires Crowded(e, Collected())
      modifies this`table, this`epochFlags
      ensures e' == old(table)[loc] && table == old(table)[loc := e]
      ensures epoch' == old(epochFlags)[loc] && epochFlags == old(epochFlags)[loc := epoch]
      ensures Sized() && Placed() && Collected() == old(Collected()) && !IsLive(table, Collected(), e')
      ensures SameElements(old(table), e, table, e', Collected())
      ensures forall x :: IsCurrent(old(table), Collected(), old(epochFlags), x) || (epoch && x == e) <==>
                          IsCurrent(table, Collected(), epochFlags, x) || (epoch' && x == e')
      ensures CurrentCount(Collected(), epochFlags) + (if epoch' then 1 else 0) ==
              old(CurrentCount(Collected(), epochFlags)) + if epoch then 1 else 0
    {
      hide CurrentCount, IsLive, IsCurrent, AllFirst;
      ghost var t, c, f := table, Collected(), epochFlags;
      SwapKeepsFirst(t, c, e, loc);
      e', epoch' := table[loc], epochFlags[loc];
      table := table[loc := e];
      epochFlags := epochFlags[loc := epoch];
      assert Collected() == c;
      SwapKeepsElements(t, e, c, loc);
      CountUpdate(c, f, loc, false, epoch);
      assert c[loc := false] == c;
      forall x ensures IsCurrent(t, c, f, x) || (epoch && x == e) <==> IsCurrent(table, c, epochFlags, x) || (epoch' && x == e') {
        SwapKeepsEpochs(t, c, f, loc, e, epoch, x);
      }
    }

    /**
     * The loop of insert: displaces elements until one finds a discardable slot, and gives up the last one in
     * hand if none of the first `depthLimit` does. `depth` is the number of displacements.
     */
    method PushIn(e0: Element) returns (lost: bool, e: Element, ghost depth: nat)
      requires Sized() && Placed() && !IsLive(table, Collected(), e0)
      modifies this`table, this`epochFlags, collectionFlags.mem
      ensures Sized() && Placed()
      ensures CurrentCount(Collected(), epochFlags) <= old(CurrentCount(Collected(), epochFlags)) + 1
      ensures forall x :: IsLive(table, Collected(), x) ==> IsLive(old(table), old(Collected()), x) || x == e0
      ensures forall x :: IsLive(old(table), old(Collected()), x) || x == e0 ==>
                IsLive(table, Collected(), x) || (lost && x == e)
      ensures forall x :: IsCurrent(table, Collected(), epochFlags, x) ==>
                IsCurrent(old(table), old(Collected()), old(epochFlags), x) || x == e0
      ensures forall x :: IsCurrent(old(table), old(Collected()), old(epochFlags), x) || x == e0 ==>
                IsCurrent(table, Collected(), epochFlags, x) || (lost && x == e)
      ensures depth <= depthLimit && lost == (depth == depthLimit) && e == InHand(old(table), e0, depth)
      ensures forall k :: 0 <= k < depth ==> Crowded(InHand(old(table), e0, k), old(Collected()))
      ensures lost ==> table == Displaced(old(table), e0, depth).table && Collected() == old(Collected())
      ensures !lost ==> SettledFirst(e, Displaced(old(table), e0, depth).table, old(Collected()))
    {
      hide CurrentCount, IsLive, Placed, NextSlot, SettledFirst, Displaced, SameElements, Crowded, Locs, IsCurrent, SameEpochs;
      ghost var t, f, c := table, epochFlags, Collected();
      ghost var count := CurrentCount(c, epochFlags);
      e, depth := e0, 0;
      NoneDisplaced(t, f, e0, c);
      var lastLoc: int, lastEpoch := -1, true;
      for d := 0 to depthLimit
        invariant depth == d
        invariant Sized() && Placed() && Collected() == c && !IsLive(table, c, e)
        invariant SameElements(t, e0, table, e, c) && SameEpochs(t, f, e0, table, epochFlags, e, lastEpoch, c)
        invariant CurrentCount(c, epochFlags) + (if lastEpoch then 1 else 0) == count + 1
        invariant Displaced(t, e0, depth) == Turn(table, e, lastLoc)
        invariant forall k :: 0 <= k < depth ==> Crowded(InHand(t, e0, k), c)
      {
        ghost var t1, f1, e1, epoch1 := table, epochFlags, e, lastEpoch;
        var free := FindDiscardable(e);
        if free < 8 {
          Settle(e, free, lastEpoch);
          SettledElements(t, e0, t1, e, c, table, Collected());
          SettledEpochs(t, f, e0, t1, f1, e, epoch1, c, table, epochFlags, Collected());
          lost := false;
          return;
        }
        AllCrowded(e, c);
        DisplacedStep(t, e0, depth);
        lastLoc := NextLoc(e, lastLoc);
        e, lastEpoch := Displace(e, lastLoc, lastEpoch);
        SameElementsTrans(t, e0, t1, e1, table, e, c);
        SameEpochsTrans(t, f, e0, t1, f1, e1, epoch1, table, epochFlags, e, lastEpoch, c);
        depth := depth + 1;
      }
      LastInHand(t, f, e0, table, epochFlags, e, lastEpoch, c);
      lost := true;
    }

    static lemma LastInHand(t0: seq<Element>, f0: seq<bool>, e0: Element, t: seq<Element>, f: seq<bool>, e: Element, epoch: bool, c: seq<bool>)
      requires SameElements(t0, e0, t, e, c) && SameEpochs(t0, f0, e0, t, f, e, epoch, c)
      ensures forall x :: IsCurrent(t, c, f, x) ==> IsCurrent(t0, c, f0, x) || x == e0
      ensures forall x :: IsCurrent(t0, c, f0, x) || x == e0 ==> IsCurrent(t, c, f, x) || x == e
      ensures forall x :: IsLive(t, c, x) ==> IsLive(t0, c, x) || x == e0
      ensures forall x :: IsLive(t0, c, x) || x == e0 ==> IsLive(t, c, x) || x == e
    {
    }

    lemma AllCrowded(e: Element, c: seq<bool>)
      requires size > 0 && |c| == size && forall k :: 0 <= k < 8 ==> !c[Locs(e)[k]]
      ensures Crowded(e, c)
    {
    }

    lemma NoneDisplaced(t: seq<Element>, f: seq<bool>, e: Element, c: seq<bool>)
      requires size > 0 && |t| == size
      ensures Displaced(t, e, 0) == Turn(t, e, -1) && SameElements(t, e, t, e, c) && SameEpochs(t, f, e, t, f, e, true, c)
    {
    }

    lemma DisplacedStep(t: seq<Element>, e: Element, k: nat)
      requires size > 0 && |t| == size
      ensures var r := Displaced(t, e, k);
              var loc := NextSlot(r.e, r.last);
              Displaced(t, e, k + 1) == Turn(r.table[loc := r.e], r.table[loc], loc)
    {
    }

    static lemma SettledElements(t0: seq<Element>, e0: Element, t: seq<Element>, e: Element, c: seq<bool>, t': seq<Element>, c': seq<bool>)
      requires SameElements(t0, e0, t, e, c) && forall x :: IsLive(t', c', x) <==> IsLive(t, c, x) || x == e
      ensures forall x :: IsLive(t', c', x) <==> IsLive(t0, c, x) || x == e0
    {
    }

    static lemma SettledEpochs(t0: seq<Element>, f0: seq<bool>, e0: Element, t: seq<Element>, f: seq<bool>, e: Element, epoch: bool,
                               c: seq<bool>, t': seq<Element>, f': seq<bool>, c': seq<bool>)
      requires SameEpochs(t0, f0, e0, t, f, e, epoch, c)
      requires forall x :: IsCurrent(t', c', f', x) <==> IsCurrent(t, c, f, x) || (epoch && x == e)
      ensures forall x :: IsCurrent(t', c', f', x) <==> IsCurrent(t0, c, f0, x) || x == e0
    {
    }

    static lemma SameEpochsTrans(t0: seq<Element>, f0: seq<bool>, e0: Element, t: seq<Element>, f: seq<bool>, e: Element, epoch: bool,
                                 t': seq<Element>, f': seq<bool>, e': Element, epoch': bool, c: seq<bool>)
      requires SameEpochs(t0, f0, e0, t, f, e, epoch, c)
      requires forall x :: IsCurrent(t, c, f, x) || (epoch && x == e) <==> IsCurrent(t', c, f', x) || (epoch' && x == e')
      ensures SameEpochs(t0, f0, e0, t', f', e', epoch', c)
    {
    }

    /** From the table `t` and the flags `c`, the element has gone into the first of its slots that is discardable. */
    ghost predicate SettledFirst(e: Element, t: seq<Element>, c: seq<bool>)
      requires Sized() && |t| == |c| == size
      reads this, collectionFlags.mem
    {
      exists j :: 0 <= j < 8 && SettledAt(e, j, t, c)
    }

    ghost predicate SettledAt(e: Element, j: nat, t: seq<Element>, c: seq<bool>)
      requires Sized() && |t| == |c| == size && j < 8
      reads this, collectionFlags.mem
    {
      && c[Locs(e)[j]] && (forall k :: 0 <= k < j ==> !c[Locs(e)[k]])
      && table == t[Locs(e)[j] := e] && Collected() == c[Locs(e)[j] := false]
    }

    /**
     * Insert: of the elements live after epoch_check and the new one, all are live afterwards but at most one
     * (`lost`, `dropped`), and no others are. One is lost exactly when the new element is in none of its slots
     * and, along the displacements from it, none of the first `depthLimit` elements in hand has a discardable slot.
     */
    method Insert(e: Element) returns (lost: bool, dropped: Element, ghost aged: bool, ghost mid: seq<bool>)
      requires Valid()
      modifies this, collectionFlags.mem
      ensures Valid()
      ensures |mid| == size && aged == AgesNow(old(epochHeuristicCounter), old(Collected()), old(epochFlags))
      ensures forall i :: 0 <= i < size ==> mid[i] == (old(Collected()[i]) || (aged && !old(epochFlags[i])))
      ensures forall x :: IsLive(table, Collected(), x) ==> IsLive(old(table), mid, x) || x == e
      ensures forall x :: IsLive(old(table), mid, x) || x == e ==> IsLive(table, Collected(), x) || (lost && x == dropped)
      ensures forall x :: IsCurrent(table, Collected(), epochFlags, x) ==>
                x == e || (!aged && IsCurrent(old(table), mid, old(epochFlags), x))
      ensures forall x :: x == e || (!aged && IsCurrent(old(table), mid, old(epochFlags), x)) ==>
                IsCurrent(table, Collected(), epochFlags, x) || (lost && x == dropped)
      ensures epochHeuristicCounter == NextCounter(old(epochHeuristicCounter), old(CurrentCount(Collected(), epochFlags)))
      ensures lost <==> (forall l :: l in Locs(e) ==> old(table)[l] != e) &&
                        forall k :: 0 <= k < depthLimit ==> Crowded(InHand(old(table), e, k), mid)
      ensures lost ==> dropped == InHand(old(table), e, depthLimit)
      ensures depthLimit > 0 && (exists l :: l in Locs(e) && mid[l]) ==> !lost && IsLive(table, Collected(), e)
    {
      hide CurrentCount, IsLive, EpochBound, AllFirst, Holder;
      ghost var t, c := table, Collected();
      aged := AgesNow(epochHeuristicCounter, c, epochFlags);
      EpochCheck();
      mid := Collected();
      FewerKeepFirst(t, c, mid);
      dropped := e;
      var loc := FindSlot(e);
      if loc != -1 {
        Revive(e, loc);
        lost := false;
      } else {
        NotHeldNotLive(t, mid, e);
        ghost var depth;
        lost, dropped, depth := PushIn(e);
        assert InHand(t, e, 0) == e;
      }
    }

    lemma NotHeldNotLive(t: seq<Element>, c: seq<bool>, e: Element)
      requires size > 0 && |t| == |c| == size && AllFirst(t, c)
      ensures IsLive(t, c, e) ==> Holder(t, Locs(e), e) >= 0 && !c[Holder(t, Locs(e), e)]
      ensures Holder(t, Locs(e), e) >= 0 ==> !IsLive(t, c[Holder(t, Locs(e), e) := true], e)
    {
      hide Holder;
    }

    /**
     * Contains: finds every live element, since each sits in one of its own slots; with `erase` the
     * element is no longer live.
     */
    method Contains(e: Element, erase: bool) returns (r: bool)
      requires Valid()
      modifies collectionFlags.mem
      ensures Valid()
      ensures r == exists l :: l in Locs(e) && table[l] == e
      ensures IsLive(table, old(Collected()), e) ==> r
      ensures forall x :: IsLive(table, Collected(), x) ==> IsLive(table, old(Collected()), x)
      ensures forall x :: IsLive(table, old(Collected()), x) && (x != e || !erase) ==> IsLive(table, Collected(), x)
      ensures r && erase ==> !IsLive(table, Collected(), e)
      ensures Collected() == if r && erase then old(Collected())[Holder(table, Locs(e), e) := true] else old(Collected())
    {
      hide CurrentCount, EpochBound, AllFirst, Holder;
      ghost var c := Collected();
      var loc := FindSlot(e);
      NotHeldNotLive(table, c, e);
      r := loc != -1;
      if r && erase {
        FewerKeepFirst(table, c, c[loc := true]);
        CountUpdate(c, epochFlags, loc, true, epochFlags[loc]);
        AllowErase(loc);
        assert epochFlags[loc := epochFlags[loc]] == epochFlags;
      }
    }
  }
}
