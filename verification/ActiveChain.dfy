/** The vector that indexes the active chain by height, and what is computed with it (src/chain.h, src/chain.cpp). */
module ActiveChain {
  import opened Common
  import opened Bits
  import opened Chain

  /** The heights of a block locator: from `h` down, in steps that double after the eleventh entry. */
  function LocatorHeights(h: nat, step: nat, count: nat): (hs: seq<nat>)
    requires step > 0
    ensures |hs| > 0 && hs[0] == h
    decreases h
  {
    if h == 0 then [0]
    else [h] + LocatorHeights(Max(h - step, 0), if count + 1 > 10 then step * 2 else step, count + 1)
  }

  lemma LocatorUnfolds(h: nat, step: nat, count: nat)
    requires step > 0
    ensures LocatorHeights(h, step, count) ==
            if h == 0 then [0]
            else [h] + LocatorHeights(Max(h - step, 0), if count + 1 > 10 then step * 2 else step, count + 1)
  {
  }

  /** Heights descend strictly and end at the genesis block. */
  lemma {:induction false} LocatorDescends(h: nat, step: nat, count: nat)
    requires step > 0
    ensures var hs := LocatorHeights(h, step, count);
            hs[|hs| - 1] == 0 && forall i, j :: 0 <= i < j < |hs| ==> hs[i] > hs[j]
    decreases h
  {
    if h > 0 {
      LocatorDescends(Max(h - step, 0), if count + 1 > 10 then step * 2 else step, count + 1);
    }
  }

  /** Once the steps double, `k` of them reach down from any h <= step * (2^k - 1). */
  lemma {:induction false} LocatorTail(h: nat, step: nat, count: nat, k: nat)
    requires step > 0 && count >= 10 && h <= step * (Pow2(k) - 1)
    ensures |LocatorHeights(h, step, count)| <= k + 1
    decreases h
  {
    if h > 0 {
      assert k > 0;
      TailBound(step, Pow2(k - 1));
      LocatorTail(Max(h - step, 0), step * 2, count + 1, k - 1);
    }
  }

  lemma TailBound(step: nat, p: nat)
    requires p > 0
    ensures step * (2 * p - 1) == step + (step * 2) * (p - 1) && (step * 2) * (p - 1) >= 0
  {
    var n := p - 1;
    assert step * (2 * n + 1) == step + (step * 2) * n;
  }

  lemma {:induction false} LocatorHead(h: nat, count: nat, k: nat)
    requires count <= 10 && k > 0 && h < Pow2(k)
    ensures |LocatorHeights(h, 1, count)| <= 11 - count + k
    decreases h
  {
    if h > 0 {
      if count < 10 {
        LocatorHead(h - 1, count + 1, k);
      } else {
        assert h - 1 <= 2 * (Pow2(k - 1) - 1);
        LocatorTail(h - 1, 2, 11, k - 1);
      }
    }
  }

  /** A locator for a block of fewer than k bits of height has at most 11 + k entries. */
  lemma LocatorIsShort(h: nat, k: nat)
    requires k > 0 && h < Pow2(k)
    ensures |LocatorHeights(h, 1, 0)| <= 11 + k
  {
    LocatorHead(h, 0, k);
  }

  /** How far below the start the i'th locator entry lies: eleven single steps, then steps of 2, 4, 8 and so on. */
  function LocatorDistance(i: nat): nat {
    if i <= 11 then i else 9 + Pow2(i - 10)
  }

  function LocatorStep(i: nat): (step: nat)
    ensures step > 0 && LocatorDistance(i + 1) == LocatorDistance(i) + step
  {
    if i <= 10 then 1 else Pow2(i - 10)
  }

  lemma LocatorAdvances(start: nat, i: nat)
    ensures var h := Max(start - LocatorDistance(i), 0);
            Max(h - LocatorStep(i), 0) == Max(start - LocatorDistance(i + 1), 0)
    ensures LocatorStep(i + 1) == if i + 1 > 10 then LocatorStep(i) * 2 else LocatorStep(i)
  {
  }

  /** Each entry lies its distance below the start, or is the genesis block. */
  lemma {:induction false} LocatorExact(start: nat, count: nat)
    ensures var h := Max(start - LocatorDistance(count), 0);
            var hs := LocatorHeights(h, LocatorStep(count), count);
            forall i :: 0 <= i < |hs| ==> hs[i] == Max(start - LocatorDistance(count + i), 0)
    decreases Max(start - LocatorDistance(count), 0)
  {
    var h := Max(start - LocatorDistance(count), 0);
    LocatorAdvances(start, count);
    hide LocatorDistance, LocatorHeights;
    LocatorUnfolds(h, LocatorStep(count), count);
    if h > 0 {
      LocatorExact(start, count + 1);
      var hs := LocatorHeights(h, LocatorStep(count), count);
      forall i | 0 <= i < |hs| ensures hs[i] == Max(start - LocatorDistance(count + i), 0) {
        if i > 0 { assert hs[i] == hs[1..][i - 1] && count + i == count + 1 + (i - 1); }
      }
    }
  }

  /**
   * A fork `d` blocks below the start is met within twice that distance: no step is longer than one more
   * than the distance already covered.
   */
  lemma {:induction false} LocatorNear(start: nat, h: nat, step: nat, count: nat, d: nat) returns (i: nat)
    requires h <= start && 0 < step <= start - h + 1 && start - h <= 2 * d && d <= start
    ensures var hs := LocatorHeights(h, step, count); i < |hs| && d <= start - hs[i] <= 2 * d
    decreases h
  {
    i := 0;
    if start - h < d {
      var next, step' := Max(h - step, 0), if count + 1 > 10 then step * 2 else step;
      if step' > start - next + 1 {
        assert next == 0;
        NearGenesis(step', count + 1);
        i := 1;
      } else {
        i := LocatorNear(start, next, step', count + 1, d);
        i := i + 1;
      }
    }
  }

  lemma NearGenesis(step: nat, count: nat)
    requires step > 0
    ensures LocatorHeights(0, step, count) == [0]
  {
  }

  /**
   * Heights from `h`: eleven single steps down, then doubling ones, until the genesis block. For every distance
   * from the start, some entry is at least that far away and at most twice as far.
   */
  ghost predicate SpreadOut(h: int, hs: seq<int>) {
    && hs != [] && hs[|hs| - 1] == 0
    && (forall i :: 0 <= i < |hs| - 1 ==> hs[i] > 0)
    && (forall i :: 0 <= i < |hs| ==> hs[i] == Max(h - (if i <= 11 then i else 9 + Pow2(i - 10)), 0))
    && (forall d :: 0 <= d <= h ==> exists i :: 0 <= i < |hs| && d <= h - hs[i] <= 2 * d)
  }

  lemma LocatorSpreads(h: nat)
    ensures SpreadOut(h, LocatorHeights(h, 1, 0))
  {
    hide LocatorHeights, Pow2;
    var hs := LocatorHeights(h, 1, 0);
    LocatorDescends(h, 1, 0);
    LocatorExact(h, 0);
    forall d | 0 <= d <= h ensures exists i :: 0 <= i < |hs| && d <= h - hs[i] <= 2 * d {
      var i := LocatorNear(h, h, 1, 0, d);
    }
  }

  class ActiveChain {
    var vChain: seq<BlockIndex?>
    var atomicHeight: int

    constructor ()
      ensures Valid() && vChain == []
    {
      vChain, atomicHeight := [], -1;
    }

    /** Every slot holds the tip's ancestor at that height. */
    ghost predicate Valid()
      reads this
    {
      && atomicHeight == |vChain| - 1
      && (vChain != [] ==> TracesBack(vChain, vChain[|vChain| - 1]))
    }

    static ghost predicate TracesBack(v: seq<BlockIndex?>, tip: BlockIndex?) {
      && tip != null && tip.Linked() && |v| == tip.nHeight + 1
      && forall h :: 0 <= h < |v| ==> v[h] == tip.Ancestor(h)
    }

    function Height(): int
      reads this
    {
      |vChain| - 1
    }

    function Tip(): BlockIndex?
      reads this
    {
      if |vChain| > 0 then vChain[|vChain| - 1] else null
    }

    function At(nHeight: int): BlockIndex?
      reads this
    {
      if nHeight < 0 || nHeight >= |vChain| then null else vChain[nHeight]
    }

    predicate Contains(b: BlockIndex)
      reads this
    {
      At(b.nHeight) == b
    }

    function Next(b: BlockIndex): BlockIndex?
      reads this
    {
      if Contains(b) then At(b.nHeight + 1) else null
    }

    /** The O(1) test: a block is in the chain exactly when it is an ancestor of the tip. */
    lemma ContainsAncestors(b: BlockIndex)
      requires Valid() && b.Linked()
      ensures Contains(b) <==> Tip() != null && b.nHeight <= Tip().nHeight && Tip().Ancestor(b.nHeight) == b
      ensures Contains(b) ==> forall h :: 0 <= h <= b.nHeight ==> At(h) == b.Ancestor(h)
    {
      if Contains(b) {
        forall h | 0 <= h <= b.nHeight ensures At(h) == b.Ancestor(h) {
          Tip().AncestorOfAncestor(b.nHeight, h);
        }
      }
    }

    /** Next is the child of its argument on the way to the tip. */
    lemma NextIsChild(b: BlockIndex)
      requires Valid() && b.Linked() && Contains(b)
      ensures Next(b) == null <==> b == Tip()
      ensures Next(b) != null ==> Next(b).pprev == b
    {
      ContainsAncestors(b);
      if b.nHeight < Height() {
        Tip().AncestorOfAncestor(b.nHeight + 1, b.nHeight);
      }
    }

    static function Resized(v: seq<BlockIndex?>, n: nat): (r: seq<BlockIndex?>)
      ensures |r| == n && forall k :: 0 <= k < n ==> r[k] == if k < |v| then v[k] else null
    {
      if n <= |v| then v[..n] else v + seq(n - |v|, i => null)
    }

    /** SetTip stops at the first slot that is right already, and still leaves every slot right. */
    method SetTip(tip: BlockIndex?)
      requires Valid() && (tip != null ==> tip.Linked())
      modifies this
      ensures Valid()
      ensures tip == null ==> vChain == []
      ensures tip != null ==> TracesBack(vChain, tip)
    {
      hide Resized;
      if tip == null {
        vChain := [];
      } else {
        ghost var before := vChain;
        var n := tip.nHeight + 1;
        vChain := Resized(vChain, n);
        ghost var resized := vChain;
        var pindex: BlockIndex? := tip;
        ghost var h := tip.nHeight;
        while pindex != null && vChain[pindex.nHeight] != pindex
          invariant |vChain| == |resized| == tip.nHeight + 1 && -1 <= h <= tip.nHeight
          invariant h >= 0 ==> pindex == tip.Ancestor(h)
          invariant h < 0 ==> pindex == null
          invariant forall k :: h < k <= tip.nHeight ==> vChain[k] == tip.Ancestor(k)
          invariant forall k :: 0 <= k <= h ==> vChain[k] == resized[k]
          decreases h + 1
        {
          vChain := vChain[pindex.nHeight := pindex];
          if h > 0 { tip.AncestorOfAncestor(h, h - 1); }
          pindex := pindex.pprev;
          h := h - 1;
        }
        if pindex != null { KeptBelow(before, resized, tip, h); }
      }
      atomicHeight := Height();
    }

    /** A slot that survived the resize with the right block has the right blocks below it. */
    static lemma KeptBelow(before: seq<BlockIndex?>, resized: seq<BlockIndex?>, tip: BlockIndex, h: int)
      requires before != [] ==> TracesBack(before, before[|before| - 1])
      requires tip.Linked() && |resized| == tip.nHeight + 1 && 0 <= h <= tip.nHeight && resized[h] == tip.Ancestor(h)
      requires forall k :: 0 <= k < |resized| ==> resized[k] == if k < |before| then before[k] else null
      ensures forall k :: 0 <= k <= h ==> resized[k] == tip.Ancestor(k)
    {
      var old_ := before[|before| - 1];
      forall k | 0 <= k <= h ensures resized[k] == tip.Ancestor(k) {
        old_.AncestorOfAncestor(h, k);
        tip.AncestorOfAncestor(h, k);
      }
    }

    /** FindFork: the highest ancestor of the given block that the chain contains, if there is any. */
    method FindFork(block: BlockIndex?) returns (r: BlockIndex?)
      requires Valid() && (block != null ==> block.Linked() && block.SkipsOk())
      ensures block == null ==> r == null
      ensures r != null ==> block != null && r.nHeight <= block.nHeight && r == block.Ancestor(r.nHeight) && Contains(r)
      ensures block != null ==> forall h :: (if r == null then 0 else r.nHeight + 1) <= h <= block.nHeight ==>
                !Contains(block.Ancestor(h))
    {
      if block == null { return null; }
      r := block;
      if r.nHeight > Height() { r := r.GetAncestor(Height()); }
      ghost var h := if r == null then -1 else r.nHeight;
      while r != null && !Contains(r)
        invariant -1 <= h <= block.nHeight && (h < 0 ==> r == null) && (h >= 0 ==> r == block.Ancestor(h))
        invariant forall k :: h < k <= block.nHeight ==> !Contains(block.Ancestor(k))
        decreases h + 1
      {
        if h > 0 { block.AncestorOfAncestor(h, h - 1); }
        r := r.pprev;
        h := h - 1;
      }
    }

    /** A lower block of a branch: from the chain if the branch is in it there, else along the skips. */
    method StepBack(ghost start: BlockIndex, block: BlockIndex, height: nat) returns (r: BlockIndex)
      requires Valid() && start.Linked() && block.Linked() && block.SkipsOk()
      requires height <= block.nHeight <= start.nHeight && block == start.Ancestor(block.nHeight)
      ensures r == start.Ancestor(height) && r.Linked() && r.SkipsOk()
    {
      start.AncestorOfAncestor(block.nHeight, height);
      if Contains(block) {
        ContainsAncestors(block);
        r := At(height);
      } else {
        r := block.GetAncestor(height);
      }
      LowerSkipsOk(block, height);
    }

    /**
     * A chain that shares the block at height `f` with the start shares a locator entry, at most twice as far
     * below the start as that block.
     */
    static lemma LocatorMeetsFork(start: BlockIndex, other: BlockIndex, f: nat) returns (i: nat)
      requires start.Linked() && other.Linked() && f <= start.nHeight && f <= other.nHeight
      requires start.Ancestor(f) == other.Ancestor(f)
      ensures var hs := LocatorHeights(start.nHeight, 1, 0);
              && i < |hs| && hs[i] <= f && start.Ancestor(hs[i]) == other.Ancestor(hs[i])
              && start.nHeight - hs[i] <= 2 * (start.nHeight - f)
    {
      i := LocatorNear(start.nHeight, start.nHeight, 1, 0, start.nHeight - f);
      var h := LocatorHeights(start.nHeight, 1, 0)[i];
      start.AncestorOfAncestor(f, h);
      other.AncestorOfAncestor(f, h);
    }

    static ghost function HeightsOf(blocks: seq<BlockIndex>): seq<int> {
      seq(|blocks|, i requires 0 <= i < |blocks| => blocks[i].nHeight)
    }

    static lemma AtLocatorHeights(start: BlockIndex, vHave: seq<BlockIndex>)
      requires start.Linked()
      requires var hs := LocatorHeights(start.nHeight, 1, 0);
               |vHave| == |hs| && forall i :: 0 <= i < |hs| ==> hs[i] <= start.nHeight && vHave[i] == start.Ancestor(hs[i])
      ensures SpreadOut(start.nHeight, HeightsOf(vHave))
    {
      hide SpreadOut, LocatorHeights;
      LocatorSpreads(start.nHeight);
      assert HeightsOf(vHave) == LocatorHeights(start.nHeight, 1, 0);
    }

    /** GetLocator: the ancestors of its argument at the locator heights. */
    method GetLocator(block: BlockIndex?) returns (vHave: seq<BlockIndex>)
      requires Valid() && (block != null ==> block.Linked() && block.SkipsOk())
      requires Tip() != null ==> Tip().SkipsOk()
      ensures var start := if block == null then Tip() else block;
              if start == null then vHave == []
              else
                var hs := LocatorHeights(start.nHeight, 1, 0);
                && |vHave| == |hs| && (forall i :: 0 <= i < |hs| ==> hs[i] <= start.nHeight && vHave[i] == start.Ancestor(hs[i]))
                && SpreadOut(start.nHeight, HeightsOf(vHave))
    {
      hide BlockIndex.SkipsOk, SpreadOut, LocatorHeights, HeightsOf;
      var nStep := 1;
      vHave := [];
      var pindex := block;
      if pindex == null { pindex := Tip(); }
      if pindex == null { return; }
      ghost var start: BlockIndex := pindex;
      ghost var all := LocatorHeights(start.nHeight, 1, 0);
      while pindex != null
        invariant nStep > 0 && start.Linked()
        invariant pindex != null && pindex.Linked() && pindex.SkipsOk() && pindex.nHeight <= start.nHeight && pindex == start.Ancestor(pindex.nHeight)
        invariant |vHave| <= |all| && all[|vHave|..] == LocatorHeights(pindex.nHeight, nStep, |vHave|)
        invariant forall i :: 0 <= i < |vHave| ==> all[i] <= start.nHeight && vHave[i] == start.Ancestor(all[i])
        decreases pindex.nHeight
      {
        ghost var tail := all[|vHave|..];
        LocatorUnfolds(pindex.nHeight, nStep, |vHave|);
        assert all[|vHave|] == tail[0] == pindex.nHeight;
        assert all[|vHave| + 1..] == tail[1..];
        vHave := vHave + [pindex];
        if pindex.nHeight == 0 {
          AtLocatorHeights(start, vHave);
          break;
        }
        var nHeight := Max(pindex.nHeight - nStep, 0);
        pindex := StepBack(start, pindex, nHeight);
        if |vHave| > 10 { nStep := nStep * 2; }
      }
    }

    static lemma LowerSkipsOk(b: BlockIndex, h: int)
      requires b.Linked() && b.SkipsOk() && 0 <= h <= b.nHeight
      ensures b.Ancestor(h).SkipsOk()
    {
      forall k | 0 <= k <= h ensures b.Ancestor(h).Ancestor(k) == b.Ancestor(k) {
        b.AncestorOfAncestor(h, k);
      }
    }

    /** FindEarliestAtLeast: the lowest block that is late enough and high enough, by binary search. */
    method FindEarliestAtLeast(nTime: int, height: int) returns (r: BlockIndex?)
      requires Valid()
      ensures r == null ==> forall h :: 0 <= h < |vChain| ==> Before(vChain[h], nTime, height)
      ensures r != null ==> Contains(r) && !Before(r, nTime, height)
      ensures r != null ==> forall h :: 0 <= h < r.nHeight ==> Before(vChain[h], nTime, height)
    {
      var lo, hi := 0, |vChain|;
      while lo < hi
        invariant 0 <= lo <= hi <= |vChain|
        invariant forall h :: 0 <= h < lo ==> Before(vChain[h], nTime, height)
        invariant forall h :: hi <= h < |vChain| ==> !Before(vChain[h], nTime, height)
      {
        var mid := lo + (hi - lo) / 2;
        forall h | 0 <= h < |vChain|
          ensures Before(vChain[mid], nTime, height) && h <= mid ==> Before(vChain[h], nTime, height)
          ensures !Before(vChain[mid], nTime, height) && mid <= h ==> !Before(vChain[h], nTime, height)
        {
          if h <= mid { TimesAscend(Tip(), h, mid); } else { TimesAscend(Tip(), mid, h); }
        }
        if Before(vChain[mid], nTime, height) { lo := mid + 1; } else { hi := mid; }
      }
      r := if lo == |vChain| then null else vChain[lo];
    }

    static predicate Before(b: BlockIndex?, nTime: int, height: int) {
      b != null && (b.nTimeMax < nTime || b.nHeight < height)
    }

    static lemma {:induction false} TimesAscend(b: BlockIndex, h: int, k: int)
      requires b.Linked() && 0 <= h <= k <= b.nHeight
      ensures b.Ancestor(h).nTimeMax <= b.Ancestor(k).nTimeMax
      decreases b.nHeight
    {
      if k < b.nHeight {
        TimesAscend(b.pprev, h, k);
      } else if h < k {
        TimesAscend(b.pprev, h, k - 1);
        assert b.Ancestor(k - 1) == b.pprev;
      }
    }
  }
}
