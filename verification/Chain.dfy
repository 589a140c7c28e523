/** The block tree with its skip list, and the active chain (src/chain.h, src/chain.cpp). */
module Chain {
  import opened Bits
  import opened SkipWalk

  // ----- the block tree -----

  class BlockIndex {
    const pprev: BlockIndex?
    const nHeight: nat
    const nTimeMax: int
    var pskip: BlockIndex?

    constructor (pprev: BlockIndex?, nTime: int)
      requires pprev != null ==> pprev.Linked()
      ensures Linked() && this.pprev == pprev && pskip == null
    {
      this.pprev := pprev;
      this.nHeight := if pprev == null then 0 else pprev.nHeight + 1;
      this.nTimeMax := if pprev == null || pprev.nTimeMax < nTime then nTime else pprev.nTimeMax;
      this.pskip := null;
    }

    /** A block is one higher than its predecessor; only the genesis block has none. */
    ghost predicate Linked()
      decreases nHeight
    {
      if pprev == null then nHeight == 0
      else nHeight == pprev.nHeight + 1 && pprev.nTimeMax <= nTimeMax && pprev.Linked()
    }

    /** The plain walk along `pprev`, nHeight - h steps. */
    ghost function Ancestor(h: int): (b: BlockIndex)
      requires Linked() && 0 <= h <= nHeight
      ensures b.Linked() && b.nHeight == h
      decreases nHeight
    {
      if h == nHeight then this else pprev.Ancestor(h)
    }

    ghost function Lineage(): set<BlockIndex>
      requires Linked()
      ensures this in Lineage()
      decreases nHeight
    {
      {this} + if pprev == null then {} else pprev.Lineage()
    }

    ghost function SkipTarget(): BlockIndex
      requires Linked() && nHeight > 0
    {
      SkipDescends(nHeight);
      Ancestor(GetSkipHeight(nHeight))
    }

    /** In this block and all its ancestors, `pskip` is unset or what BuildSkip sets it to. */
    ghost predicate SkipsOk()
      requires Linked()
      reads Lineage()
    {
      forall h | 0 <= h <= nHeight ::
        (AncestorInLineage(h); Ancestor(h).pskip != null ==> h > 0 && Ancestor(h).pskip == Ancestor(h).SkipTarget())
    }

    lemma {:induction false} AncestorOfAncestor(h: int, k: int)
      requires Linked() && 0 <= k <= h <= nHeight
      ensures Ancestor(h).Ancestor(k) == Ancestor(k)
      decreases nHeight
    {
      if h < nHeight { pprev.AncestorOfAncestor(h, k); }
    }

    lemma {:induction false} AncestorInLineage(h: int)
      requires Linked() && 0 <= h <= nHeight
      ensures Ancestor(h) in Lineage()
      decreases nHeight
    {
      if h < nHeight { pprev.AncestorInLineage(h); }
    }

    /** BuildSkip has been called on this block and all its ancestors but the first. */
    ghost predicate AllBuilt()
      requires Linked()
      reads Lineage()
    {
      forall h | 0 < h <= nHeight :: (AncestorInLineage(h); Ancestor(h).pskip != null)
    }

    /** GetAncestor: it reaches the block that the plain walk reaches. */
    method GetAncestor(height: int) returns (r: BlockIndex?)
      requires Linked() && SkipsOk()
      ensures height < 0 || height > nHeight ==> r == null
      ensures 0 <= height <= nHeight ==> r == Ancestor(height)
      ensures SkipsOk()
    {
      if height > nHeight || height < 0 { return null; }
      ghost var steps;
      r, steps := WalkBack(height);
    }

    /**
     * The loop of GetAncestor, by skips where they help. Where all skips are built, the number of its
     * steps is bounded by the bit length of the height.
     */
    method WalkBack(height: int) returns (r: BlockIndex, ghost steps: nat)
      requires Linked() && SkipsOk() && 0 <= height <= nHeight
      ensures r == Ancestor(height) && SkipsOk() && AllBuilt() == old(AllBuilt())
      ensures AllBuilt() ==> steps == WalkSteps(nHeight, height)
      ensures AllBuilt() ==> forall k: nat :: nHeight < Pow2(k) ==> steps <= StepBound(k)
    {
      hide GetSkipHeight, WalkSteps, StepBound, Pow2;
      steps := 0;
      var pindexWalk: BlockIndex := this;
      var heightWalk := nHeight;
      forall k: nat | nHeight < Pow2(k) ensures WalkSteps(nHeight, height) <= StepBound(k) {
        WalkIsShort(k, nHeight, height);
      }
      NoSteps(height);
      while heightWalk > height
        invariant height <= heightWalk <= nHeight && pindexWalk == Ancestor(heightWalk) && SkipsOk()
        invariant AllBuilt() == old(AllBuilt())
        invariant AllBuilt() ==> steps + WalkSteps(heightWalk, height) == WalkSteps(nHeight, height)
        decreases heightWalk
      {
        StepOf(heightWalk, height);
        assert AllBuilt() ==> pindexWalk.pskip != null;
        steps := steps + 1;
        assert pindexWalk.pskip != null ==> pindexWalk.pskip == pindexWalk.SkipTarget();
        SkipDescends(heightWalk);
        var heightSkip := GetSkipHeight(heightWalk);
        var heightSkipPrev := GetSkipHeight(heightWalk - 1);
        if pindexWalk.pskip != null &&
           (heightSkip == height ||
            (heightSkip > height && !(heightSkipPrev < heightSkip - 2 && heightSkipPrev >= height))) {
          AncestorOfAncestor(heightWalk, heightSkip);
          assert pindexWalk.pskip == pindexWalk.SkipTarget() == Ancestor(heightSkip);
          pindexWalk := pindexWalk.pskip;
          heightWalk := heightSkip;
        } else {
          AncestorOfAncestor(heightWalk, heightWalk - 1);
          assert pindexWalk.pprev != null && pindexWalk.pprev == pindexWalk.Ancestor(heightWalk - 1);
          pindexWalk := pindexWalk.pprev;
          heightWalk := heightWalk - 1;
        }
      }
      r := pindexWalk;
    }

    /** BuildSkip keeps the condition GetAncestor relies on, and extends it to this block. */
    method BuildSkip()
      requires Linked() && (pprev != null ==> pprev.SkipsOk()) && (pprev == null ==> pskip == null)
      modifies this`pskip
      ensures SkipsOk() && (pprev != null ==> pskip == SkipTarget())
      ensures old(pprev != null ==> pprev.AllBuilt()) ==> AllBuilt()
    {
      hide GetSkipHeight;
      if pprev != null {
        SkipDescends(nHeight);
        var target, _ := pprev.WalkBack(GetSkipHeight(nHeight));
        assert pprev.SkipsOk();
        ghost var built := pprev.AllBuilt();
        pskip := target;
        assert pskip == SkipTarget();
        forall h | 0 < h <= nHeight ensures built ==> Ancestor(h).pskip != null {
          assert h < nHeight ==> Ancestor(h) == pprev.Ancestor(h) && Ancestor(h) != this;
        }
        forall h | 0 <= h <= nHeight
          ensures Ancestor(h).pskip != null ==> h > 0 && Ancestor(h).pskip == Ancestor(h).SkipTarget()
        {
          assert h < nHeight ==> Ancestor(h) == pprev.Ancestor(h) && Ancestor(h) != this;
        }
      }
    }
  }

  /** The last common ancestor of two blocks over the same genesis block: shared, and the highest that is. */
  method LastCommonAncestor(pa: BlockIndex, pb: BlockIndex) returns (r: BlockIndex)
    requires pa.Linked() && pa.SkipsOk() && pb.Linked() && pb.SkipsOk() && pa.Ancestor(0) == pb.Ancestor(0)
    ensures r.nHeight <= pa.nHeight && r.nHeight <= pb.nHeight
    ensures r == pa.Ancestor(r.nHeight) == pb.Ancestor(r.nHeight)
    ensures forall h :: r.nHeight < h <= pa.nHeight && h <= pb.nHeight ==> pa.Ancestor(h) != pb.Ancestor(h)
  {
    var a: BlockIndex?, b: BlockIndex? := pa, pb;
    if a.nHeight > b.nHeight {
      a := a.GetAncestor(b.nHeight);
    } else if b.nHeight > a.nHeight {
      b := b.GetAncestor(a.nHeight);
    }
    ghost var h := a.nHeight;
    while a != b && a != null && b != null
      invariant a != null && b != null && 0 <= h <= pa.nHeight && h <= pb.nHeight
      invariant a == pa.Ancestor(h) && b == pb.Ancestor(h)
      invariant forall k :: h < k <= pa.nHeight && k <= pb.nHeight ==> pa.Ancestor(k) != pb.Ancestor(k)
      decreases h
    {
      assert h > 0;
      pa.AncestorOfAncestor(h, h - 1);
      pb.AncestorOfAncestor(h, h - 1);
      a := a.pprev;
      b := b.pprev;
      h := h - 1;
    }
    assert a == b;
    r := a;
  }
}
