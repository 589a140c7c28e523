/** Where the transactions of a compact block go, and what rebuilding the block needs. */
module CompactBlock {
  import opened Common

  /** A transaction, known by its hash; a null one has neither inputs nor outputs. */
  datatype Tx = Tx(hash: nat, isNull: bool)

  datatype Prefilled = Prefilled(index: nat, tx: Tx)

  /** sid is the keyed short hash of the message. */
  datatype Message = Message(hasHeader: bool, shortIds: seq<nat>, prefilled: seq<Prefilled>, sid: nat -> nat)

  datatype Status = Ok | Invalid | Failed | CheckBlockFailed

  function TxCount(m: Message): nat { |m.shortIds| + |m.prefilled| }

  type Slots = seq<Option<Tx>>

  // ---- Places ----

  /** Prefilled indexes are sent as distances; this is the position of entry i. */
  function Position(p: seq<Prefilled>, i: nat): (r: nat)
    requires i < |p|
    ensures i <= r
  {
    if i == 0 then p[0].index else Position(p, i - 1) + p[i].index + 1
  }

  ghost predicate Acceptable(m: Message, limit: nat) {
    m.hasHeader && 0 < TxCount(m) <= limit &&
    forall i :: 0 <= i < |m.prefilled| ==>
      !m.prefilled[i].tx.isNull && Position(m.prefilled, i) <= 0xffff && Position(m.prefilled, i) <= |m.shortIds| + i
  }

  /** The message entries for transactions at strictly increasing positions. */
  function Distances(at: seq<nat>, txs: seq<Tx>): (p: seq<Prefilled>)
    requires |at| == |txs| && forall i :: 0 < i < |at| ==> at[i - 1] < at[i]
    ensures |p| == |at|
  {
    seq(|at|, i requires 0 <= i < |at| => Prefilled(if i == 0 then at[0] else at[i] - at[i - 1] - 1, txs[i]))
  }

  /** Distances and strictly increasing positions correspond to each other. */
  lemma {:induction false} PositionsRoundTrip(at: seq<nat>, txs: seq<Tx>, i: nat)
    requires |at| == |txs| && forall i :: 0 < i < |at| ==> at[i - 1] < at[i]
    requires i < |at|
    ensures Position(Distances(at, txs), i) == at[i] && Distances(at, txs)[i].tx == txs[i]
  {
    if i > 0 { PositionsRoundTrip(at, txs, i - 1); }
  }

  ghost predicate Within(m: Message) {
    forall i :: 0 <= i < |m.prefilled| ==> Position(m.prefilled, i) < TxCount(m) && Position(m.prefilled, i) <= 0xffff
  }

  /** The positions are acceptable exactly when they all lie within the block and in 16 bits. */
  lemma AcceptableExactly(m: Message, limit: nat)
    ensures Acceptable(m, limit) <==>
            && m.hasHeader && 0 < TxCount(m) <= limit && Within(m)
            && forall i :: 0 <= i < |m.prefilled| ==> !m.prefilled[i].tx.isNull
  {
    hide Position;
    var n := |m.prefilled|;
    if Within(m) {
      forall i | 0 <= i < n ensures Position(m.prefilled, i) <= |m.shortIds| + i {
        PositionsSpread(m.prefilled, i, n - 1);
        assert Position(m.prefilled, n - 1) < TxCount(m);
      }
    }
  }

  lemma {:induction false} PositionsSpread(p: seq<Prefilled>, i: nat, j: nat)
    requires i <= j < |p|
    ensures Position(p, j) >= Position(p, i) + (j - i)
  {
    if i < j { PositionsSpread(p, i, j - 1); }
  }

  function Blank(n: nat): Slots { seq(n, _ => None) }

  /** The slots after the first i prefilled transactions have been put down. */
  ghost function Placed(m: Message, i: nat): (s: Slots)
    requires i <= |m.prefilled|
    ensures |s| == TxCount(m)
  {
    if i == 0 then Blank(TxCount(m))
    else
      var s := Placed(m, i - 1);
      var p := Position(m.prefilled, i - 1);
      if p < |s| then s[p := Some(m.prefilled[i - 1].tx)] else s
  }

  /** The empty positions, in order. */
  function Empties(s: Slots): (e: seq<nat>)
    ensures forall k :: 0 <= k < |e| ==> e[k] < |s| && s[e[k]].None?
    ensures forall j, k :: 0 <= j < k < |e| ==> e[j] < e[k]
  {
    if s == [] then [] else
    var n := |s| - 1;
    Empties(s[..n]) + if s[n].None? then [n] else []
  }

  lemma {:induction false} EmptiesHas(s: Slots, p: nat)
    requires p < |s| && s[p].None?
    ensures p in Empties(s)
  {
    if p < |s| - 1 { EmptiesHas(s[..|s| - 1], p); }
  }

  lemma {:induction false} PositionsIncrease(p: seq<Prefilled>, i: nat, j: nat)
    requires i < j < |p|
    ensures Position(p, i) < Position(p, j)
  {
    if i < j - 1 { PositionsIncrease(p, i, j - 1); }
  }

  /** A position beyond the last one placed is still empty. */
  lemma {:induction false} BeyondIsEmpty(m: Message, i: nat, q: nat)
    requires i <= |m.prefilled| && q < TxCount(m)
    requires i > 0 ==> Position(m.prefilled, i - 1) < q
    ensures Placed(m, i)[q].None?
  {
    hide Position;
    if i > 0 {
      if i > 1 { PositionsIncrease(m.prefilled, i - 2, i - 1); }
      BeyondIsEmpty(m, i - 1, q);
    }
  }

  lemma {:induction false} EmptiesAll(n: nat)
    ensures |Empties(Blank(n))| == n
  {
    if n > 0 {
      EmptiesAll(n - 1);
      assert Blank(n)[..n - 1] == Blank(n - 1);
    }
  }

  lemma {:induction false} EmptiesFill(s: Slots, p: nat, tx: Tx)
    requires p < |s| && s[p].None?
    ensures |Empties(s[p := Some(tx)])| == |Empties(s)| - 1
  {
    var n := |s| - 1;
    if p < n {
      EmptiesFill(s[..n], p, tx);
      assert s[p := Some(tx)][..n] == s[..n][p := Some(tx)];
    } else {
      assert s[p := Some(tx)][..n] == s[..n];
    }
  }

  /** Each prefilled transaction takes one place: as many are left as there are short ids. */
  lemma {:induction false} PlacesLeft(m: Message, i: nat)
    requires i <= |m.prefilled|
    requires forall k :: 0 <= k < i ==> Position(m.prefilled, k) <= |m.shortIds| + k
    ensures |Empties(Placed(m, i))| == TxCount(m) - i
    ensures forall k :: 0 <= k < i ==> Placed(m, i)[Position(m.prefilled, k)] == Some(m.prefilled[k].tx)
  {
    hide Empties, Position;
    if i == 0 {
      EmptiesAll(TxCount(m));
    } else {
      PlacesLeft(m, i - 1);
      var p := Position(m.prefilled, i - 1);
      forall k | 0 <= k < i - 1 ensures Position(m.prefilled, k) < p { PositionsIncrease(m.prefilled, k, i - 1); }
      BeyondIsEmpty(m, i - 1, p);
      EmptiesFill(Placed(m, i - 1), p, m.prefilled[i - 1].tx);
    }
  }

  ghost predicate Taken(m: Message, i: nat, p: nat)
    requires i <= |m.prefilled|
  {
    exists k :: 0 <= k < i && Position(m.prefilled, k) == p
  }

  lemma {:induction false} PlacedTaken(m: Message, i: nat, p: nat)
    requires i <= |m.prefilled| && p < TxCount(m)
    ensures Placed(m, i)[p].Some? <==> Taken(m, i, p)
  {
    hide Position;
    if i > 0 { PlacedTaken(m, i - 1, p); }
  }

  /**
   * Placement is one to one: prefilled positions strictly increase within the block, and the
   * places for short ids are the other positions, as many as there are short ids.
   */
  lemma PlacementBijection(m: Message, limit: nat)
    requires Acceptable(m, limit)
    ensures |Places(m)| == |m.shortIds|
    ensures forall i, j :: 0 <= i < j < |m.prefilled| ==> Position(m.prefilled, i) < Position(m.prefilled, j) < TxCount(m)
    ensures forall j, k :: 0 <= j < k < |Places(m)| ==> Places(m)[j] < Places(m)[k] < TxCount(m)
    ensures forall p :: 0 <= p < TxCount(m) ==> (p in Places(m) <==> !Taken(m, |m.prefilled|, p))
  {
    hide Position, Placed, Taken;
    var n := |m.prefilled|;
    PlacesLeft(m, n);
    forall i, j | 0 <= i < j < n ensures Position(m.prefilled, i) < Position(m.prefilled, j) { PositionsIncrease(m.prefilled, i, j); }
    forall p | 0 <= p < TxCount(m) ensures p in Places(m) <==> !Taken(m, n, p) {
      PlacedTaken(m, n, p);
      if Placed(m, n)[p].None? { EmptiesHas(Placed(m, n), p); }
    }
  }

  /** Empties of a prefix is a prefix of the empties. */
  lemma {:induction false} EmptiesPrefix(s: Slots, p: nat)
    requires p <= |s|
    ensures Empties(s[..p]) <= Empties(s)
  {
    if p < |s| {
      var n := |s| - 1;
      EmptiesPrefix(s[..n], p);
      assert s[..n][..p] == s[..p];
    } else {
      assert s[..p] == s;
    }
  }

  lemma EmptiesNext(s: Slots, p: nat)
    requires p < |s|
    ensures Empties(s[..p + 1]) == Empties(s[..p]) + if s[p].None? then [p] else []
  {
    assert s[..p + 1][..p] == s[..p];
  }

  // ---- Messages that describe a block ----

  /** The places for short ids. */
  ghost function Places(m: Message): seq<nat> { Empties(Placed(m, |m.prefilled|)) }

  ghost predicate Describes(m: Message, vtx: seq<Tx>) {
    |vtx| == TxCount(m) && |Places(m)| == |m.shortIds| &&
    (forall i :: 0 <= i < |m.prefilled| ==> Position(m.prefilled, i) < |vtx| && vtx[Position(m.prefilled, i)] == m.prefilled[i].tx) &&
    (forall k :: 0 <= k < |m.shortIds| ==> m.sid(vtx[Places(m)[k]].hash) == m.shortIds[k])
  }

  /** No candidate other than the block's own transaction answers to one of its short ids. */
  ghost predicate NoCollision(m: Message, vtx: seq<Tx>, candidates: seq<(nat, Tx)>)
    requires Describes(m, vtx)
  {
    forall c, k :: 0 <= c < |candidates| && 0 <= k < |m.shortIds| && m.sid(candidates[c].0) == m.shortIds[k]
      ==> candidates[c].1 == vtx[Places(m)[k]]
  }

  /** Every filled slot holds the block's transaction. */
  ghost predicate Agrees(s: Slots, vtx: seq<Tx>) {
    |s| == |vtx| && forall p :: 0 <= p < |s| && s[p].Some? ==> s[p].value == vtx[p]
  }

  /** Once the prefilled transactions are placed, the slots agree with the described block. */
  lemma {:induction false} PlacedAgrees(m: Message, vtx: seq<Tx>, i: nat)
    requires Describes(m, vtx) && i <= |m.prefilled|
    ensures Agrees(Placed(m, i), vtx)
  {
    if i > 0 { PlacedAgrees(m, vtx, i - 1); }
  }

  // ---- The sender ----

  /** The coinbase in full, a short id for every other transaction. */
  method Announce(vtx: seq<Tx>, sid: nat -> nat) returns (m: Message)
    requires vtx != []
    ensures m.hasHeader && TxCount(m) == |vtx| && m.sid == sid
    ensures m.prefilled == [Prefilled(0, vtx[0])]
    ensures Describes(m, vtx)
    ensures forall limit :: !vtx[0].isNull && |vtx| <= limit ==> Acceptable(m, limit)
  {
    var ids := [];
    for i := 1 to |vtx|
      invariant |ids| == i - 1
      invariant forall k :: 0 <= k < |ids| ==> ids[k] == sid(vtx[k + 1].hash)
    {
      ids := ids + [sid(vtx[i].hash)];
    }
    m := Message(true, ids, [Prefilled(0, vtx[0])], sid);
    PlacesAfterFirst(m);
  }

  lemma PlacesAfterFirst(m: Message)
    requires |m.prefilled| == 1 && m.prefilled[0].index == 0
    ensures |Places(m)| == |m.shortIds| && forall k :: 0 <= k < |m.shortIds| ==> Places(m)[k] == k + 1
  {
    assert Position(m.prefilled, 0) == 0;
    var s := Placed(m, 1);
    assert Placed(m, 0)[0 := Some(m.prefilled[0].tx)] == s;
    TailEmpty(s, |s|);
    assert s[..|s|] == s;
  }

  lemma NoEmpties(s: Slots)
    ensures Empties(s[..0]) == []
  {}

  lemma {:induction false} TailEmpty(s: Slots, n: nat)
    requires 1 <= n <= |s| && s[0].Some? && forall p :: 1 <= p < |s| ==> s[p].None?
    ensures |Empties(s[..n])| == n - 1 && forall k :: 0 <= k < n - 1 ==> Empties(s[..n])[k] == k + 1
  {
    NoEmpties(s);
    hide Empties;
    EmptiesNext(s, n - 1);
    if n > 1 { TailEmpty(s, n - 1); }
  }

  // ---- Filling in ----

  /** The slots with the missing transactions put into the empty ones in order. */
  function Fill(s: Slots, missing: seq<Tx>): Option<seq<Tx>>
    decreases |s|
  {
    if s == [] then (if missing == [] then Some([]) else None)
    else if s[0].Some? then Cons(s[0].value, Fill(s[1..], missing))
    else if missing == [] then None
    else Cons(missing[0], Fill(s[1..], missing[1..]))
  }

  function Cons(x: Tx, r: Option<seq<Tx>>): Option<seq<Tx>> {
    if r.None? then None else Some([x] + r.value)
  }

  /** What the sender has to supply. */
  function Missing(s: Slots, vtx: seq<Tx>): seq<Tx>
    requires |s| == |vtx|
  {
    if s == [] then [] else (if s[0].None? then [vtx[0]] else []) + Missing(s[1..], vtx[1..])
  }

  /** Filling gives this block exactly when the slots agree with it and the rest is supplied in order. */
  lemma {:induction false} FillExactly(s: Slots, missing: seq<Tx>, vtx: seq<Tx>)
    requires |s| == |vtx|
    ensures Fill(s, missing) == Some(vtx) <==> Agrees(s, vtx) && missing == Missing(s, vtx)
    decreases |s|
  {
    if s != [] {
      var rest := if s[0].None? && missing != [] then missing[1..] else missing;
      FillExactly(s[1..], rest, vtx[1..]);
      assert [vtx[0]] + vtx[1..] == vtx;
      assert Agrees(s, vtx) <==> Agrees(s[1..], vtx[1..]) && (s[0].Some? ==> s[0].value == vtx[0]) by {
        AgreesTail(s, vtx);
      }
      assert s[0].None? && missing != [] ==> missing == [missing[0]] + missing[1..];
    }
  }

  lemma AgreesTail(s: Slots, vtx: seq<Tx>)
    requires |s| == |vtx| && s != []
    ensures Agrees(s, vtx) <==> Agrees(s[1..], vtx[1..]) && (s[0].Some? ==> s[0].value == vtx[0])
  {
    if Agrees(s[1..], vtx[1..]) && (s[0].Some? ==> s[0].value == vtx[0]) {
      forall p | 0 <= p < |s| && s[p].Some? ensures s[p].value == vtx[p] {
        if p > 0 { assert s[1..][p - 1] == s[p] && vtx[1..][p - 1] == vtx[p]; }
      }
    }
  }
}
