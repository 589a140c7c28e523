/** A block being rebuilt from a compact message, the mempool and a few extra transactions. */
module PartialBlock {
  import opened Common
  import opened CompactBlock

  type Candidates = seq<(nat, Tx)>

  ghost predicate Distinct(ids: seq<nat>) {
    forall i, j :: 0 <= i < j < |ids| ==> ids[i] != ids[j]
  }

  /** Short id k goes with the k-th free place. */
  ghost predicate MapOk(m: Message, positions: map<nat, nat>) {
    Distinct(m.shortIds) && |Places(m)| == |m.shortIds| &&
    (forall k :: 0 <= k < |m.shortIds| ==> m.shortIds[k] in positions && positions[m.shortIds[k]] == Places(m)[k]) &&
    forall id :: id in positions ==> id in m.shortIds
  }

  /** While candidates are scanned: prefilled slots stay, have marks every place ever filled. */
  ghost predicate Scanning(m: Message, s: Slots, have: seq<bool>, count: nat) {
    |s| == |have| == TxCount(m) && |Places(m)| == |m.shortIds| &&
    (forall p :: 0 <= p < |s| && Placed(m, |m.prefilled|)[p].Some? ==> s[p] == Placed(m, |m.prefilled|)[p]) &&
    (forall p :: 0 <= p < |s| && Placed(m, |m.prefilled|)[p].None? && !have[p] ==> s[p].None?) &&
    |Empties(s)| + count == |m.shortIds|
  }

  /** The message describes this block and no candidate collides with one of its transactions. */
  ghost predicate Safe(m: Message, vtx: seq<Tx>, pool: Candidates, extra: Candidates) {
    Describes(m, vtx) && NoCollision(m, vtx, pool) && NoCollision(m, vtx, extra)
  }

  /** And no two pool entries answer to the same short id. */
  ghost predicate Clean(m: Message, vtx: seq<Tx>, pool: Candidates, extra: Candidates) {
    Safe(m, vtx, pool, extra) &&
    forall i, j :: 0 <= i < j < |pool| && m.sid(pool[i].0) in m.shortIds ==> m.sid(pool[i].0) != m.sid(pool[j].0)
  }

  ghost predicate Answers(m: Message, c: Candidates, k: nat)
    requires k < |m.shortIds|
  {
    exists i :: 0 <= i < |c| && m.sid(c[i].0) == m.shortIds[k]
  }

  // ---- One candidate ----

  datatype Scan = Scan(slots: Slots, have: seq<bool>, count: nat)

  /** A first answer is kept; a second one empties the slot, unless it is allowed to be the same transaction. */
  function Consider(s: Scan, p: nat, tx: Tx, sameAllowed: bool): Scan
    requires p < |s.slots| == |s.have|
  {
    if !s.have[p] then Scan(s.slots[p := Some(tx)], s.have[p := true], s.count + 1)
    else if s.slots[p].Some? && !(sameAllowed && s.slots[p].value.hash == tx.hash) then
      Scan(s.slots[p := None], s.have, if s.count > 0 then s.count - 1 else 0)
    else s
  }

  lemma PlaceOf(m: Message, positions: map<nat, nat>, id: nat) returns (k: nat)
    requires MapOk(m, positions) && id in positions
    ensures k < |m.shortIds| && m.shortIds[k] == id && positions[id] == Places(m)[k]
    ensures positions[id] < TxCount(m) && Placed(m, |m.prefilled|)[positions[id]].None?
  {
    k :| 0 <= k < |m.shortIds| && m.shortIds[k] == id;
  }

  /** The counter stays exact, and never has to go below zero. */
  lemma ConsiderKeeps(m: Message, s: Scan, p: nat, tx: Tx, sameAllowed: bool)
    requires Scanning(m, s.slots, s.have, s.count)
    requires p < TxCount(m) && Placed(m, |m.prefilled|)[p].None?
    ensures var t := Consider(s, p, tx, sameAllowed); Scanning(m, t.slots, t.have, t.count)
    ensures s.have[p] && s.slots[p].Some? ==> s.count > 0
  {
    hide Empties, Placed;
    if !s.have[p] {
      EmptiesFill(s.slots, p, tx);
    } else if s.slots[p].Some? {
      var cleared := s.slots[p := None];
      EmptiesFill(cleared, p, s.slots[p].value);
      assert cleared[p := Some(s.slots[p].value)] == s.slots;
      RoomLeft(m, cleared);
    }
  }

  /** At most the places for short ids are empty. */
  lemma RoomLeft(m: Message, s: Slots)
    requires |s| == TxCount(m) && |Places(m)| == |m.shortIds|
    requires forall p :: 0 <= p < |s| && Placed(m, |m.prefilled|)[p].Some? ==> s[p].Some?
    ensures |Empties(s)| <= |m.shortIds|
  {
    FewerEmpties(s, Placed(m, |m.prefilled|));
  }

  lemma {:induction false} FewerEmpties(s: Slots, t: Slots)
    requires |s| == |t| && forall p :: 0 <= p < |s| && t[p].Some? ==> s[p].Some?
    ensures |Empties(s)| <= |Empties(t)|
  {
    if s != [] { FewerEmpties(s[..|s| - 1], t[..|t| - 1]); }
  }

  // ---- What a scan leaves in a place ----

  /** Those of the first n candidates that answer to a short id, in order. */
  function AnswersTo(m: Message, c: Candidates, n: nat, id: nat): seq<Tx>
    requires n <= |c|
  {
    if n == 0 then [] else AnswersTo(m, c, n - 1, id) + if m.sid(c[n - 1].0) == id then [c[n - 1].1] else []
  }

  /**
   * What is left in a place to whose short id `pool` and then `extra` answered: the first answer, unless two
   * came from the pool or another transaction came from the extra ones.
   */
  ghost function Survivor(pool: seq<Tx>, extra: seq<Tx>): Option<Tx> {
    var all := pool + extra;
    if |pool| <= 1 && all != [] && forall i :: 0 <= i < |extra| ==> extra[i].hash == all[0].hash then Some(all[0]) else None
  }

  lemma SurvivorPool(pool: seq<Tx>, tx: Tx)
    ensures Survivor(pool + [tx], []) == if pool == [] then Some(tx) else None
  {
  }

  lemma SurvivorExtra(pool: seq<Tx>, extra: seq<Tx>, tx: Tx)
    ensures var s := Survivor(pool, extra);
            Survivor(pool, extra + [tx]) ==
              if pool + extra == [] then Some(tx) else if s.Some? && s.value.hash != tx.hash then None else s
  {
    var all, more := pool + extra, pool + (extra + [tx]);
    assert more == all + [tx];
    if all != [] {
      assert more[0] == all[0];
      assert forall i :: 0 <= i < |extra| ==> (extra + [tx])[i] == extra[i];
      assert (extra + [tx])[|extra|] == tx;
    }
  }

  lemma SurvivorIs(pool: seq<Tx>, extra: seq<Tx>, x: Tx)
    requires (forall y :: y in pool ==> y == x) && (forall y :: y in extra ==> y == x)
    ensures Survivor(pool, extra).Some? ==> Survivor(pool, extra).value == x
    ensures |pool| <= 1 ==> (Survivor(pool, extra).Some? <==> pool != [] || extra != [])
  {
    var all := pool + extra;
    if all != [] {
      assert all[0] in pool || all[0] in extra;
      assert forall i :: 0 <= i < |extra| ==> extra[i] in extra;
    }
  }

  ghost function Left(m: Message, pool: Candidates, i: nat, extra: Candidates, j: nat, k: nat): Option<Tx>
    requires i <= |pool| && j <= |extra| && k < |m.shortIds|
  {
    Survivor(AnswersTo(m, pool, i, m.shortIds[k]), AnswersTo(m, extra, j, m.shortIds[k]))
  }

  /** After the first i pool entries and the first j extra ones, every place is as it should be. */
  ghost predicate Exact(m: Message, s: Scan, pool: Candidates, i: nat, extra: Candidates, j: nat) {
    i <= |pool| && j <= |extra| && |s.slots| == |s.have| == TxCount(m) && |Places(m)| == |m.shortIds| &&
    forall k :: 0 <= k < |m.shortIds| ==>
      s.slots[Places(m)[k]] == Left(m, pool, i, extra, j, k) &&
      (s.have[Places(m)[k]] <==> AnswersTo(m, pool, i, m.shortIds[k]) + AnswersTo(m, extra, j, m.shortIds[k]) != [])
  }

  lemma {:induction false} PlacesDiffer(m: Message, j: nat, k: nat)
    requires j < |Places(m)| && k < |Places(m)| && j != k
    ensures Places(m)[j] != Places(m)[k]
  {}

  lemma PoolExact(m: Message, s: Scan, pool: Candidates, i: nat, extra: Candidates, k: nat)
    requires i < |pool| && Exact(m, s, pool, i, extra, 0) && Distinct(m.shortIds)
    requires k < |m.shortIds| && m.sid(pool[i].0) == m.shortIds[k]
    ensures Exact(m, Consider(s, Places(m)[k], pool[i].1, false), pool, i + 1, extra, 0)
  {
    hide Empties, Survivor;
    var was := AnswersTo(m, pool, i, m.shortIds[k]);
    assert AnswersTo(m, pool, i + 1, m.shortIds[k]) == was + [pool[i].1];
    assert AnswersTo(m, extra, 0, m.shortIds[k]) == [] && was + [] == was;
    SurvivorPool(was, pool[i].1);
    forall j | 0 <= j < |m.shortIds| && j != k
      ensures Places(m)[j] != Places(m)[k] && AnswersTo(m, pool, i + 1, m.shortIds[j]) == AnswersTo(m, pool, i, m.shortIds[j])
    {
      PlacesDiffer(m, j, k);
    }
  }

  lemma ExtraExact(m: Message, s: Scan, pool: Candidates, n: nat, extra: Candidates, i: nat, k: nat)
    requires i < |extra| && Exact(m, s, pool, n, extra, i) && Distinct(m.shortIds)
    requires k < |m.shortIds| && m.sid(extra[i].0) == m.shortIds[k]
    ensures Exact(m, Consider(s, Places(m)[k], extra[i].1, true), pool, n, extra, i + 1)
  {
    hide Empties, Survivor;
    var id := m.shortIds[k];
    var all, was := AnswersTo(m, pool, n, id), AnswersTo(m, extra, i, id);
    assert AnswersTo(m, extra, i + 1, id) == was + [extra[i].1];
    assert all + (was + [extra[i].1]) != [];
    SurvivorExtra(all, was, extra[i].1);
    forall j | 0 <= j < |m.shortIds| && j != k
      ensures Places(m)[j] != Places(m)[k] && AnswersTo(m, extra, i + 1, m.shortIds[j]) == AnswersTo(m, extra, i, m.shortIds[j])
    {
      PlacesDiffer(m, j, k);
    }
  }

  lemma PassesExact(m: Message, s: Scan, pool: Candidates, i: nat, extra: Candidates, j: nat)
    requires Exact(m, s, pool, i, extra, j)
    ensures i < |pool| && m.sid(pool[i].0) !in m.shortIds ==> Exact(m, s, pool, i + 1, extra, j)
    ensures j < |extra| && m.sid(extra[j].0) !in m.shortIds ==> Exact(m, s, pool, i, extra, j + 1)
  {
    hide Empties, Survivor;
    forall k | 0 <= k < |m.shortIds|
      ensures i < |pool| && m.sid(pool[i].0) !in m.shortIds ==>
                AnswersTo(m, pool, i + 1, m.shortIds[k]) == AnswersTo(m, pool, i, m.shortIds[k])
      ensures j < |extra| && m.sid(extra[j].0) !in m.shortIds ==>
                AnswersTo(m, extra, j + 1, m.shortIds[k]) == AnswersTo(m, extra, j, m.shortIds[k])
    {
      assert m.shortIds[k] in m.shortIds;
    }
  }

  // ---- When the scans stop ----

  ghost predicate AllLeft(m: Message, pool: Candidates, i: nat, extra: Candidates, j: nat)
    requires i <= |pool| && j <= |extra|
  {
    forall k :: 0 <= k < |m.shortIds| ==> Left(m, pool, i, extra, j, k).Some?
  }

  /** A scan ends with its list or after the first entry that leaves no place empty. */
  ghost predicate Stops(m: Message, pool: Candidates, n1: nat, extra: Candidates, n2: nat) {
    && n1 <= |pool| && n2 <= |extra|
    && (n1 == |pool| || (n1 > 0 && AllLeft(m, pool, n1, extra, 0)))
    && (n2 == |extra| || (n2 > 0 && AllLeft(m, pool, n1, extra, n2)))
    && (forall i :: 0 < i < n1 ==> !AllLeft(m, pool, i, extra, 0))
    && (forall j :: 0 < j < n2 ==> !AllLeft(m, pool, n1, extra, j))
  }

  /** The counter reaches the number of short ids exactly when no place is empty. */
  lemma FullExactly(m: Message, s: Scan, pool: Candidates, i: nat, extra: Candidates, j: nat)
    requires Scanning(m, s.slots, s.have, s.count) && Exact(m, s, pool, i, extra, j)
    ensures s.count == |m.shortIds| <==> AllLeft(m, pool, i, extra, j)
  {
    hide Empties, Placed, Survivor;
    var e := Empties(s.slots);
    if e == [] {
      forall k | 0 <= k < |m.shortIds| ensures Left(m, pool, i, extra, j, k).Some? {
        if s.slots[Places(m)[k]].None? { EmptiesHas(s.slots, Places(m)[k]); }
      }
    } else {
      var q := e[0];
      EmptiesHas(Placed(m, |m.prefilled|), q);
      var k :| 0 <= k < |m.shortIds| && Places(m)[k] == q;
      assert Left(m, pool, i, extra, j, k).None?;
    }
  }

  /** What holds during the scans, after i pool entries and j extra ones. */
  ghost predicate ScanOk(m: Message, s: Scan, pool: Candidates, i: nat, extra: Candidates, j: nat) {
    Scanning(m, s.slots, s.have, s.count) && Exact(m, s, pool, i, extra, j)
  }

  lemma ScanOkLength(m: Message, s: Scan, pool: Candidates, i: nat, extra: Candidates, j: nat)
    requires ScanOk(m, s, pool, i, extra, j)
    ensures Scanning(m, s.slots, s.have, s.count)
    ensures |s.slots| == |s.have| == TxCount(m) && i <= |pool| && j <= |extra|
    ensures s.count == |m.shortIds| <==> AllLeft(m, pool, i, extra, j)
  {
    hide Scanning;
    FullExactly(m, s, pool, i, extra, j);
  }

  lemma MapRange(m: Message, positions: map<nat, nat>, id: nat)
    requires MapOk(m, positions)
    ensures id in positions <==> id in m.shortIds
    ensures id in positions ==> positions[id] < TxCount(m)
  {
    if id in positions { var k := PlaceOf(m, positions, id); }
  }

  lemma PoolTakes(m: Message, positions: map<nat, nat>, s: Scan, pool: Candidates, i: nat, extra: Candidates)
    requires MapOk(m, positions) && i < |pool| && ScanOk(m, s, pool, i, extra, 0)
    requires |s.slots| == |s.have| && m.sid(pool[i].0) in positions && positions[m.sid(pool[i].0)] < |s.slots|
    ensures ScanOk(m, Consider(s, positions[m.sid(pool[i].0)], pool[i].1, false), pool, i + 1, extra, 0)
  {
    hide Scanning, Exact, Consider, Places;
    var k := PlaceOf(m, positions, m.sid(pool[i].0));
    ScanLength(m, s);
    ConsiderKeeps(m, s, positions[m.sid(pool[i].0)], pool[i].1, false);
    PoolExact(m, s, pool, i, extra, k);
  }

  lemma ExtraTakes(m: Message, positions: map<nat, nat>, s: Scan, pool: Candidates, n: nat, extra: Candidates, i: nat)
    requires MapOk(m, positions) && i < |extra| && ScanOk(m, s, pool, n, extra, i)
    requires |s.slots| == |s.have| && m.sid(extra[i].0) in positions && positions[m.sid(extra[i].0)] < |s.slots|
    ensures ScanOk(m, Consider(s, positions[m.sid(extra[i].0)], extra[i].1, true), pool, n, extra, i + 1)
  {
    hide Scanning, Exact, Consider, Places;
    var k := PlaceOf(m, positions, m.sid(extra[i].0));
    ScanLength(m, s);
    ConsiderKeeps(m, s, positions[m.sid(extra[i].0)], extra[i].1, true);
    ExtraExact(m, s, pool, n, extra, i, k);
  }

  // ---- What that means for a described block ----

  lemma {:induction false} AnswersAre(m: Message, c: Candidates, n: nat, id: nat)
    requires n <= |c|
    ensures forall x :: x in AnswersTo(m, c, n, id) ==> exists i :: 0 <= i < n && m.sid(c[i].0) == id && c[i].1 == x
    ensures AnswersTo(m, c, n, id) == [] <==> forall i :: 0 <= i < n ==> m.sid(c[i].0) != id
  {
    if n > 0 { AnswersAre(m, c, n - 1, id); }
  }

  lemma {:induction false} AnswersCount(m: Message, c: Candidates, n: nat, i: nat, j: nat)
    requires i < j < n <= |c| && m.sid(c[i].0) == m.sid(c[j].0)
    ensures |AnswersTo(m, c, n, m.sid(c[i].0))| >= 2
  {
    if j < n - 1 {
      AnswersCount(m, c, n - 1, i, j);
    } else {
      AnswersAre(m, c, j, m.sid(c[i].0));
    }
  }

  /** Two pool entries that answer to one short id, both scanned, leave its place empty. */
  lemma TwoAnswersClear(m: Message, pool: Candidates, n1: nat, extra: Candidates, n2: nat, i: nat, j: nat, k: nat)
    requires i < j < n1 <= |pool| && n2 <= |extra| && k < |m.shortIds|
    requires m.sid(pool[i].0) == m.sid(pool[j].0) == m.shortIds[k]
    ensures Left(m, pool, n1, extra, n2, k) == None
  {
    AnswersCount(m, pool, n1, i, j);
  }

  /** Absent collisions, every filled slot holds the block's own transaction. */
  lemma ExactAgrees(m: Message, s: Scan, pool: Candidates, n1: nat, extra: Candidates, n2: nat, vtx: seq<Tx>)
    requires ScanOk(m, s, pool, n1, extra, n2) && Safe(m, vtx, pool, extra)
    ensures Agrees(s.slots, vtx)
  {
    hide Empties, Placed, Position;
    PlacedAgrees(m, vtx, |m.prefilled|);
    forall p | 0 <= p < |s.slots| && s.slots[p].Some? ensures s.slots[p].value == vtx[p] {
      if Placed(m, |m.prefilled|)[p].None? {
        EmptiesHas(Placed(m, |m.prefilled|), p);
        var k :| 0 <= k < |m.shortIds| && Places(m)[k] == p;
        AnswersMatch(m, vtx, pool, n1, k);
        AnswersMatch(m, vtx, extra, n2, k);
        SurvivorIs(AnswersTo(m, pool, n1, m.shortIds[k]), AnswersTo(m, extra, n2, m.shortIds[k]), vtx[p]);
      }
    }
  }

  lemma AnswersMatch(m: Message, vtx: seq<Tx>, c: Candidates, n: nat, k: nat)
    requires Describes(m, vtx) && NoCollision(m, vtx, c) && n <= |c| && k < |m.shortIds|
    ensures forall x :: x in AnswersTo(m, c, n, m.shortIds[k]) ==> x == vtx[Places(m)[k]]
  {
    hide Empties, Placed, Position, AnswersTo;
    AnswersAre(m, c, n, m.shortIds[k]);
  }

  /** A place is filled exactly when a candidate answers to its short id. */
  ghost predicate Complete(m: Message, s: Slots, pool: Candidates, extra: Candidates) {
    |s| == TxCount(m) && |Places(m)| == |m.shortIds| &&
    forall k :: 0 <= k < |m.shortIds| ==> (s[Places(m)[k]].Some? <==> Answers(m, pool, k) || Answers(m, extra, k))
  }

  lemma {:induction false} AtMostOne(m: Message, pool: Candidates, n: nat, id: nat)
    requires n <= |pool| && forall i, j :: 0 <= i < j < |pool| && m.sid(pool[i].0) == id ==> m.sid(pool[j].0) != id
    ensures |AnswersTo(m, pool, n, id)| <= 1
  {
    if n > 0 {
      AtMostOne(m, pool, n - 1, id);
      AnswersAre(m, pool, n - 1, id);
    }
  }

  /** And if also no two pool entries answer to one short id, a place is filled exactly when a candidate answers. */
  lemma ExactComplete(m: Message, s: Scan, pool: Candidates, n1: nat, extra: Candidates, n2: nat, vtx: seq<Tx>)
    requires Exact(m, s, pool, n1, extra, n2) && Stops(m, pool, n1, extra, n2) && Clean(m, vtx, pool, extra)
    ensures Complete(m, s.slots, pool, extra)
  {
    hide Empties, Placed, Position, AnswersTo, Survivor;
    forall k | 0 <= k < |m.shortIds|
      ensures s.slots[Places(m)[k]].Some? <==> Answers(m, pool, k) || Answers(m, extra, k)
    {
      PlaceComplete(m, pool, n1, extra, n2, vtx, k);
    }
  }

  lemma PlaceComplete(m: Message, pool: Candidates, n1: nat, extra: Candidates, n2: nat, vtx: seq<Tx>, k: nat)
    requires Stops(m, pool, n1, extra, n2) && Clean(m, vtx, pool, extra) && k < |m.shortIds|
    ensures Left(m, pool, n1, extra, n2, k).Some? <==> Answers(m, pool, k) || Answers(m, extra, k)
  {
    hide Empties, Placed, Position, AnswersTo, Survivor;
    var id := m.shortIds[k];
    assert id in m.shortIds;
    var p, e := AnswersTo(m, pool, n1, id), AnswersTo(m, extra, n2, id);
    AtMostOne(m, pool, n1, id);
    AnswersMatch(m, vtx, pool, n1, k);
    AnswersMatch(m, vtx, extra, n2, k);
    SurvivorIs(p, e, vtx[Places(m)[k]]);
    AnswersAre(m, pool, n1, id);
    AnswersAre(m, extra, n2, id);
    if n1 < |pool| {
      AnswersAre(m, extra, 0, id);
      SurvivorIs(p, AnswersTo(m, extra, 0, id), vtx[Places(m)[k]]);
      assert Left(m, pool, n1, extra, 0, k).Some?;
    }
  }

  // ---- The object ----

  class PartiallyDownloadedBlock {
    var txnAvailable: Slots
    var hasHeader: bool
    var prefilledCount: nat
    var mempoolCount: nat

    constructor ()
      ensures !hasHeader && txnAvailable == []
    {
      txnAvailable, hasHeader, prefilledCount, mempoolCount := [], false, 0, 0;
    }

    /**
     * Puts the prefilled transactions down, sorts short ids to the free places and looks for
     * candidates in the pool and among the extra transactions. limit is the largest number of
     * transactions a block can hold, crowded(i) the verdict of the hash-table heuristic after short id i.
     */
    method InitData(m: Message, limit: nat, pool: Candidates, extra: Candidates, crowded: nat -> bool, ghost vtx: seq<Tx>)
      returns (status: Status, ghost n1: nat, ghost n2: nat)
      requires !hasHeader && txnAvailable == []
      requires TxCount(m) <= 0xffff
      modifies this
      ensures status == Invalid <==> !Acceptable(m, limit)
      ensures status == Ok <==> Acceptable(m, limit) && Distinct(m.shortIds) && forall i :: 0 <= i < |m.shortIds| ==> !crowded(i)
      ensures status == Ok ==> hasHeader && |txnAvailable| == TxCount(m)
      ensures status == Ok ==> |Empties(txnAvailable)| + mempoolCount == |m.shortIds|
      ensures status == Ok ==> forall i :: 0 <= i < |m.prefilled| ==>
                Position(m.prefilled, i) < |txnAvailable| && txnAvailable[Position(m.prefilled, i)] == Some(m.prefilled[i].tx)
      ensures status == Ok ==> Stops(m, pool, n1, extra, n2) && |Places(m)| == |m.shortIds|
      ensures status == Ok ==> forall k :: 0 <= k < |m.shortIds| ==> txnAvailable[Places(m)[k]] == Left(m, pool, n1, extra, n2, k)
      ensures status == Ok && Safe(m, vtx, pool, extra) ==> Agrees(txnAvailable, vtx)
      ensures status == Ok && Clean(m, vtx, pool, extra) ==> Complete(m, txnAvailable, pool, extra)
    {
      hide Empties, Placed, Position, Scanning, Safe, Clean, Agrees, Complete, Exact, Left, AllLeft, MapOk;
      n1, n2 := 0, 0;
      if !m.hasHeader || (m.shortIds == [] && m.prefilled == []) { return Invalid, 0, 0; }
      if |m.shortIds| + |m.prefilled| > limit { return Invalid, 0, 0; }
      hasHeader := true;
      var ok := PlacePrefilled(m);
      if !ok { return Invalid, 0, 0; }
      prefilledCount := |m.prefilled|;
      PlacesLeft(m, |m.prefilled|);
      var mapped, positions := MapShortIds(m, crowded);
      if !mapped { return Failed, 0, 0; }
      var s := Scan(txnAvailable, seq(|txnAvailable|, _ => false), 0);
      ScanStart(m, s, pool, extra);
      s, n1 := ScanPool(m, positions, s, pool, extra);
      s, n2 := ScanExtra(m, positions, s, pool, n1, extra);
      txnAvailable, mempoolCount := s.slots, s.count;
      ScanLength(m, s);
      PrefilledStay(m, s);
      LeftIn(m, s, pool, n1, extra, n2);
      if Safe(m, vtx, pool, extra) { ExactAgrees(m, s, pool, n1, extra, n2, vtx); }
      if Clean(m, vtx, pool, extra) { ExactComplete(m, s, pool, n1, extra, n2, vtx); }
      status := Ok;
    }

    method PlacePrefilled(m: Message) returns (ok: bool)
      modifies this`txnAvailable
      ensures ok <==> forall i :: 0 <= i < |m.prefilled| ==>
                !m.prefilled[i].tx.isNull && Position(m.prefilled, i) <= 0xffff && Position(m.prefilled, i) <= |m.shortIds| + i
      ensures ok ==> txnAvailable == Placed(m, |m.prefilled|)
    {
      hide Position;
      txnAvailable := Blank(TxCount(m));
      var last := -1;
      for i := 0 to |m.prefilled|
        invariant last == if i == 0 then -1 else Position(m.prefilled, i - 1)
        invariant forall k :: 0 <= k < i ==>
          !m.prefilled[k].tx.isNull && Position(m.prefilled, k) <= 0xffff && Position(m.prefilled, k) <= |m.shortIds| + k
        invariant txnAvailable == Placed(m, i)
      {
        if m.prefilled[i].tx.isNull { return false; }
        PositionStep(m.prefilled, i);
        last := last + m.prefilled[i].index + 1;
        if last > 0xffff { return false; }
        if last > |m.shortIds| + i { return false; }
        txnAvailable := txnAvailable[last := Some(m.prefilled[i].tx)];
      }
      ok := true;
    }

    /** The i-th short id gets the i-th free place; fails on a repeated id. */
    method MapShortIds(m: Message, crowded: nat -> bool) returns (ok: bool, positions: map<nat, nat>)
      requires txnAvailable == Placed(m, |m.prefilled|) && |Places(m)| == |m.shortIds|
      ensures ok <==> Distinct(m.shortIds) && forall i :: 0 <= i < |m.shortIds| ==> !crowded(i)
      ensures ok ==> MapOk(m, positions)
    {
      hide Empties, Placed, Distinct, Mapped, MapOk;
      positions := map[];
      var offset := 0;
      ghost var e := Places(m);
      NoEmpties(txnAvailable);
      MappedStart(m.shortIds, e);
      for i := 0 to |m.shortIds|
        invariant 0 <= offset && i + offset <= |txnAvailable|
        invariant Empties(txnAvailable[..i + offset]) == e[..i]
        invariant Mapped(m.shortIds, e, positions, i)
        invariant forall k :: 0 <= k < i ==> !crowded(k)
      {
        offset := SkipFilled(i, offset);
        NextPlace(txnAvailable, i, i + offset);
        MappedStep(m.shortIds, e, positions, i);
        positions := positions[m.shortIds[i] := i + offset];
        if crowded(i) { return false, positions; }
      }
      MappedEnd(m, positions);
      ok := |positions| == |m.shortIds|;
    }

    /** Moves on to the next free slot; there is one, because not all places have been handed out. */
    method SkipFilled(i: nat, start: nat) returns (offset: nat)
      requires i < |Empties(txnAvailable)| && i + start <= |txnAvailable|
      requires |Empties(txnAvailable[..i + start])| == i
      ensures start <= offset && i + offset < |txnAvailable| && txnAvailable[i + offset].None?
      ensures Empties(txnAvailable[..i + offset]) == Empties(txnAvailable[..i + start])
    {
      hide Empties;
      var s := txnAvailable;
      offset := start;
      FreeAhead(s, i + offset);
      while s[i + offset].Some?
        invariant start <= offset && i + offset < |s|
        invariant Empties(s[..i + offset]) == Empties(s[..i + start])
        decreases |s| - offset
      {
        EmptiesNext(s, i + offset);
        offset := offset + 1;
        FreeAhead(s, i + offset);
      }
    }

    /** Every pool entry that answers to a short id, until all places are filled. */
    method ScanPool(m: Message, positions: map<nat, nat>, start: Scan, pool: Candidates, ghost extra: Candidates)
      returns (s: Scan, ghost n: nat)
      requires MapOk(m, positions) && ScanOk(m, start, pool, 0, extra, 0)
      ensures Scanning(m, s.slots, s.have, s.count)
      ensures ScanOk(m, s, pool, n, extra, 0) && n <= |pool|
      ensures n == |pool| || (n > 0 && AllLeft(m, pool, n, extra, 0))
      ensures forall i :: 0 < i < n ==> !AllLeft(m, pool, i, extra, 0)
    {
      hide ScanOk, Exact, Consider, MapOk, AllLeft, Scanning;
      s, n := start, 0;
      for i := 0 to |pool|
        invariant n == i && ScanOk(m, s, pool, i, extra, 0)
        invariant forall k :: 0 < k <= i ==> !AllLeft(m, pool, k, extra, 0)
      {
        var id := m.sid(pool[i].0);
        MapRange(m, positions, id);
        ScanOkLength(m, s, pool, i, extra, 0);
        if id in positions {
          PoolTakes(m, positions, s, pool, i, extra);
          s := Consider(s, positions[id], pool[i].1, false);
        } else {
          ScanPasses(m, s, pool, i, extra, 0);
        }
        n := n + 1;
        ScanOkLength(m, s, pool, n, extra, 0);
        if s.count == |m.shortIds| { return; }
      }
      ScanOkLength(m, s, pool, n, extra, 0);
    }

    /** The same over the extra transactions, where the same transaction may answer again. */
    method ScanExtra(m: Message, positions: map<nat, nat>, start: Scan, ghost pool: Candidates, ghost n1: nat, extra: Candidates)
      returns (s: Scan, ghost n: nat)
      requires MapOk(m, positions) && n1 <= |pool| && ScanOk(m, start, pool, n1, extra, 0)
      ensures Scanning(m, s.slots, s.have, s.count)
      ensures ScanOk(m, s, pool, n1, extra, n) && n <= |extra|
      ensures n == |extra| || (n > 0 && AllLeft(m, pool, n1, extra, n))
      ensures forall i :: 0 < i < n ==> !AllLeft(m, pool, n1, extra, i)
    {
      hide ScanOk, Exact, Consider, MapOk, AllLeft, Scanning;
      s, n := start, 0;
      for i := 0 to |extra|
        invariant n == i && ScanOk(m, s, pool, n1, extra, i)
        invariant forall k :: 0 < k <= i ==> !AllLeft(m, pool, n1, extra, k)
      {
        var id := m.sid(extra[i].0);
        MapRange(m, positions, id);
        ScanOkLength(m, s, pool, n1, extra, i);
        if id in positions {
          ExtraTakes(m, positions, s, pool, n1, extra, i);
          s := Consider(s, positions[id], extra[i].1, true);
        } else {
          ScanPasses(m, s, pool, n1, extra, i);
        }
        n := n + 1;
        ScanOkLength(m, s, pool, n1, extra, n);
        if s.count == |m.shortIds| { return; }
      }
      ScanOkLength(m, s, pool, n1, extra, n);
    }

    /**
     * Puts the missing transactions into the empty slots. check is the verdict on a whole block.
     * Afterwards the object is empty; but when too few transactions came, the slots up to the first
     * that could not be filled have been emptied and the rest are as they were.
     */
    method FillBlock(missing: seq<Tx>, check: seq<Tx> -> Check) returns (status: Status, block: seq<Tx>)
      requires hasHeader
      modifies this
      ensures Fill(old(txnAvailable), missing).None? <==> status == Invalid
      ensures status != Invalid ==> Fill(old(txnAvailable), missing) == Some(block) && status == Verdict(check(block))
      ensures status == Ok ==> check(block) == Pass
      ensures status == Failed ==> check(block) == Corrupt
      ensures status == CheckBlockFailed ==> check(block) == Wrong
      ensures status == Invalid <==> |missing| != |Empties(old(txnAvailable))|
      ensures |missing| >= |Empties(old(txnAvailable))| ==> !hasHeader && txnAvailable == []
      ensures |missing| < |Empties(old(txnAvailable))| ==>
                var k := Empties(old(txnAvailable))[|missing|];
                hasHeader && k < |old(txnAvailable)| && txnAvailable == Blank(k) + old(txnAvailable)[k..]
    {
      hide Fill, Empties, Blank, Prepend;
      ghost var all := txnAvailable;
      var offset := 0;
      var vtx := [];
      var n := |txnAvailable|;
      assert all[0..] == all && missing[0..] == missing;
      NoneMoved(all);
      FillSoFar(all, missing, 0, 0, vtx);
      NoEmpties(all);
      for i := 0 to n
        invariant hasHeader && txnAvailable == Blank(i) + all[i..]
        invariant offset <= |missing| && |vtx| == i && offset == |Empties(all[..i])|
        invariant Fill(all, missing) == Prepend(vtx, Fill(all[i..], missing[offset..]))
      {
        FillNext(all, missing, i, offset, vtx);
        EmptiesNext(all, i);
        StuckAt(all, i);
        MovedOut(all, i);
        if txnAvailable[i].None? {
          if |missing| <= offset { return Invalid, []; }
          vtx := vtx + [missing[offset]];
          offset := offset + 1;
        } else {
          vtx := vtx + [txnAvailable[i].value];
          txnAvailable := txnAvailable[i := None];
        }
      }
      FillEnd(all, missing, offset, vtx);
      assert all[..n] == all;
      hasHeader := false;
      txnAvailable := [];
      if |missing| != offset { return Invalid, []; }
      return Verdict(check(vtx)), vtx;
    }
  }

  /** The verdict on the whole block: a possibly corrupt one may be a short id collision. */
  datatype Check = Pass | Corrupt | Wrong

  function Verdict(c: Check): Status {
    match c case Pass => Ok case Corrupt => Failed case Wrong => CheckBlockFailed
  }

  // ---- Facts the methods use ----

  lemma PositionStep(p: seq<Prefilled>, i: nat)
    requires i < |p|
    ensures Position(p, i) == (if i == 0 then -1 else Position(p, i - 1)) + p[i].index + 1
  {}

  lemma FreeAhead(s: Slots, p: nat)
    requires p <= |s| && |Empties(s[..p])| < |Empties(s)|
    ensures p < |s|
  {
    assert s[..|s|] == s;
  }

  /** The first empty slot after i empty ones is place i. */
  lemma NextPlace(s: Slots, i: nat, p: nat)
    requires i < |Empties(s)| && p < |s| && s[p].None? && Empties(s[..p]) == Empties(s)[..i]
    ensures Empties(s)[i] == p && Empties(s[..p + 1]) == Empties(s)[..i + 1]
  {
    hide Empties;
    EmptiesNext(s, p);
    EmptiesPrefix(s, p + 1);
    var e := Empties(s);
    assert Empties(s[..p + 1])[i] == p;
    assert e[..i + 1] == e[..i] + [p];
  }

  /** The first i short ids, each with its place unless one of them is repeated. */
  ghost predicate Mapped(ids: seq<nat>, e: seq<nat>, positions: map<nat, nat>, i: nat) {
    i <= |ids| == |e| && positions.Keys == (set k | 0 <= k < i :: ids[k]) &&
    |positions| <= i && (|positions| == i <==> Distinct(ids[..i])) &&
    (Distinct(ids[..i]) ==> forall k :: 0 <= k < i ==> positions[ids[k]] == e[k])
  }

  lemma MappedStart(ids: seq<nat>, e: seq<nat>)
    requires |ids| == |e|
    ensures Mapped(ids, e, map[], 0)
  {}

  lemma MappedStep(ids: seq<nat>, e: seq<nat>, positions: map<nat, nat>, i: nat)
    requires i < |ids| && Mapped(ids, e, positions, i)
    ensures Mapped(ids, e, positions[ids[i] := e[i]], i + 1)
  {
    var next := positions[ids[i] := e[i]];
    assert next.Keys == positions.Keys + {ids[i]};
    assert |next| == |next.Keys| && |positions| == |positions.Keys|;
    assert Distinct(ids[..i + 1]) <==> Distinct(ids[..i]) && ids[i] !in positions by {
      DistinctMore(ids, i);
    }
  }

  lemma DistinctMore(ids: seq<nat>, i: nat)
    requires i < |ids|
    ensures Distinct(ids[..i + 1]) <==> Distinct(ids[..i]) && ids[i] !in set k | 0 <= k < i :: ids[k]
  {
    var a, b := ids[..i], ids[..i + 1];
    assert forall k :: 0 <= k < i ==> a[k] == b[k] == ids[k];
    assert b[i] == ids[i];
  }

  lemma MappedEnd(m: Message, positions: map<nat, nat>)
    requires Mapped(m.shortIds, Places(m), positions, |m.shortIds|)
    ensures |positions| == |m.shortIds| <==> Distinct(m.shortIds)
    ensures Distinct(m.shortIds) ==> MapOk(m, positions)
  {
    hide Distinct;
    assert m.shortIds[..|m.shortIds|] == m.shortIds;
  }

  lemma ScanStart(m: Message, s: Scan, pool: Candidates, extra: Candidates)
    requires s.slots == Placed(m, |m.prefilled|) && s.have == seq(|s.slots|, _ => false) && s.count == 0
    requires |Places(m)| == |m.shortIds|
    ensures ScanOk(m, s, pool, 0, extra, 0)
  {
    hide Placed, Empties;
  }

  lemma ScanPasses(m: Message, s: Scan, pool: Candidates, i: nat, extra: Candidates, j: nat)
    requires ScanOk(m, s, pool, i, extra, j)
    ensures i < |pool| && m.sid(pool[i].0) !in m.shortIds ==> ScanOk(m, s, pool, i + 1, extra, j)
    ensures j < |extra| && m.sid(extra[j].0) !in m.shortIds ==> ScanOk(m, s, pool, i, extra, j + 1)
  {
    hide Scanning, Exact;
    PassesExact(m, s, pool, i, extra, j);
  }

  lemma LeftIn(m: Message, s: Scan, pool: Candidates, i: nat, extra: Candidates, j: nat)
    requires ScanOk(m, s, pool, i, extra, j)
    ensures i <= |pool| && j <= |extra| && |Places(m)| == |m.shortIds| && |s.slots| == TxCount(m)
    ensures forall k :: 0 <= k < |m.shortIds| ==> s.slots[Places(m)[k]] == Left(m, pool, i, extra, j, k)
  {
    hide Scanning;
  }

  lemma ScanLength(m: Message, s: Scan)
    requires Scanning(m, s.slots, s.have, s.count)
    ensures |s.slots| == |s.have| == TxCount(m) && |Empties(s.slots)| + s.count == |m.shortIds|
  {}

  lemma PrefilledStay(m: Message, s: Scan)
    requires Scanning(m, s.slots, s.have, s.count)
    requires forall k :: 0 <= k < |m.prefilled| ==> Position(m.prefilled, k) <= |m.shortIds| + k
    ensures forall i :: 0 <= i < |m.prefilled| ==>
      Position(m.prefilled, i) < |s.slots| && s.slots[Position(m.prefilled, i)] == Some(m.prefilled[i].tx)
  {
    hide Position, Placed, Empties;
    PlacesLeft(m, |m.prefilled|);
  }

  /** Slot i is the empty one that comes after as many empty ones as there are before it. */
  lemma StuckAt(s: Slots, i: nat)
    requires i < |s|
    ensures s[i].None? ==> |Empties(s[..i])| < |Empties(s)| && Empties(s)[|Empties(s[..i])|] == i
  {
    hide Empties;
    EmptiesNext(s, i);
    EmptiesPrefix(s, i + 1);
    if s[i].None? { assert Empties(s[..i + 1])[|Empties(s[..i])|] == i; }
  }

  lemma NoneMoved(s: Slots)
    ensures Blank(0) + s[0..] == s
  {}

  lemma MovedOut(s: Slots, i: nat)
    requires i < |s|
    ensures |Blank(i)| == i && (Blank(i) + s[i..])[i] == s[i]
    ensures (Blank(i) + s[i..])[i := None] == Blank(i + 1) + s[i + 1..]
    ensures s[i].None? ==> Blank(i) + s[i..] == Blank(i + 1) + s[i + 1..]
  {
    assert s[i..] == [s[i]] + s[i + 1..] && Blank(i + 1) == Blank(i) + [None];
  }

  function Prepend(a: seq<Tx>, r: Option<seq<Tx>>): Option<seq<Tx>> {
    if r.None? then None else Some(a + r.value)
  }

  lemma FillSoFar(s: Slots, missing: seq<Tx>, i: nat, j: nat, vtx: seq<Tx>)
    requires i == 0 && j == 0 && vtx == []
    ensures Fill(s, missing) == Prepend([], Fill(s[0..], missing[0..]))
  {
    hide Fill;
    assert s[0..] == s && missing[0..] == missing;
    PrependMore([], [], Fill(s, missing));
  }

  lemma PrependMore(a: seq<Tx>, b: seq<Tx>, r: Option<seq<Tx>>)
    ensures Prepend(a, Prepend(b, r)) == Prepend(a + b, r)
    ensures Prepend([], r) == r
  {
    if r.Some? {
      assert a + (b + r.value) == (a + b) + r.value && [] + r.value == r.value;
    }
  }

  lemma FillNext(s: Slots, missing: seq<Tx>, i: nat, j: nat, vtx: seq<Tx>)
    requires i < |s| && j <= |missing|
    ensures s[i].None? && j == |missing| ==> Prepend(vtx, Fill(s[i..], missing[j..])) == None
    ensures s[i].None? && j < |missing| ==>
      Prepend(vtx, Fill(s[i..], missing[j..])) == Prepend(vtx + [missing[j]], Fill(s[i + 1..], missing[j + 1..]))
    ensures s[i].Some? ==>
      Prepend(vtx, Fill(s[i..], missing[j..])) == Prepend(vtx + [s[i].value], Fill(s[i + 1..], missing[j..]))
  {
    assert s[i..][1..] == s[i + 1..];
    if s[i].Some? {
      PrependMore(vtx, [s[i].value], Fill(s[i + 1..], missing[j..]));
    } else if j < |missing| {
      assert missing[j..][1..] == missing[j + 1..];
      PrependMore(vtx, [missing[j]], Fill(s[i + 1..], missing[j + 1..]));
    }
  }

  lemma FillEnd(s: Slots, missing: seq<Tx>, j: nat, vtx: seq<Tx>)
    requires j <= |missing|
    ensures Prepend(vtx, Fill(s[|s|..], missing[j..])) == if j == |missing| then Some(vtx) else None
  {
    assert vtx + [] == vtx;
  }

  /** The missing transactions of a described block, supplied in order, rebuild it. */
  lemma Rebuilds(s: Slots, vtx: seq<Tx>)
    requires Agrees(s, vtx)
    ensures Fill(s, Missing(s, vtx)) == Some(vtx)
  {
    FillExactly(s, Missing(s, vtx), vtx);
  }

  /** Two transactions of the block, or a candidate and a transaction of the block, share no short id by accident. */
  ghost predicate ShortIdsTell(vtx: seq<Tx>, sid: nat -> nat, candidates: Candidates) {
    (forall i, j :: 1 <= i < j < |vtx| ==> sid(vtx[i].hash) != sid(vtx[j].hash)) &&
    (forall c, i :: 0 <= c < |candidates| && 1 <= i < |vtx| && sid(candidates[c].0) == sid(vtx[i].hash)
      ==> candidates[c].1 == vtx[i])
  }

  lemma AnnouncedIsSafe(m: Message, vtx: seq<Tx>, pool: Candidates, extra: Candidates)
    requires Describes(m, vtx) && |m.prefilled| == 1 && m.prefilled[0].index == 0
    requires ShortIdsTell(vtx, m.sid, pool) && ShortIdsTell(vtx, m.sid, extra)
    ensures Distinct(m.shortIds) && Safe(m, vtx, pool, extra)
  {
    hide Empties, Placed;
    PlacesAfterFirst(m);
    forall k | 0 <= k < |m.shortIds| ensures m.shortIds[k] == m.sid(vtx[k + 1].hash) {
      assert Places(m)[k] == k + 1;
    }
    forall c, k | 0 <= c < |pool| && 0 <= k < |m.shortIds| && m.sid(pool[c].0) == m.shortIds[k]
      ensures pool[c].1 == vtx[Places(m)[k]] { assert m.sid(pool[c].0) == m.sid(vtx[k + 1].hash); }
    forall c, k | 0 <= c < |extra| && 0 <= k < |m.shortIds| && m.sid(extra[c].0) == m.shortIds[k]
      ensures extra[c].1 == vtx[Places(m)[k]] { assert m.sid(extra[c].0) == m.sid(vtx[k + 1].hash); }
  }

  /**
   * From sender to receiver: the announced block, filled up with the transactions the receiver
   * asks for, in order, is the sender's transaction list.
   */
  method Relay(vtx: seq<Tx>, sid: nat -> nat, limit: nat, pool: Candidates, extra: Candidates,
               crowded: nat -> bool, check: seq<Tx> -> Check) returns (status: Status, block: seq<Tx>)
    requires 0 < |vtx| <= 0xffff && |vtx| <= limit && !vtx[0].isNull
    requires ShortIdsTell(vtx, sid, pool) && ShortIdsTell(vtx, sid, extra)
    requires forall i :: 0 <= i < |vtx| - 1 ==> !crowded(i)
    ensures block == vtx && status == Verdict(check(vtx))
  {
    hide Empties, Placed, Describes, Fill, Missing, ShortIdsTell, Safe, Clean, Distinct;
    var m := Announce(vtx, sid);
    AnnouncedIsSafe(m, vtx, pool, extra);
    var receiver := new PartiallyDownloadedBlock();
    ghost var n1, n2;
    status, n1, n2 := receiver.InitData(m, limit, pool, extra, crowded, vtx);
    Rebuilds(receiver.txnAvailable, vtx);
    status, block := receiver.FillBlock(Missing(receiver.txnAvailable, vtx), check);
  }
}
