/** The address manager as an object that updates its tables in place (src/addrman.cpp). */
module AddrManClass {
  import opened Common
  import opened Bits
  import opened AddrManState
  import opened AddrManRuns
  import AddrMan

  function Rows(a: array2<int>): (t: Table)
    reads a
    ensures |t| == a.Length0 && forall b :: 0 <= b < |t| ==> |t[b]| == a.Length1
    ensures forall b, p :: 0 <= b < a.Length0 && 0 <= p < a.Length1 ==> t[b][p] == a[b, p]
  {
    seq(a.Length0, b requires 0 <= b < a.Length0 reads a =>
      seq(a.Length1, p requires 0 <= b < a.Length0 && 0 <= p < a.Length1 reads a => a[b, p]))
  }

  lemma SameRows(t: Table, u: Table)
    requires |t| == |u| && forall b :: 0 <= b < |t| ==> |t[b]| == |u[b]|
    requires forall b, p :: 0 <= b < |t| && 0 <= p < |t[b]| ==> t[b][p] == u[b][p]
    ensures t == u
  {
    forall b | 0 <= b < |t| ensures t[b] == u[b] {
    }
  }

  method Write(a: array2<int>, b: int, p: int, x: int)
    requires 0 <= b < a.Length0 && 0 <= p < a.Length1
    modifies a
    ensures Rows(a) == Put(old(Rows(a)), b, p, x)
  {
    ghost var was := Rows(a);
    a[b, p] := x;
    SameRows(Rows(a), Put(was, b, p, x));
  }

  /** The first `k` buckets no longer hold `id`. */
  ghost predicate WithoutUpTo(c: Config, t: Table, a: Service, id: int, k: int, r: Table)
    requires c.WellFormed() && Shaped(t, NEW_BUCKETS)
  {
    && Shaped(r, NEW_BUCKETS)
    && forall b, p :: InTable(b, p, NEW_BUCKETS) ==>
         r[b][p] == if b < k && p == c.NewPos(a, b) && t[b][p] == id then EMPTY else t[b][p]
  }

  ghost function HoldersUpTo(c: Config, t: Table, a: Service, id: int, k: int): set<int>
    requires c.WellFormed() && Shaped(t, NEW_BUCKETS)
  {
    set b | 0 <= b < NEW_BUCKETS && t[b][c.NewPos(a, b)] == id && b < k
  }

  lemma HoldersStep(c: Config, t: Table, a: Service, id: int, k: int)
    requires c.WellFormed() && Shaped(t, NEW_BUCKETS) && 0 <= k < NEW_BUCKETS
    ensures |HoldersUpTo(c, t, a, id, k + 1)| == |HoldersUpTo(c, t, a, id, k)| + if t[k][c.NewPos(a, k)] == id then 1 else 0
  {
    var before, after := HoldersUpTo(c, t, a, id, k), HoldersUpTo(c, t, a, id, k + 1);
    forall b ensures b in after <==> b in before || (b == k && t[k][c.NewPos(a, k)] == id) {
    }
    if t[k][c.NewPos(a, k)] == id {
      assert after == before + {k} && k !in before;
    } else {
      assert after == before;
    }
  }

  function Lowered(m: map<int, Info>, id: int, n: int): map<int, Info>
    requires id in m
  {
    m[id := m[id].(nRefCount := m[id].nRefCount - n)]
  }

  lemma WithoutStart(c: Config, t: Table, a: Service, id: int)
    requires c.WellFormed() && Shaped(t, NEW_BUCKETS)
    ensures WithoutUpTo(c, t, a, id, 0, t) && HoldersUpTo(c, t, a, id, 0) == {}
  {
  }

  lemma WithoutStep(c: Config, t: Table, a: Service, id: int, k: int, r: Table)
    requires c.WellFormed() && Shaped(t, NEW_BUCKETS) && 0 <= k < NEW_BUCKETS && WithoutUpTo(c, t, a, id, k, r)
    ensures r[k][c.NewPos(a, k)] == t[k][c.NewPos(a, k)]
    ensures WithoutUpTo(c, t, a, id, k + 1, if t[k][c.NewPos(a, k)] == id then Put(r, k, c.NewPos(a, k), EMPTY) else r)
  {
    hide Put;
    assert InTable(k, c.NewPos(a, k), NEW_BUCKETS);
  }

  lemma WithoutDone(c: Config, t: Table, a: Service, id: int, r: Table)
    requires c.WellFormed() && Shaped(t, NEW_BUCKETS) && WithoutUpTo(c, t, a, id, NEW_BUCKETS, r)
    ensures r == Without(c, t, a, id) && HoldersUpTo(c, t, a, id, NEW_BUCKETS) == Holders(c, t, a, id)
  {
    forall b, p | InTable(b, p, NEW_BUCKETS) ensures r[b][p] == Without(c, t, a, id)[b][p] {
    }
    SameRows(r, Without(c, t, a, id));
  }

  function Shift(s: State, d: int): State { s.(nNew := s.nNew + d) }

  lemma DeleteShift(c: Config, s: State, d: int, id: int)
    requires RandomOk(s) && id in s.mapInfo
    ensures RandomOk(Shift(s, d)) && Delete(c, Shift(s, d), id) == Shift(Delete(c, s, id), d)
  {
    hide RandomOk;
    FrameRandom(s, Shift(s, d));
    assert ToLast(Shift(s, d), id) == Shift(ToLast(s, id), d);
  }

  /** ClearNew does not look at the counter it lowers. */
  lemma ClearNewShift(c: Config, s: State, d: int, b: int, p: int)
    requires RandomOk(s) && NewOk(c, s) && InTable(b, p, NEW_BUCKETS)
    ensures RandomOk(Shift(s, d)) && NewOk(c, Shift(s, d))
    ensures AddrMan.ClearNew(c, Shift(s, d), b, p) == Shift(AddrMan.ClearNew(c, s, b, p), d)
  {
    FrameRandom(s, Shift(s, d));
    var id := s.vvNew[b][p];
    if id != EMPTY {
      var t := ClearSlot(s, b, p);
      FrameRandom(s, t);
      hide RandomOk, Delete, ToLast, DropLast;
      assert ClearSlot(Shift(s, d), b, p) == Shift(t, d);
      DeleteShift(c, t, d, id);
    }
  }

  class AddressManager {
    const c: Config
    var nIdCount: int
    var mapInfo: map<int, Info>
    var mapAddr: map<Service, int>
    var vRandom: seq<int>
    var nTried: int
    const vvTried: array2<int>
    var nNew: int
    const vvNew: array2<int>
    var nLastGood: int
    var collisions: set<int>

    ghost predicate Allocated() {
      && c.WellFormed() && vvTried != vvNew
      && vvTried.Length0 == TRIED_BUCKETS && vvTried.Length1 == BUCKET_SIZE
      && vvNew.Length0 == NEW_BUCKETS && vvNew.Length1 == BUCKET_SIZE
    }

    ghost function S(): (s: State)
      requires Allocated()
      reads this, vvTried, vvNew
      ensures Shaped(s.vvTried, TRIED_BUCKETS) && Shaped(s.vvNew, NEW_BUCKETS)
    {
      State(nIdCount, mapInfo, mapAddr, vRandom, nTried, Rows(vvTried), nNew, Rows(vvNew), nLastGood, collisions)
    }

    constructor (c: Config)
      requires c.WellFormed()
      ensures Allocated() && this.c == c && fresh(vvTried) && fresh(vvNew)
      ensures S() == Fresh() && Consistent(c, S())
    {
      this.c := c;
      nIdCount, mapInfo, mapAddr, vRandom := 0, map[], map[], [];
      nTried, nNew, nLastGood, collisions := 0, 0, 1, {};
      vvTried := new int[TRIED_BUCKETS, BUCKET_SIZE]((b, p) => EMPTY);
      vvNew := new int[NEW_BUCKETS, BUCKET_SIZE]((b, p) => EMPTY);
      new;
      SameRows(Rows(vvTried), EmptyTable(TRIED_BUCKETS));
      SameRows(Rows(vvNew), EmptyTable(NEW_BUCKETS));
      FreshOk(c);
    }

    method Find(a: Service) returns (id: Option<int>)
      requires Allocated()
      ensures id == FindId(c, S(), a)
    {
      var key := c.Norm(a);
      if key !in mapAddr { return None; }
      if mapAddr[key] !in mapInfo { return None; }
      return Some(mapAddr[key]);
    }

    method CreateEntry(addr: Address, source: int) returns (id: int)
      requires Allocated()
      modifies this
      ensures id == old(nIdCount) && S() == Create(c, old(S()), addr, source).(nNew := old(nNew))
    {
      id := nIdCount;
      nIdCount := nIdCount + 1;
      mapInfo := mapInfo[id := NewInfo(addr, source, -1)];
      mapAddr := mapAddr[c.Norm(addr.service) := id];
      mapInfo := mapInfo[id := mapInfo[id].(nRandomPos := |vRandom|)];
      vRandom := vRandom + [id];
      assert mapInfo == old(mapInfo)[id := NewInfo(addr, source, |old(vRandom)|)];
    }

    method SwapRandom(i: int, j: int)
      requires Allocated() && RandomOk(S()) && 0 <= i < |vRandom| && 0 <= j < |vRandom|
      modifies this
      ensures S() == Swap(old(S()), i, j)
    {
      if i == j { return; }
      var id1, id2 := vRandom[i], vRandom[j];
      assert id1 in mapInfo && id2 in mapInfo && id1 != id2 by {
        assert mapInfo[id1].nRandomPos == i && mapInfo[id2].nRandomPos == j;
      }
      mapInfo := mapInfo[id1 := mapInfo[id1].(nRandomPos := j)];
      mapInfo := mapInfo[id2 := mapInfo[id2].(nRandomPos := i)];
      vRandom := vRandom[i := id2];
      vRandom := vRandom[j := id1];
    }

    method DeleteEntry(id: int)
      requires Allocated() && RandomOk(S()) && id in mapInfo && !mapInfo[id].fInTried && mapInfo[id].nRefCount == 0
      modifies this
      ensures S() == Delete(c, old(S()), id)
    {
      ghost var was := S();
      var a := c.Norm(mapInfo[id].service);
      SwapRandom(mapInfo[id].nRandomPos, |vRandom| - 1);
      assert S() == ToLast(was, id);
      vRandom := vRandom[..|vRandom| - 1];
      mapAddr := mapAddr - {a};
      mapInfo := mapInfo - {id};
      nNew := nNew - 1;
    }

    method ClearNewSlot(b: int, p: int, ghost orphans: set<int>)
      requires Allocated() && RandomOk(S()) && NewOk(c, S()) && RefsOk(c, S(), orphans) && EMPTY !in mapInfo
      requires InTable(b, p, NEW_BUCKETS)
      modifies this, vvNew
      ensures S() == AddrMan.ClearNew(c, old(S()), b, p)
    {
      ghost var s := S();
      if vvNew[b, p] != EMPTY {
        ClearSlotNew(c, s, b, p, orphans);
        var id := vvNew[b, p];
        assert mapInfo[id].nRefCount > 0;
        mapInfo := mapInfo[id := mapInfo[id].(nRefCount := mapInfo[id].nRefCount - 1)];
        Write(vvNew, b, p, EMPTY);
        assert S() == ClearSlot(s, b, p);
        FrameRandom(s, S());
        if mapInfo[id].nRefCount == 0 {
          DeleteEntry(id);
        }
      }
    }

    /** One turn of the loop in which MakeTried takes an entry out of the new buckets. */
    method LeaveBucket(id: int, bucket: int, ghost t: Table, ghost m: map<int, Info>)
      requires Allocated() && id in m && Shaped(t, NEW_BUCKETS) && 0 <= bucket < NEW_BUCKETS
      requires WithoutUpTo(c, t, m[id].service, id, bucket, Rows(vvNew))
      requires mapInfo == Lowered(m, id, |HoldersUpTo(c, t, m[id].service, id, bucket)|)
      modifies this`mapInfo, vvNew
      ensures WithoutUpTo(c, t, m[id].service, id, bucket + 1, Rows(vvNew))
      ensures mapInfo == Lowered(m, id, |HoldersUpTo(c, t, m[id].service, id, bucket + 1)|)
    {
      hide WithoutUpTo, HoldersUpTo, Rows, Put;
      HoldersStep(c, t, m[id].service, id, bucket);
      WithoutStep(c, t, m[id].service, id, bucket, Rows(vvNew));
      var pos := c.NewPos(mapInfo[id].service, bucket);
      if vvNew[bucket, pos] == id {
        Write(vvNew, bucket, pos, EMPTY);
        mapInfo := mapInfo[id := mapInfo[id].(nRefCount := mapInfo[id].nRefCount - 1)];
      }
    }

    /** Takes an entry out of every new bucket, as MakeTried begins. */
    method LeaveNew(id: int)
      requires Allocated() && id in mapInfo
      modifies this`mapInfo, vvNew
      ensures S() == Unslot(c, old(S()), id)
    {
      hide Holders, HoldersUpTo, WithoutUpTo, Rows, Without;
      ghost var m, t := mapInfo, Rows(vvNew);
      ghost var a := m[id].service;
      WithoutStart(c, t, a, id);
      for bucket := 0 to NEW_BUCKETS
        invariant WithoutUpTo(c, t, a, id, bucket, Rows(vvNew))
        invariant mapInfo == Lowered(m, id, |HoldersUpTo(c, t, a, id, bucket)|)
      {
        LeaveBucket(id, bucket, t, m);
      }
      WithoutDone(c, t, a, id, Rows(vvNew));
      assert Rows(vvTried) == old(Rows(vvTried));
    }

    /** The part of MakeTried that moves the entry in the way back to the new table. */
    method EvictTried(b: int, p: int, ghost s: State, ghost orphans: set<int>)
      requires Allocated() && Inv(c, s, orphans) && S() == Shift(s, -1)
      requires InTable(b, p, TRIED_BUCKETS) && s.vvTried[b][p] != EMPTY
      modifies this, vvNew, vvTried
      ensures S() == Shift(AddrMan.Evict(c, s, b, p, orphans), -1)
    {
      hide Rows, Put, AddrOk, IdsOk, CountsOk;
      Shapes(c, s, orphans);
      TriedSlotFacts(c, s, orphans, b, p);
      var id := vvTried[b, p];
      mapInfo := mapInfo[id := mapInfo[id].(fInTried := false)];
      Write(vvTried, b, p, EMPTY);
      nTried := nTried - 1;
      ghost var u := Untry(s, b, p);
      UntryKeeps(c, s, b, p, orphans);
      assert S() == Shift(u, -2);
      var nb := c.newBucket(mapInfo[id].service, mapInfo[id].source);
      var np := c.NewPos(mapInfo[id].service, nb);
      ClearHome(u, nb, np, orphans + {id});
      AddrMan.EvictRoomKeeps(c, s, b, p, orphans);
      ghost var t := AddrMan.EvictRoom(c, s, b, p);
      assert S() == Shift(t, -2);
      FinishEvict(t, id, nb, np, orphans);
    }

    method ClearHome(ghost u: State, nb: int, np: int, ghost orphans: set<int>)
      requires Allocated() && Inv(c, u, orphans) && S() == Shift(u, -2) && InTable(nb, np, NEW_BUCKETS)
      modifies this, vvNew
      ensures S() == Shift(AddrMan.ClearNew(c, u, nb, np), -2)
    {
      ClearNewShift(c, u, -2, nb, np);
      FrameNew(c, u, Shift(u, -2), orphans);
      ClearNewSlot(nb, np, orphans);
    }

    method FinishEvict(ghost t: State, id: int, nb: int, np: int, ghost orphans: set<int>)
      requires Allocated() && Inv(c, t, orphans + {id}) && S() == Shift(t, -2)
      requires InTable(nb, np, NEW_BUCKETS) && np == c.NewPos(t.mapInfo[id].service, nb) && t.vvNew[nb][np] == EMPTY
      modifies this, vvNew
      ensures S() == Shift(FillSlot(c, t, id, nb), -1)
    {
      hide RandomOk, AddrOk, NewOk, RefsOk, TriedOk, IdsOk, CountsOk;
      OrphanFacts(c, t, orphans + {id}, id);
      mapInfo := mapInfo[id := mapInfo[id].(nRefCount := 1)];
      Write(vvNew, nb, np, id);
      nNew := nNew + 1;
    }

    /** Moves an entry from the new table to the tried table. */
    method MakeTriedEntry(id: int)
      requires Allocated() && Inv(c, S(), {}) && id in mapInfo && !mapInfo[id].fInTried
      modifies this, vvNew, vvTried
      ensures S() == AddrMan.MakeTried(c, old(S()), id)
    {
      ghost var s := S();
      UnslotKeeps(c, s, id, {});
      assert {} + {id} == {id};
      LeaveNew(id);
      ghost var t := Unslot(c, s, id);
      OrphanFacts(c, t, {id}, id);
      nNew := nNew - 1;
      assert mapInfo[id].nRefCount == 0;
      EnterTriedEntry(t, id);
    }

    method EnterTriedEntry(ghost t: State, id: int)
      requires Allocated() && Inv(c, t, {id}) && S() == Shift(t, -1)
      modifies this, vvNew, vvTried
      ensures id in AddrMan.RoomFor(c, t, id).mapInfo && Shaped(AddrMan.RoomFor(c, t, id).vvTried, TRIED_BUCKETS)
      ensures S() == EnterTried(c, AddrMan.RoomFor(c, t, id), id)
    {
      hide RandomOk, AddrOk, NewOk, RefsOk, TriedOk, IdsOk, CountsOk;
      Shapes(c, t, {id});
      OrphanFacts(c, t, {id}, id);
      AddrMan.RoomForKeeps(c, t, id);
      var b, p := c.triedBucket(mapInfo[id].service), c.TriedPos(mapInfo[id].service);
      assert Rows(vvTried)[b][p] == vvTried[b, p];
      if vvTried[b, p] != EMPTY {
        EvictTried(b, p, t, {id});
      }
      ghost var u := AddrMan.RoomFor(c, t, id);
      FinishEnter(u, id, b, p);
    }

    method FinishEnter(ghost u: State, id: int, b: int, p: int)
      requires Allocated() && S() == Shift(u, -1) && id in u.mapInfo && InTable(b, p, TRIED_BUCKETS)
      requires b == c.triedBucket(mapInfo[id].service) && p == c.TriedPos(mapInfo[id].service)
      requires Rows(vvTried)[b][p] == EMPTY
      modifies this, vvTried
      ensures S() == EnterTried(c, u, id)
    {
      assert vvTried[b, p] == EMPTY;
      Write(vvTried, b, p, id);
      nTried := nTried + 1;
      mapInfo := mapInfo[id := mapInfo[id].(fInTried := true)];
    }

    /** The bucket that Good_'s search looks at in its n'th turn. */
    static function Probe(n: int, nRnd: nat): (b: int)
      ensures 0 <= b < NEW_BUCKETS
    {
      (n + nRnd) % NEW_BUCKETS
    }

    /** The search probes every bucket. */
    static lemma ProbesAll(b: int, nRnd: nat) returns (n: int)
      requires 0 <= b < NEW_BUCKETS
      ensures 0 <= n < NEW_BUCKETS && Probe(n, nRnd) == b
    {
      n := (b - nRnd) % NEW_BUCKETS;
    }

    /** Good_'s search for a bucket that holds the entry, from a random one on. */
    method FindBucket(id: int, nRnd: nat) returns (nUBucket: int)
      requires Allocated() && id in mapInfo
      ensures nUBucket == -1 <==> Holders(c, S().vvNew, mapInfo[id].service, id) == {}
      ensures nUBucket != -1 ==> nUBucket in Holders(c, S().vvNew, mapInfo[id].service, id)
    {
      hide Rows;
      ghost var held := Holders(c, S().vvNew, mapInfo[id].service, id);
      for n := 0 to NEW_BUCKETS
        invariant forall k :: 0 <= k < n ==> Probe(k, nRnd) !in held
      {
        var nB := Probe(n, nRnd);
        assert vvNew[nB, c.NewPos(mapInfo[id].service, nB)] == S().vvNew[nB][c.NewPos(mapInfo[id].service, nB)];
        if vvNew[nB, c.NewPos(mapInfo[id].service, nB)] == id {
          assert nB in held;
          return nB;
        }
      }
      forall b | 0 <= b < NEW_BUCKETS ensures b !in held {
        var n := ProbesAll(b, nRnd);
      }
      return -1;
    }

    method MarkGood(a: Service, testBeforeEvict: bool, nTime: int, nRnd: nat)
      requires Allocated() && Inv(c, S(), {})
      modifies this, vvNew, vvTried
      ensures S() == Good(c, old(S()), a, testBeforeEvict, nTime)
    {
      hide RandomOk, AddrOk, NewOk, RefsOk, TriedOk, IdsOk, CountsOk, Rows, Holders;
      ghost var s := S();
      nLastGood := nTime;
      var found := Find(a);
      if found.None? { return; }
      var id := found.value;
      if mapInfo[id].service != a { return; }
      mapInfo := mapInfo[id := mapInfo[id].(nLastSuccess := nTime)];
      mapInfo := mapInfo[id := mapInfo[id].(nLastTry := nTime)];
      mapInfo := mapInfo[id := mapInfo[id].(nAttempts := 0)];
      assert S() == GoodNoted(s, id, nTime);
      NoteKeeps(c, s, S());
      MoveGood(id, testBeforeEvict, nRnd);
    }

    method MoveGood(id: int, testBeforeEvict: bool, nRnd: nat)
      requires Allocated() && Inv(c, S(), {}) && id in mapInfo
      modifies this, vvNew, vvTried
      ensures S() == GoodMove(c, old(S()), id, testBeforeEvict)
    {
      hide RandomOk, AddrOk, NewOk, RefsOk, TriedOk, IdsOk, CountsOk, Rows, Holders;
      if mapInfo[id].fInTried { return; }
      var nUBucket := FindBucket(id, nRnd);
      if nUBucket == -1 { return; }
      var b, p := c.triedBucket(mapInfo[id].service), c.TriedPos(mapInfo[id].service);
      if testBeforeEvict && vvTried[b, p] != EMPTY {
        if |collisions| < AddrMan.COLLISION_SIZE { collisions := collisions + {id}; }
      } else {
        MakeTriedEntry(id);
      }
    }

    /** Add_; `draw` is the random number it draws, `now` the adjusted time. The result tells whether an entry was created. */
    method AddAddress(addr: Address, source: int, penalty: int, now: int, draw: nat) returns (fNew: bool)
      requires Allocated() && Inv(c, S(), {})
      modifies this, vvNew
      ensures S() == Add(c, old(S()), addr, source, penalty, now, draw)
      ensures fNew == (c.isRoutable(addr.service.ip) && FindId(c, old(S()), addr.service).None?)
    {
      hide RandomOk, AddrOk, NewOk, RefsOk, TriedOk, IdsOk, CountsOk, Rows;
      if !c.isRoutable(addr.service.ip) { return false; }
      var found := Find(addr.service);
      var nTimePenalty := penalty;
      if addr.service.ip == source { nTimePenalty := 0; }
      if found.Some? {
        RefreshKnown(found.value, addr, source, nTimePenalty, now, draw);
        return false;
      }
      InsertUnknown(addr, source, nTimePenalty, now);
      return true;
    }

    /** 2 to the power of the reference count, as Add_ computes it. */
    method Factor(nRefCount: int) returns (nFactor: nat)
      ensures nFactor == (if nRefCount > 0 then Pow2(nRefCount) else 1) && (nFactor > 1 <==> nRefCount > 0)
    {
      nFactor := 1;
      var n := 0;
      while n < nRefCount
        invariant 0 <= n && (n <= nRefCount || n == 0) && nFactor == Pow2(n)
      {
        nFactor := nFactor * 2;
        n := n + 1;
      }
    }

    method RefreshKnown(id: int, addr: Address, source: int, penalty: int, now: int, draw: nat)
      requires Allocated() && Inv(c, S(), {}) && id in mapInfo
      modifies this, vvNew
      ensures S() == AddKnown(c, old(S()), id, addr, source, penalty, now, draw)
    {
      hide RandomOk, AddrOk, NewOk, RefsOk, TriedOk, IdsOk, CountsOk, Rows, U32, Max, Pow2, PlaceNew, Refreshed;
      ghost var s := S();
      UpdateKnown(id, addr, penalty, now);
      NoteKeeps(c, s, S());
      var info := mapInfo[id];
      if addr.nTime == 0 || (info.nTime != 0 && addr.nTime <= info.nTime) { return; }
      if info.fInTried { return; }
      if info.nRefCount == NEW_BUCKETS_PER_ADDRESS { return; }
      var nFactor := Factor(info.nRefCount);
      if nFactor > 1 && draw % nFactor != 0 { return; }
      assert WantsSlot(info, addr, draw);
      Place(id, c.newBucket(info.service, source), now, {});
    }

    method UpdateKnown(id: int, addr: Address, penalty: int, now: int)
      requires Allocated() && id in mapInfo
      modifies this`mapInfo
      ensures SameCore(old(mapInfo[id]), Refreshed(old(mapInfo[id]), addr, penalty, now))
      ensures S() == Touch(old(S()), id, Refreshed(old(mapInfo[id]), addr, penalty, now))
    {
      hide Rows, U32, Max;
      var info := mapInfo[id];
      var fCurrentlyOnline := now - addr.nTime < 24 * 60 * 60;
      var nUpdateInterval := if fCurrentlyOnline then 60 * 60 else 24 * 60 * 60;
      if addr.nTime != 0 && (info.nTime == 0 || info.nTime < addr.nTime - nUpdateInterval - penalty) {
        info := info.(nTime := U32(Max(0, addr.nTime - penalty)));
      }
      info := info.(nServices := info.nServices + addr.nServices);
      mapInfo := mapInfo[id := info];
    }

    method InsertUnknown(addr: Address, source: int, penalty: int, now: int)
      requires Allocated() && Inv(c, S(), {}) && FindId(c, S(), addr.service).None?
      modifies this, vvNew
      ensures S() == AddUnknown(c, old(S()), addr, source, penalty, now)
    {
      hide RandomOk, AddrOk, NewOk, RefsOk, TriedOk, IdsOk, CountsOk, Rows, U32, Max;
      ghost var s := S();
      CreatedKeeps(c, s, addr, source, penalty);
      var id := CreateEntry(addr, source);
      mapInfo := mapInfo[id := mapInfo[id].(nTime := U32(Max(0, mapInfo[id].nTime - penalty)))];
      nNew := nNew + 1;
      assert S() == Created(c, s, addr, source, penalty);
      OrphanFacts(c, S(), {id}, id);
      Place(id, c.newBucket(addr.service, source), now, {id});
    }

    method Overwrite(id: int, b: int, p: int, ghost orphans: set<int>)
      requires Allocated() && RandomOk(S()) && NewOk(c, S()) && RefsOk(c, S(), orphans) && EMPTY !in mapInfo
      requires id in mapInfo && 0 <= b < NEW_BUCKETS && p == c.NewPos(mapInfo[id].service, b) && vvNew[b, p] != id
      modifies this, vvNew
      ensures id in AddrMan.ClearNew(c, old(S()), b, p).mapInfo
      ensures Shaped(AddrMan.ClearNew(c, old(S()), b, p).vvNew, NEW_BUCKETS)
      ensures S() == FillSlot(c, AddrMan.ClearNew(c, old(S()), b, p), id, b)
    {
      hide RandomOk, NewOk, RefsOk, Rows, Put, Delete;
      AddrMan.ClearNewFacts(c, S(), b, p);
      ClearNewSlot(b, p, orphans);
      mapInfo := mapInfo[id := mapInfo[id].(nRefCount := mapInfo[id].nRefCount + 1)];
      Write(vvNew, b, p, id);
    }

    /** The end of Add_. */
    method Place(id: int, b: int, now: int, ghost orphans: set<int>)
      requires Allocated() && Inv(c, S(), orphans) && id in mapInfo && !mapInfo[id].fInTried && 0 <= b < NEW_BUCKETS
      requires orphans <= {id}
      modifies this, vvNew
      ensures S() == PlaceNew(c, old(S()), id, b, now)
    {
      hide AddrOk, RefsOk, TriedOk, CountsOk, Rows, Put;
      ghost var s := S();
      Shapes(c, s, orphans);
      var p := c.NewPos(mapInfo[id].service, b);
      var x := vvNew[b, p];
      assert x == s.vvNew[b][p];
      if x != id {
        var fInsert := x == EMPTY;
        if !fInsert {
          if AddrMan.IsTerrible(mapInfo[x], now) || (mapInfo[x].nRefCount > 1 && mapInfo[id].nRefCount == 0) {
            fInsert := true;
          }
        }
        if fInsert {
          Overwrite(id, b, p, orphans);
        } else if mapInfo[id].nRefCount == 0 {
          DeleteEntry(id);
        }
      }
    }

    method NoteAttempt(a: Service, fCountFailure: bool, nTime: int)
      requires Allocated()
      modifies this`mapInfo
      ensures S() == Attempt(c, old(S()), a, fCountFailure, nTime)
    {
      hide Rows;
      var found := Find(a);
      if found.None? { return; }
      var id := found.value;
      if mapInfo[id].service != a { return; }
      mapInfo := mapInfo[id := mapInfo[id].(nLastTry := nTime)];
      if fCountFailure && mapInfo[id].nLastCountAttempt < nLastGood {
        mapInfo := mapInfo[id := mapInfo[id].(nLastCountAttempt := nTime)];
        mapInfo := mapInfo[id := mapInfo[id].(nAttempts := mapInfo[id].nAttempts + 1)];
      }
    }

    method NoteConnected(a: Service, nTime: int)
      requires Allocated()
      modifies this`mapInfo
      ensures S() == Connected(c, old(S()), a, nTime)
    {
      hide Rows, U32;
      var found := Find(a);
      if found.None? { return; }
      var id := found.value;
      if mapInfo[id].service != a { return; }
      if nTime - mapInfo[id].nTime > 20 * 60 {
        mapInfo := mapInfo[id := mapInfo[id].(nTime := U32(nTime))];
      } else {
        assert mapInfo[id := mapInfo[id]] == mapInfo;
      }
    }

    method NoteServices(a: Service, nServices: set<nat>)
      requires Allocated()
      modifies this`mapInfo
      ensures S() == SetServices(c, old(S()), a, nServices)
    {
      hide Rows;
      var found := Find(a);
      if found.None? { return; }
      var id := found.value;
      if mapInfo[id].service != a { return; }
      mapInfo := mapInfo[id := mapInfo[id].(nServices := nServices)];
    }

    static function AddressOf(i: Info): Address { Address(i.service, i.nServices, i.nTime) }

    /** The addresses that GetAddr_ reports are those of the ids that `Select` selects. */
    ghost predicate Reports(m: map<int, Info>, ids: seq<int>, vAddr: seq<Address>) {
      |vAddr| == |ids| && forall k :: 0 <= k < |ids| ==> ids[k] in m && vAddr[k] == AddressOf(m[ids[k]])
    }

    ghost predicate SameAddresses(m: map<int, Info>, m': map<int, Info>) {
      m.Keys == m'.Keys && forall id :: id in m ==> AddressOf(m[id]) == AddressOf(m'[id])
    }

    method GetAddresses(now: int, draw: nat -> nat) returns (vAddr: seq<Address>, ghost ids: seq<int>)
      requires Allocated() && RandomOk(S())
      modifies this
      ensures var r := Select(old(S()), 0, GetAddrLimit(|old(vRandom)|), now, draw, []);
              S() == r.0 && ids == r.1
      ensures Reports(old(mapInfo), ids, vAddr)
      ensures var limit := if 23 * |old(vRandom)| / 100 > 2500 then 2500 else 23 * |old(vRandom)| / 100;
              Picked(old(mapInfo), limit, now, ids)
      ensures SameRecords(old(mapInfo), mapInfo)
    {
      hide Rows, AddrMan.IsTerrible, Draw, RandomOk, SelectOne, Picked, SameRecords;
      SelectPicks(S(), GetAddrLimit(|vRandom|), now, draw);
      var nNodes := GetAddrLimit(|vRandom|);
      vAddr, ids := [], [];
      ghost var m := mapInfo;
      ghost var r := Select(S(), 0, nNodes, now, draw, []);
      var n := 0;
      while n < |vRandom|
        invariant n <= |vRandom| && RandomOk(S())
        invariant Select(S(), n, nNodes, now, draw, ids) == r
        invariant SameAddresses(m, mapInfo) && Reports(m, ids, vAddr)
        decreases |vRandom| - n
      {
        if |vAddr| >= nNodes { break; }
        ids, vAddr := SelectNext(n, now, draw(n), m, ids, vAddr);
        n := n + 1;
      }
    }

    method SelectNext(n: nat, now: int, x: nat, ghost m: map<int, Info>, ghost ids: seq<int>, vAddr: seq<Address>)
      returns (ghost ids': seq<int>, vAddr': seq<Address>)
      requires Allocated() && RandomOk(S()) && n < |vRandom| && SameAddresses(m, mapInfo) && Reports(m, ids, vAddr)
      modifies this
      ensures (S(), ids') == SelectOne(old(S()), n, now, x, ids)
      ensures SameAddresses(m, mapInfo) && Reports(m, ids', vAddr')
    {
      hide Rows, AddrMan.IsTerrible, Draw;
      ids', vAddr' := ids, vAddr;
      SwapRandomOk(S(), n, Draw(n, |vRandom|, x));
      SwapRandom(n, Draw(n, |vRandom|, x));
      var id := vRandom[n];
      if !AddrMan.IsTerrible(mapInfo[id], now) {
        ids', vAddr' := ids + [id], vAddr + [AddressOf(mapInfo[id])];
      }
    }

    method ResolveCollision(id: int, now: int, nRnd: nat)
      requires Allocated() && Consistent(c, S())
      modifies this, vvNew, vvTried
      ensures S() == ResolveOne(c, old(S()), id, now)
    {
      hide RandomOk, AddrOk, NewOk, RefsOk, IdsOk, CountsOk, Rows, Good;
      ghost var s := S();
      var eraseCollision := false;
      if id !in mapInfo {
        eraseCollision := true;
      } else {
        var b, p := c.triedBucket(mapInfo[id].service), c.TriedPos(mapInfo[id].service);
        assert vvTried[b, p] == s.vvTried[b][p];
        if !c.isValid(mapInfo[id].service.ip) {
          eraseCollision := true;
        } else if vvTried[b, p] != EMPTY {
          var infoOld := mapInfo[vvTried[b, p]];
          if now - infoOld.nLastSuccess < AddrMan.REPLACEMENT_SECONDS {
            eraseCollision := true;
          } else if now - infoOld.nLastTry < AddrMan.REPLACEMENT_SECONDS {
            if now - infoOld.nLastTry > 60 {
              MarkGood(mapInfo[id].service, false, now, nRnd);
              eraseCollision := true;
            }
          }
        } else {
          MarkGood(mapInfo[id].service, false, now, nRnd);
          eraseCollision := true;
        }
      }
      if eraseCollision { collisions := collisions - {id}; }
    }

    /** Works through the collisions in ascending order, as the ordered set does. */
    method ResolveCollisions(now: int, nRnd: nat)
      requires Allocated() && Consistent(c, S())
      modifies this, vvNew, vvTried
      ensures S() == Resolve(c, old(S()), old(collisions), now)
    {
      hide Inv, CollisionsOk, Rows, ResolveOne;
      var todo := collisions;
      ghost var end := Resolve(c, S(), todo, now);
      while todo != {}
        invariant Consistent(c, S()) && Resolve(c, S(), todo, now) == end
        decreases |todo|
      {
        LeastExists(todo);
        var id :| id in todo && forall y :: y in todo ==> id <= y;
        assert id == Least(todo);
        ResolveOneKeeps(c, S(), id, now);
        ResolveCollision(id, now, nRnd);
        todo := todo - {id};
      }
    }

    /** Returns the record of the tried entry that the picked collision competes with, if the pick is still known. */
    /** The record itself, as the source hands it out; none for an unknown id. */
    ghost function RecordOf(m: map<int, Info>, id: Option<int>): Option<Info> {
      if id.Some? && id.value in m then Some(m[id.value]) else None
    }

    method SelectTriedCollision(pick: int) returns (r: Option<Info>)
      requires Allocated() && Consistent(c, S()) && pick in collisions
      modifies this`collisions
      ensures S() == SelectCollision(c, old(S()), pick).0 && mapInfo == old(mapInfo)
      ensures r.Some? <==> pick in mapInfo
      ensures r == RecordOf(mapInfo, SelectCollision(c, old(S()), pick).1)
      ensures r.Some? ==> r.value.fInTried
    {
      hide Rows;
      if pick !in mapInfo {
        collisions := collisions - {pick};
        return None;
      }
      SelectCollisionFindsTried(c, S(), pick);
      var b, p := c.triedBucket(mapInfo[pick].service), c.TriedPos(mapInfo[pick].service);
      assert vvTried[b, p] == S().vvTried[b][p];
      return Some(mapInfo[vvTried[b, p]]);
    }
  }
}
