/**
 * The author's own self-check of the address manager, as it is written (src/addrman.cpp, Check_),
 * against the invariant: which states it accepts, over every run.
 */
module AddrManChecks {
  import opened Common
  import opened AddrManState
  import opened AddrMan
  import opened AddrManRuns

  // ----- the address lookup -----

  /** mapAddr[info] in Check_: the address as it stands, not normalised; a missing key reads as id 0. */
  function RawLookup(s: State, a: Service): int {
    if a in s.mapAddr then s.mapAddr[a] else 0
  }

  /** Every record is found under its address as it stands. */
  ghost predicate RawFound(s: State) {
    forall id :: id in s.mapInfo ==> s.mapInfo[id].service in s.mapAddr && s.mapAddr[s.mapInfo[id].service] == id
  }

  /** What error -5 tests: RawFound, except that a missing key passes for id 0. */
  ghost predicate RawAccepted(s: State) {
    forall id :: id in s.mapInfo ==> RawLookup(s, s.mapInfo[id].service) == id
  }

  ghost predicate NoPorts(s: State, except: set<int>) {
    forall id :: id in s.mapInfo && id !in except ==> s.mapInfo[id].service.port == 0
  }

  /** Without port discrimination no key of mapAddr has a port, so a record with one is not found. */
  lemma RawKey(c: Config, s: State, id: int)
    requires AddrOk(c, s) && id in s.mapInfo
    ensures c.discriminatePorts || s.mapInfo[id].service.port == 0 <==> s.mapInfo[id].service in s.mapAddr
    ensures s.mapInfo[id].service in s.mapAddr ==> s.mapAddr[s.mapInfo[id].service] == id
  {
    var a := s.mapInfo[id].service;
    if a in s.mapAddr {
      assert c.Norm(s.mapInfo[s.mapAddr[a]].service) == a;
    }
  }

  lemma RawFoundExactlyWhen(c: Config, s: State)
    requires Inv(c, s, {})
    ensures RawFound(s) <==> c.discriminatePorts || NoPorts(s, {})
  {
    hide RandomOk, NewOk, RefsOk, TriedOk, IdsOk, CountsOk, AddrOk;
    forall id | id in s.mapInfo
      ensures c.discriminatePorts || s.mapInfo[id].service.port == 0 <==> s.mapInfo[id].service in s.mapAddr
      ensures s.mapInfo[id].service in s.mapAddr ==> s.mapAddr[s.mapInfo[id].service] == id
    {
      RawKey(c, s, id);
    }
  }

  lemma RawAcceptedExactlyWhen(c: Config, s: State)
    requires Inv(c, s, {})
    ensures RawAccepted(s) <==> c.discriminatePorts || NoPorts(s, {0})
  {
    hide RandomOk, NewOk, RefsOk, TriedOk, IdsOk, CountsOk, AddrOk;
    forall id | id in s.mapInfo
      ensures c.discriminatePorts || s.mapInfo[id].service.port == 0 <==> s.mapInfo[id].service in s.mapAddr
      ensures s.mapInfo[id].service in s.mapAddr ==> s.mapAddr[s.mapInfo[id].service] == id
    {
      RawKey(c, s, id);
    }
  }

  // ----- a run that the self-check rejects -----

  /** Add_ of an unknown routable address whose slot is empty: a new record, and no other one changes. */
  lemma AddToEmptySlot(c: Config, s: State, addr: Address, source: int, now: int)
    requires Inv(c, s, {}) && c.isRoutable(addr.service.ip) && FindId(c, s, addr.service).None?
    requires var b := c.newBucket(addr.service, source); s.vvNew[b][c.NewPos(addr.service, b)] == EMPTY
    ensures var t := Add(c, s, addr, source, 0, now, 0);
            var b := c.newBucket(addr.service, source);
            && t.nIdCount == s.nIdCount + 1
            && t.mapInfo.Keys == s.mapInfo.Keys + {s.nIdCount}
            && t.mapInfo[s.nIdCount].service == addr.service
            && (forall id :: id in s.mapInfo && id != s.nIdCount ==> t.mapInfo[id] == s.mapInfo[id])
            && t.vvNew == Put(s.vvNew, b, c.NewPos(addr.service, b), s.nIdCount)
            && t.mapAddr == s.mapAddr[c.Norm(addr.service) := s.nIdCount]
  {
    hide RandomOk, AddrOk, NewOk, RefsOk, TriedOk, CountsOk, Put;
    CreatedKeeps(c, s, addr, source, 0);
    var u := Created(c, s, addr, source, 0);
    var b := c.newBucket(addr.service, source);
    assert u.mapInfo[s.nIdCount].service == addr.service && u.vvNew == s.vvNew;
  }

  /**
   * Two addresses with ports, added one after the other while ports are ignored: the state is
   * consistent, and the self-check reports error -5.
   */
  lemma TwoPortsRejected(c: Config, a: Address, b: Address, source: int, now: int)
    requires c.WellFormed() && !c.discriminatePorts
    requires c.isRoutable(a.service.ip) && c.isRoutable(b.service.ip) && a.service.ip != b.service.ip
    requires a.service.port != 0 && b.service.port != 0
    requires c.newBucket(a.service, source) != c.newBucket(b.service, source)
    ensures Consistent(c, Fresh())
    ensures var s := Run(c, Fresh(), [OpAdd(a, source, 0, now, 0), OpAdd(b, source, 0, now, 0)]);
            Consistent(c, s) && 1 in s.mapInfo && s.mapInfo[1].service == b.service && !RawAccepted(s)
  {
    hide Put, EmptyTable, RandomOk, AddrOk, NewOk, RefsOk, TriedOk, CountsOk, Add;
    RunFromFresh(c, []);
    var s0 := Fresh();
    AddToEmptySlot(c, s0, a, source, now);
    StepKeeps(c, s0, OpAdd(a, source, 0, now, 0));
    var s1 := Add(c, s0, a, source, 0, now, 0);
    assert s1.mapInfo.Keys == {0} && c.Norm(b.service) !in s1.mapAddr;
    AddToEmptySlot(c, s1, b, source, now);
    StepKeeps(c, s1, OpAdd(b, source, 0, now, 0));
    var s2 := Add(c, s1, b, source, 0, now, 0);
    RunTwo(c, s0, OpAdd(a, source, 0, now, 0), OpAdd(b, source, 0, now, 0));
    RawAcceptedExactlyWhen(c, s2);
  }

  lemma RunTwo(c: Config, s: State, x: Op, y: Op)
    requires Consistent(c, s) && Consistent(c, Step(c, s, x))
    ensures Run(c, s, [x, y]) == Step(c, Step(c, s, x), y)
  {
    hide Consistent, Step;
    StepKeeps(c, s, x);
    StepKeeps(c, Step(c, s, x), y);
    assert [x, y][1..] == [y] && [y][1..] == [];
    assert Run(c, Step(c, s, x), [y]) == Run(c, Step(c, Step(c, s, x), y), []);
  }

  // ----- times -----

  /** Errors -6, -8 and -1: no negative time, and a tried record has once been reached. */
  ghost predicate TimesOk(m: map<int, Info>) {
    forall id :: id in m ==> 0 <= m[id].nLastTry && 0 <= m[id].nLastSuccess && (m[id].fInTried ==> m[id].nLastSuccess > 0)
  }

  /** No record is added or becomes tried, and none changes its times. */
  ghost predicate KeepsTimes(m: map<int, Info>, m': map<int, Info>) {
    && m'.Keys <= m.Keys
    && forall id :: id in m' ==>
         m'[id].nLastTry == m[id].nLastTry && m'[id].nLastSuccess == m[id].nLastSuccess && (m'[id].fInTried ==> m[id].fInTried)
  }

  lemma KeepsTimesTrans(m: map<int, Info>, m': map<int, Info>, m'': map<int, Info>)
    requires KeepsTimes(m, m') && KeepsTimes(m', m'')
    ensures KeepsTimes(m, m'')
  {
  }

  lemma DeleteTimes(c: Config, s: State, id: int)
    requires RandomOk(s) && id in s.mapInfo
    ensures KeepsTimes(s.mapInfo, Delete(c, s, id).mapInfo)
  {
    hide RandomOk, Delete;
    DeleteFacts(c, s, id);
    var m := Delete(c, s, id).mapInfo;
    assert forall x :: x in m ==> x != id && m[x].(nRandomPos := 0) == s.mapInfo[x].(nRandomPos := 0);
  }

  lemma ClearNewTimes(c: Config, s: State, b: int, p: int)
    requires RandomOk(s) && NewOk(c, s) && InTable(b, p, NEW_BUCKETS)
    ensures KeepsTimes(s.mapInfo, ClearNew(c, s, b, p).mapInfo)
  {
    hide RandomOk, Delete;
    var id := s.vvNew[b][p];
    if id != EMPTY {
      var t := ClearSlot(s, b, p);
      FrameRandom(s, t);
      if t.mapInfo[id].nRefCount == 0 {
        DeleteTimes(c, t, id);
        KeepsTimesTrans(s.mapInfo, t.mapInfo, Delete(c, t, id).mapInfo);
      }
    }
  }

  lemma EvictTimes(c: Config, s: State, b: int, p: int, orphans: set<int>)
    requires Inv(c, s, orphans) && InTable(b, p, TRIED_BUCKETS) && s.vvTried[b][p] != EMPTY
    ensures KeepsTimes(s.mapInfo, Evict(c, s, b, p, orphans).mapInfo)
  {
    hide RandomOk, AddrOk, RefsOk, IdsOk, CountsOk, ClearNew, Put;
    UntryKeeps(c, s, b, p, orphans);
    EvictRoomKeeps(c, s, b, p, orphans);
    TriedSlotFacts(c, s, orphans, b, p);
    var id, u := s.vvTried[b][p], Untry(s, b, p);
    ClearNewTimes(c, u, HomeBucket(c, s, id), c.NewPos(s.mapInfo[id].service, HomeBucket(c, s, id)));
    KeepsTimesTrans(s.mapInfo, u.mapInfo, EvictRoom(c, s, b, p).mapInfo);
  }

  lemma MakeTriedTimes(c: Config, s: State, id: int)
    requires Inv(c, s, {}) && id in s.mapInfo && !s.mapInfo[id].fInTried
    requires TimesOk(s.mapInfo) && s.mapInfo[id].nLastSuccess > 0
    ensures TimesOk(MakeTried(c, s, id).mapInfo)
  {
    hide RandomOk, AddrOk, NewOk, RefsOk, IdsOk, CountsOk, TriedOk, Evict;
    Shapes(c, s, {});
    UnslotKeeps(c, s, id, {});
    assert {} + {id} == {id};
    var t := Unslot(c, s, id);
    RoomForKeeps(c, t, id);
    Shapes(c, t, {id});
    var b, p := c.triedBucket(t.mapInfo[id].service), c.TriedPos(t.mapInfo[id].service);
    if t.vvTried[b][p] != EMPTY { EvictTimes(c, t, b, p, {id}); }
    assert KeepsTimes(s.mapInfo, t.mapInfo);
    KeepsTimesTrans(s.mapInfo, t.mapInfo, RoomFor(c, t, id).mapInfo);
  }

  lemma GoodTimes(c: Config, s: State, a: Service, testBeforeEvict: bool, nTime: int)
    requires Inv(c, s, {}) && TimesOk(s.mapInfo) && nTime > 0
    ensures TimesOk(Good(c, s, a, testBeforeEvict, nTime).mapInfo)
  {
    hide RandomOk, AddrOk, NewOk, RefsOk, IdsOk, CountsOk, TriedOk, MakeTried;
    Shapes(c, s, {});
    var found := FindExact(c, s, a);
    if found.Some? {
      var t := GoodNoted(s, found.value, nTime);
      NoteKeeps(c, s, t);
      if !t.mapInfo[found.value].fInTried { MakeTriedTimes(c, t, found.value); }
    }
  }

  lemma PlaceNewTimes(c: Config, s: State, id: int, b: int, now: int)
    requires RandomOk(s) && c.WellFormed() && NewOk(c, s) && id in s.mapInfo && 0 <= b < NEW_BUCKETS
    ensures KeepsTimes(s.mapInfo, PlaceNew(c, s, id, b, now).mapInfo)
  {
    hide RandomOk, Delete, ClearNew, IsTerrible;
    var p := c.NewPos(s.mapInfo[id].service, b);
    ClearNewFacts(c, s, b, p);
    ClearNewTimes(c, s, b, p);
    DeleteTimes(c, s, id);
  }

  lemma AddTimes(c: Config, s: State, addr: Address, source: int, penalty: int, now: int, draw: nat)
    requires Inv(c, s, {}) && TimesOk(s.mapInfo)
    ensures TimesOk(Add(c, s, addr, source, penalty, now, draw).mapInfo)
  {
    hide RandomOk, AddrOk, NewOk, RefsOk, IdsOk, CountsOk, TriedOk, PlaceNew, Refreshed, WantsSlot, U32;
    var penalty := if addr.service.ip == source then 0 else penalty;
    var found := FindId(c, s, addr.service);
    if c.isRoutable(addr.service.ip) {
      if found.Some? {
        var id := found.value;
        RefreshedTimes(s.mapInfo[id], addr, penalty, now);
        var t := Touch(s, id, Refreshed(s.mapInfo[id], addr, penalty, now));
        NoteKeeps(c, s, t);
        PlaceNewTimes(c, t, id, c.newBucket(t.mapInfo[id].service, source), now);
      } else {
        CreatedKeeps(c, s, addr, source, penalty);
        var t := Created(c, s, addr, source, penalty);
        assert t.mapInfo[s.nIdCount].nLastTry == 0 && t.mapInfo[s.nIdCount].nLastSuccess == 0;
        PlaceNewTimes(c, t, s.nIdCount, c.newBucket(addr.service, source), now);
      }
    }
  }

  lemma RefreshedTimes(i: Info, addr: Address, penalty: int, now: int)
    ensures var j := Refreshed(i, addr, penalty, now);
            j.nLastTry == i.nLastTry && j.nLastSuccess == i.nLastSuccess && SameCore(i, j)
  {
  }

  lemma {:induction false} SelectTimes(s: State, n: nat, nNodes: nat, now: int, draw: nat -> nat, acc: seq<int>)
    requires RandomOk(s) && TimesOk(s.mapInfo)
    ensures TimesOk(Select(s, n, nNodes, now, draw, acc).0.mapInfo)
    decreases |s.vRandom| - n
  {
    hide IsTerrible, Draw;
    if n < |s.vRandom| && |acc| < nNodes {
      var r := SelectOne(s, n, now, draw(n), acc);
      SelectTimes(r.0, n + 1, nNodes, now, draw, r.1);
    }
  }

  lemma {:induction false} ResolveTimes(c: Config, s: State, todo: set<int>, now: int)
    requires Consistent(c, s) && TimesOk(s.mapInfo) && now > 0
    ensures TimesOk(Resolve(c, s, todo, now).mapInfo)
    decreases |todo|
  {
    hide RandomOk, AddrOk, NewOk, RefsOk, IdsOk, CountsOk, TriedOk, Good;
    if todo != {} {
      var id := Least(todo);
      ResolveOneKeeps(c, s, id, now);
      if id in s.mapInfo { GoodTimes(c, s, s.mapInfo[id].service, false, now); }
      ResolveTimes(c, ResolveOne(c, s, id, now), todo - {id}, now);
    }
  }

  /** The times an operation is given are those of a clock that has started. */
  predicate Clocked(op: Op) {
    && (op.OpGood? ==> op.nTime > 0)
    && (op.OpAttempt? ==> op.nTime >= 0)
    && (op.OpResolve? ==> op.now > 0)
  }

  lemma StepTimes(c: Config, s: State, op: Op)
    requires Consistent(c, s) && TimesOk(s.mapInfo) && Clocked(op)
    ensures TimesOk(Step(c, s, op).mapInfo)
  {
    hide AddrOk, NewOk, RefsOk, IdsOk, CountsOk, TriedOk, Good, Add, Select, Resolve, U32;
    Shapes(c, s, {});
    match op
    case OpAdd(addr, source, penalty, now, draw) => AddTimes(c, s, addr, source, penalty, now, draw);
    case OpGood(a, test, nTime) => GoodTimes(c, s, a, test, nTime);
    case OpGetAddr(now, draws) => SelectTimes(s, 0, GetAddrLimit(|s.vRandom|), now, draws, []);
    case OpResolve(now) => ResolveTimes(c, s, s.collisions, now);
    case _ =>
  }

  lemma {:induction false} RunTimes(c: Config, s: State, ops: seq<Op>)
    requires Consistent(c, s) && TimesOk(s.mapInfo)
    requires forall i :: 0 <= i < |ops| ==> Clocked(ops[i])
    ensures TimesOk(Run(c, s, ops).mapInfo)
    decreases |ops|
  {
    hide Consistent, Step, TimesOk;
    if ops != [] {
      StepKeeps(c, s, ops[0]);
      StepTimes(c, s, ops[0]);
      RunTimes(c, Step(c, s, ops[0]), ops[1..]);
    }
  }

  // ----- the whole self-check -----

  /** Check_ returns 0: each line is the negation of the error named beside it. */
  ghost predicate CheckAccepts(c: Config, s: State)
    requires c.WellFormed() && Shaped(s.vvNew, NEW_BUCKETS) && Shaped(s.vvTried, TRIED_BUCKETS)
  {
    && |s.vRandom| == s.nTried + s.nNew                                                          // -7
    && (forall id :: id in s.mapInfo ==> RecordAccepted(s, id))
    && |TriedIds(s.mapInfo)| == s.nTried && |NewIds(s.mapInfo)| == s.nNew                        // -9, -10
    && (forall b, p :: InTable(b, p, TRIED_BUCKETS) && s.vvTried[b][p] != EMPTY ==>
          && s.vvTried[b][p] in TriedIds(s.mapInfo)                                              // -11
          && c.triedBucket(s.mapInfo[s.vvTried[b][p]].service) == b                              // -17
          && c.position(s.mapInfo[s.vvTried[b][p]].service, false, b) == p)                      // -18
    && (forall id :: id in TriedIds(s.mapInfo) ==> TriedSlot(c, s, s.mapInfo[id].service) == id) // -13
    && (forall b, p :: InTable(b, p, NEW_BUCKETS) && s.vvNew[b][p] != EMPTY ==>
          && s.vvNew[b][p] in NewIds(s.mapInfo)                                                  // -12
          && c.position(s.mapInfo[s.vvNew[b][p]].service, true, b) == p)                         // -19
    && (forall id :: id in NewIds(s.mapInfo) ==>
          |Holders(c, s.vvNew, s.mapInfo[id].service, id)| == s.mapInfo[id].nRefCount)           // -12, -15
  }

  ghost predicate RecordAccepted(s: State, id: int)
    requires id in s.mapInfo
  {
    var i := s.mapInfo[id];
    && (if i.fInTried then i.nLastSuccess != 0 && i.nRefCount == 0                               // -1, -2
        else 0 < i.nRefCount <= NEW_BUCKETS_PER_ADDRESS)                                         // -3, -4
    && RawLookup(s, i.service) == id                                                             // -5
    && 0 <= i.nRandomPos < |s.vRandom| && s.vRandom[i.nRandomPos] == id                          // -14
    && i.nLastTry >= 0 && i.nLastSuccess >= 0                                                    // -6, -8
  }

  lemma CheckAcceptsExactlyWhen(c: Config, s: State)
    requires Inv(c, s, {}) && TimesOk(s.mapInfo)
    ensures CheckAccepts(c, s) <==> c.discriminatePorts || NoPorts(s, {0})
  {
    SizesAgree(c, s);
    RawAcceptedExactlyWhen(c, s);
    hide AddrOk, NoPorts;
    assert CheckAccepts(c, s) <==> RawAccepted(s);
  }

  /**
   * In every run from construction with a clock that has started, the self-check accepts exactly
   * when ports are part of an address or no record but the first has one.
   */
  lemma RunChecked(c: Config, ops: seq<Op>)
    requires c.WellFormed() && forall i :: 0 <= i < |ops| ==> Clocked(ops[i])
    ensures Consistent(c, Fresh()) && Consistent(c, Run(c, Fresh(), ops))
    ensures var s := Run(c, Fresh(), ops);
            CheckAccepts(c, s) <==> c.discriminatePorts || NoPorts(s, {0})
  {
    hide AddrOk, NewOk, RefsOk, IdsOk, CountsOk, TriedOk, CheckAccepts, NoPorts;
    RunFromFresh(c, ops);
    RunTimes(c, Fresh(), ops);
    CheckAcceptsExactlyWhen(c, Run(c, Fresh(), ops));
  }
}
