/**
 * The address manager's tables and indexes (src/addrman.h, src/addrman.cpp) as one value, the
 * consistency conditions that `Check_` tests, and the elementary steps its operations are made of.
 */
module AddrManState {

  const NEW_BUCKETS := 1024
  const TRIED_BUCKETS := 256
  const BUCKET_SIZE := 64
  const NEW_BUCKETS_PER_ADDRESS := 8
  const EMPTY := -1

  datatype Service = Service(ip: int, port: nat)

  /** A CAddress: the network service, its set of service bits and the time it was last seen. */
  datatype Address = Address(service: Service, nServices: set<nat>, nTime: nat)

  datatype Info = Info(
    service: Service, nServices: set<nat>, nTime: nat, source: int,
    nLastTry: int, nLastCountAttempt: int, nLastSuccess: int, nAttempts: int,
    nRefCount: int, fInTried: bool, nRandomPos: int)

  type Table = seq<seq<int>>

  /**
   * What stays fixed over a run. The three bucket functions stand for hashes keyed with nKey and the
   * AS map; all that is known of them is their range.
   */
  datatype Config = Config(
    triedBucket: Service -> int,
    newBucket: (Service, int) -> int,
    position: (Service, bool, int) -> int,
    isRoutable: int -> bool,
    isValid: int -> bool,
    discriminatePorts: bool)
  {
    ghost predicate WellFormed() {
      && (forall a :: 0 <= triedBucket(a) < TRIED_BUCKETS)
      && (forall a, src :: 0 <= newBucket(a, src) < NEW_BUCKETS)
      && (forall a, n, b :: 0 <= position(a, n, b) < BUCKET_SIZE)
    }

    /** The key of mapAddr: without port discrimination, ports are ignored. */
    function Norm(a: Service): Service {
      if discriminatePorts then a else Service(a.ip, 0)
    }

    function NewPos(a: Service, bucket: int): int {
      position(a, true, bucket)
    }

    function TriedPos(a: Service): int {
      position(a, false, triedBucket(a))
    }
  }

  datatype State = State(
    nIdCount: int,
    mapInfo: map<int, Info>,
    mapAddr: map<Service, int>,
    vRandom: seq<int>,
    nTried: int,
    vvTried: Table,
    nNew: int,
    vvNew: Table,
    nLastGood: int,
    collisions: set<int>)

  predicate Shaped(t: Table, buckets: nat) {
    |t| == buckets && forall b :: 0 <= b < buckets ==> |t[b]| == BUCKET_SIZE
  }

  predicate InTable(b: int, p: int, buckets: int) {
    0 <= b < buckets && 0 <= p < BUCKET_SIZE
  }

  function Put(t: Table, b: int, p: int, id: int): (r: Table)
    requires 0 <= b < |t| && 0 <= p < |t[b]|
    ensures |r| == |t| && forall k :: 0 <= k < |t| ==> |r[k]| == |t[k]|
    ensures r[b][p] == id
    ensures forall k, q :: 0 <= k < |t| && 0 <= q < |t[k]| && (k != b || q != p) ==> r[k][q] == t[k][q]
  {
    t[b := t[b][p := id]]
  }

  // ----- the consistency conditions -----

  /** The buckets of the new table that hold `id`, whose address is `a`. */
  ghost function Holders(c: Config, t: Table, a: Service, id: int): set<int>
    requires c.WellFormed() && Shaped(t, NEW_BUCKETS)
  {
    set b | 0 <= b < NEW_BUCKETS && t[b][c.NewPos(a, b)] == id
  }

  ghost function NewIds(m: map<int, Info>): set<int> { set id | id in m && !m[id].fInTried }

  ghost function TriedIds(m: map<int, Info>): set<int> { set id | id in m && m[id].fInTried }

  ghost predicate IdsOk(s: State) {
    0 <= s.nIdCount && forall id :: id in s.mapInfo ==> 0 <= id < s.nIdCount
  }

  /** vRandom and nRandomPos are inverse to each other. */
  ghost predicate RandomOk(s: State) {
    && (forall id :: id in s.mapInfo ==>
          0 <= s.mapInfo[id].nRandomPos < |s.vRandom| && s.vRandom[s.mapInfo[id].nRandomPos] == id)
    && (forall k :: 0 <= k < |s.vRandom| ==>
          s.vRandom[k] in s.mapInfo && s.mapInfo[s.vRandom[k]].nRandomPos == k)
  }

  /** The normalised mapAddr and mapInfo are in bijection. */
  ghost predicate AddrOk(c: Config, s: State) {
    && (forall id :: id in s.mapInfo ==>
          c.Norm(s.mapInfo[id].service) in s.mapAddr && s.mapAddr[c.Norm(s.mapInfo[id].service)] == id)
    && (forall a :: a in s.mapAddr ==>
          s.mapAddr[a] in s.mapInfo && c.Norm(s.mapInfo[s.mapAddr[a]].service) == a)
  }

  /** Every occupied slot of the new table holds a known, untried id at that id's own position. */
  ghost predicate NewOk(c: Config, s: State) {
    && Shaped(s.vvNew, NEW_BUCKETS)
    && forall b, p :: InTable(b, p, NEW_BUCKETS) && s.vvNew[b][p] != EMPTY ==>
         && s.vvNew[b][p] in s.mapInfo
         && !s.mapInfo[s.vvNew[b][p]].fInTried
         && p == c.NewPos(s.mapInfo[s.vvNew[b][p]].service, b)
  }

  /** Reference counts are exact. An orphan is an untried id without a slot; between operations there is none. */
  ghost predicate RefsOk(c: Config, s: State, orphans: set<int>)
    requires c.WellFormed() && Shaped(s.vvNew, NEW_BUCKETS)
  {
    && (forall id :: id in s.mapInfo ==>
          s.mapInfo[id].nRefCount == |Holders(c, s.vvNew, s.mapInfo[id].service, id)|)
    && (forall id :: id in s.mapInfo ==>
          if s.mapInfo[id].fInTried then s.mapInfo[id].nRefCount == 0
          else if id in orphans then s.mapInfo[id].nRefCount == 0
          else 1 <= s.mapInfo[id].nRefCount <= NEW_BUCKETS_PER_ADDRESS)
    && (forall id :: id in orphans ==> id in s.mapInfo && !s.mapInfo[id].fInTried)
  }

  /** The tried table holds exactly the tried ids, each in its own hash-determined slot. */
  ghost predicate TriedOk(c: Config, s: State)
    requires c.WellFormed()
  {
    && Shaped(s.vvTried, TRIED_BUCKETS)
    && (forall b, p :: InTable(b, p, TRIED_BUCKETS) && s.vvTried[b][p] != EMPTY ==>
          && s.vvTried[b][p] in s.mapInfo
          && s.mapInfo[s.vvTried[b][p]].fInTried
          && b == c.triedBucket(s.mapInfo[s.vvTried[b][p]].service)
          && p == c.TriedPos(s.mapInfo[s.vvTried[b][p]].service))
    && (forall id :: id in s.mapInfo && s.mapInfo[id].fInTried ==>
          TriedSlot(c, s, s.mapInfo[id].service) == id)
  }

  function TriedSlot(c: Config, s: State, a: Service): int
    requires c.WellFormed() && Shaped(s.vvTried, TRIED_BUCKETS)
  {
    s.vvTried[c.triedBucket(a)][c.TriedPos(a)]
  }

  ghost predicate CountsOk(s: State) {
    s.nNew == |NewIds(s.mapInfo)| && s.nTried == |TriedIds(s.mapInfo)|
  }

  ghost predicate Inv(c: Config, s: State, orphans: set<int>) {
    && c.WellFormed()
    && IdsOk(s) && RandomOk(s) && AddrOk(c, s) && NewOk(c, s) && RefsOk(c, s, orphans) && TriedOk(c, s) && CountsOk(s)
  }

  /** The condition `Check_` puts between the counters and vRandom follows from the rest. */
  lemma SizesAgree(c: Config, s: State)
    requires Inv(c, s, {})
    ensures |s.vRandom| == s.nTried + s.nNew == |s.mapInfo| == |s.mapAddr|
  {
    assert NewIds(s.mapInfo) + TriedIds(s.mapInfo) == s.mapInfo.Keys;
    assert NewIds(s.mapInfo) !! TriedIds(s.mapInfo);
    RandomSize(s);
    AddrSize(c, s);
  }

  lemma AddrSize(c: Config, s: State)
    requires AddrOk(c, s)
    ensures |s.mapAddr| == |s.mapInfo|
  {
    var f := map id | id in s.mapInfo :: c.Norm(s.mapInfo[id].service);
    forall id | id in s.mapInfo.Keys ensures f[id] in s.mapAddr.Keys && s.mapAddr[f[id]] == id {
      assert f[id] == c.Norm(s.mapInfo[id].service);
    }
    forall a | a in s.mapAddr.Keys ensures s.mapAddr[a] in s.mapInfo.Keys && f[s.mapAddr[a]] == a {
    }
    BijectionSize(s.mapInfo.Keys, s.mapAddr.Keys, f, s.mapAddr);
  }

  lemma RandomSize(s: State)
    requires RandomOk(s)
    ensures |s.vRandom| == |s.mapInfo|
  {
    forall k, l | 0 <= k < l < |s.vRandom| ensures s.vRandom[k] != s.vRandom[l] {
      assert s.mapInfo[s.vRandom[k]].nRandomPos == k;
    }
    DistinctSize(s.vRandom);
    forall id ensures id in s.vRandom <==> id in s.mapInfo.Keys {
      if id in s.mapInfo { assert s.vRandom[s.mapInfo[id].nRandomPos] == id; }
    }
    assert (set id | id in s.vRandom) == s.mapInfo.Keys;
  }

  lemma {:induction false} DistinctSize(v: seq<int>)
    requires forall k, l :: 0 <= k < l < |v| ==> v[k] != v[l]
    ensures |set x | x in v| == |v|
  {
    if v != [] {
      var u := v[..|v| - 1];
      DistinctSize(u);
      assert v == u + [v[|v| - 1]];
      assert (set x | x in v) == (set x | x in u) + {v[|v| - 1]};
    }
  }

  lemma {:induction false} BijectionSize<A, B>(xs: set<A>, ys: set<B>, f: map<A, B>, g: map<B, A>)
    requires f.Keys == xs && g.Keys == ys
    requires forall x :: x in xs ==> f[x] in ys && g[f[x]] == x
    requires forall y :: y in ys ==> g[y] in xs && f[g[y]] == y
    ensures |xs| == |ys|
    decreases |xs|
  {
    if xs == {} {
      assert forall y :: y in ys ==> g[y] in xs;
    } else {
      var x :| x in xs;
      BijectionSize(xs - {x}, ys - {f[x]}, f - {x}, g - {f[x]});
    }
  }

  // Single facts drawn from the invariant, for proofs that do not look into its parts.

  lemma Shapes(c: Config, s: State, orphans: set<int>)
    requires Inv(c, s, orphans)
    ensures Shaped(s.vvNew, NEW_BUCKETS) && Shaped(s.vvTried, TRIED_BUCKETS)
    ensures EMPTY !in s.mapInfo && EMPTY !in orphans
  {
  }

  lemma OrphanFacts(c: Config, s: State, orphans: set<int>, id: int)
    requires Inv(c, s, orphans) && id in orphans
    ensures id in s.mapInfo && !s.mapInfo[id].fInTried && s.mapInfo[id].nRefCount == 0 && id != EMPTY
  {
  }

  lemma TriedSlotFacts(c: Config, s: State, orphans: set<int>, b: int, p: int)
    requires Inv(c, s, orphans) && InTable(b, p, TRIED_BUCKETS) && s.vvTried[b][p] != EMPTY
    ensures var id := s.vvTried[b][p];
            && id in s.mapInfo && s.mapInfo[id].fInTried && s.mapInfo[id].nRefCount == 0 && id !in orphans
            && b == c.triedBucket(s.mapInfo[id].service) && p == c.TriedPos(s.mapInfo[id].service)
  {
  }

  lemma NewSlotFacts(c: Config, s: State, orphans: set<int>, b: int, p: int)
    requires Inv(c, s, orphans) && InTable(b, p, NEW_BUCKETS) && s.vvNew[b][p] != EMPTY
    ensures var id := s.vvNew[b][p];
            && id in s.mapInfo && !s.mapInfo[id].fInTried && s.mapInfo[id].nRefCount > 0 && id !in orphans
            && p == c.NewPos(s.mapInfo[id].service, b)
  {
    SlotIsHeld(c, s, b, p);
  }

  // ----- elementary steps -----

  function EmptyTable(buckets: nat): (t: Table)
    ensures Shaped(t, buckets)
    ensures forall b, p :: InTable(b, p, buckets) ==> t[b][p] == EMPTY
  {
    seq(buckets, b => seq(BUCKET_SIZE, p => EMPTY))
  }

  /** The state after construction. */
  function Fresh(): State {
    State(0, map[], map[], [], 0, EmptyTable(TRIED_BUCKETS), 0, EmptyTable(NEW_BUCKETS), 1, {})
  }

  lemma FreshOk(c: Config)
    requires c.WellFormed()
    ensures Inv(c, Fresh(), {})
  {
  }

  // The tables depend on a record only through these projections, so each condition has its own frame.

  ghost predicate SameServices(m: map<int, Info>, m': map<int, Info>) {
    m.Keys == m'.Keys && forall id :: id in m ==> m[id].service == m'[id].service
  }

  ghost predicate SameTries(m: map<int, Info>, m': map<int, Info>) {
    m.Keys == m'.Keys && forall id :: id in m ==> m[id].service == m'[id].service && m[id].fInTried == m'[id].fInTried
  }

  ghost predicate SameRefs(m: map<int, Info>, m': map<int, Info>) {
    SameTries(m, m') && forall id :: id in m ==> m[id].nRefCount == m'[id].nRefCount
  }

  ghost predicate SamePositions(m: map<int, Info>, m': map<int, Info>) {
    m.Keys == m'.Keys && forall id :: id in m ==> m[id].nRandomPos == m'[id].nRandomPos
  }

  lemma FrameRandom(s: State, s': State)
    requires RandomOk(s) && s'.vRandom == s.vRandom && SamePositions(s.mapInfo, s'.mapInfo)
    ensures RandomOk(s')
  {
  }

  lemma FrameAddr(c: Config, s: State, s': State)
    requires AddrOk(c, s) && s'.mapAddr == s.mapAddr && SameServices(s.mapInfo, s'.mapInfo)
    ensures AddrOk(c, s')
  {
  }

  lemma FrameNew(c: Config, s: State, s': State, orphans: set<int>)
    requires c.WellFormed() && NewOk(c, s) && RefsOk(c, s, orphans)
    requires s'.vvNew == s.vvNew && SameRefs(s.mapInfo, s'.mapInfo)
    ensures NewOk(c, s') && RefsOk(c, s', orphans)
  {
  }

  lemma FrameTried(c: Config, s: State, s': State)
    requires c.WellFormed() && TriedOk(c, s) && s'.vvTried == s.vvTried && SameTries(s.mapInfo, s'.mapInfo)
    ensures TriedOk(c, s')
  {
  }

  lemma FrameCounts(s: State, s': State)
    requires CountsOk(s) && s'.nNew == s.nNew && s'.nTried == s.nTried && SameTries(s.mapInfo, s'.mapInfo)
    ensures CountsOk(s')
  {
    forall id
      ensures id in NewIds(s.mapInfo) <==> id in NewIds(s'.mapInfo)
      ensures id in TriedIds(s.mapInfo) <==> id in TriedIds(s'.mapInfo)
    {
      assert id in s.mapInfo.Keys <==> id in s'.mapInfo.Keys;
    }
    assert NewIds(s'.mapInfo) == NewIds(s.mapInfo) && TriedIds(s'.mapInfo) == TriedIds(s.mapInfo);
  }

  /** The conditions see nothing of a record beyond these projections, nor nLastGood, nor the collisions. */
  lemma FrameAll(c: Config, s: State, s': State, orphans: set<int>)
    requires Inv(c, s, orphans)
    requires s'.nIdCount == s.nIdCount && s'.vRandom == s.vRandom && s'.mapAddr == s.mapAddr
    requires s'.vvNew == s.vvNew && s'.vvTried == s.vvTried && s'.nNew == s.nNew && s'.nTried == s.nTried
    requires SameRefs(s.mapInfo, s'.mapInfo) && SamePositions(s.mapInfo, s'.mapInfo)
    ensures Inv(c, s', orphans)
  {
    hide RandomOk, AddrOk, NewOk, RefsOk, TriedOk;
    FrameRandom(s, s'); FrameAddr(c, s, s'); FrameNew(c, s, s', orphans); FrameTried(c, s, s'); FrameCounts(s, s');
  }

  lemma IdsPut(m: map<int, Info>, id: int, i: Info)
    ensures NewIds(m[id := i]) == if i.fInTried then NewIds(m) - {id} else NewIds(m) + {id}
    ensures TriedIds(m[id := i]) == if i.fInTried then TriedIds(m) + {id} else TriedIds(m) - {id}
  {
  }

  lemma IdsRemove(m: map<int, Info>, id: int)
    ensures NewIds(m - {id}) == NewIds(m) - {id} && TriedIds(m - {id}) == TriedIds(m) - {id}
  {
  }

  /** Overwrite the statistics of an entry. */
  function Touch(s: State, id: int, info: Info): State {
    s.(mapInfo := s.mapInfo[id := info])
  }

  predicate SameCore(i: Info, j: Info) {
    i.service == j.service && i.nRefCount == j.nRefCount && i.fInTried == j.fInTried && i.nRandomPos == j.nRandomPos
  }

  lemma TouchKeeps(c: Config, s: State, id: int, info: Info, orphans: set<int>)
    requires Inv(c, s, orphans) && id in s.mapInfo && SameCore(s.mapInfo[id], info)
    ensures Inv(c, Touch(s, id, info), orphans)
  {
    FrameAll(c, s, Touch(s, id, info), orphans);
  }

  /** CAddrInfo's constructor and Init. */
  function NewInfo(addr: Address, source: int, pos: int): Info {
    Info(addr.service, addr.nServices, addr.nTime, source, 0, 0, 0, 0, 0, false, pos)
  }

  /** Create, with the increment of nNew that its caller makes. */
  function Create(c: Config, s: State, addr: Address, source: int): State {
    var id := s.nIdCount;
    s.(nIdCount := id + 1,
       mapInfo := s.mapInfo[id := NewInfo(addr, source, |s.vRandom|)],
       mapAddr := s.mapAddr[c.Norm(addr.service) := id],
       vRandom := s.vRandom + [id],
       nNew := s.nNew + 1)
  }

  lemma CreateIndexes(c: Config, s: State, addr: Address, source: int)
    requires IdsOk(s) && RandomOk(s) && AddrOk(c, s) && c.Norm(addr.service) !in s.mapAddr
    ensures IdsOk(Create(c, s, addr, source)) && RandomOk(Create(c, s, addr, source))
    ensures AddrOk(c, Create(c, s, addr, source))
  {
  }

  lemma CreateNew(c: Config, s: State, addr: Address, source: int, orphans: set<int>)
    requires c.WellFormed() && IdsOk(s) && NewOk(c, s) && RefsOk(c, s, orphans)
    ensures NewOk(c, Create(c, s, addr, source)) && RefsOk(c, Create(c, s, addr, source), orphans + {s.nIdCount})
  {
    var id := s.nIdCount;
    assert id !in s.mapInfo;
    forall b | 0 <= b < NEW_BUCKETS ensures s.vvNew[b][c.NewPos(addr.service, b)] != id {
      assert InTable(b, c.NewPos(addr.service, b), NEW_BUCKETS);
    }
    assert Holders(c, s.vvNew, addr.service, id) == {};
  }

  lemma CreateTried(c: Config, s: State, addr: Address, source: int)
    requires c.WellFormed() && IdsOk(s) && TriedOk(c, s)
    ensures TriedOk(c, Create(c, s, addr, source))
  {
  }

  lemma CreateKeeps(c: Config, s: State, addr: Address, source: int, orphans: set<int>)
    requires Inv(c, s, orphans) && c.Norm(addr.service) !in s.mapAddr
    ensures Inv(c, Create(c, s, addr, source), orphans + {s.nIdCount})
  {
    hide RandomOk, AddrOk, NewOk, RefsOk, TriedOk;
    var id, s' := s.nIdCount, Create(c, s, addr, source);
    CreateIndexes(c, s, addr, source);
    CreateNew(c, s, addr, source, orphans);
    CreateTried(c, s, addr, source);
    IdsPut(s.mapInfo, id, s'.mapInfo[id]);
    assert id !in s.mapInfo && id !in NewIds(s.mapInfo) && TriedIds(s.mapInfo) - {id} == TriedIds(s.mapInfo);
  }

  /** SwapRandom. */
  function Swap(s: State, i: int, j: int): State
    requires RandomOk(s) && 0 <= i < |s.vRandom| && 0 <= j < |s.vRandom|
  {
    if i == j then s
    else
      var a, b := s.vRandom[i], s.vRandom[j];
      s.(mapInfo := s.mapInfo[a := s.mapInfo[a].(nRandomPos := j)][b := s.mapInfo[b].(nRandomPos := i)],
         vRandom := s.vRandom[i := b][j := a])
  }

  lemma SwapRandomOk(s: State, i: int, j: int)
    requires RandomOk(s) && 0 <= i < |s.vRandom| && 0 <= j < |s.vRandom|
    ensures RandomOk(Swap(s, i, j)) && SameRefs(s.mapInfo, Swap(s, i, j).mapInfo)
    ensures |Swap(s, i, j).vRandom| == |s.vRandom|
  {
    var t := Swap(s, i, j);
    if i != j {
      var a, b := s.vRandom[i], s.vRandom[j];
      assert s.mapInfo[a].nRandomPos == i && s.mapInfo[b].nRandomPos == j;
      assert t.mapInfo.Keys == s.mapInfo.Keys;
      forall id | id in s.mapInfo && id != a && id != b ensures t.mapInfo[id] == s.mapInfo[id] {
      }
      forall k | 0 <= k < |t.vRandom| ensures t.vRandom[k] in t.mapInfo && t.mapInfo[t.vRandom[k]].nRandomPos == k {
        if k != i && k != j { assert t.vRandom[k] == s.vRandom[k]; }
      }
    }
  }

  lemma SwapKeeps(c: Config, s: State, i: int, j: int, orphans: set<int>)
    requires Inv(c, s, orphans) && 0 <= i < |s.vRandom| && 0 <= j < |s.vRandom|
    ensures Inv(c, Swap(s, i, j), orphans)
  {
    hide AddrOk, NewOk, RefsOk, TriedOk;
    var s' := Swap(s, i, j);
    SwapRandomOk(s, i, j);
    FrameAddr(c, s, s'); FrameNew(c, s, s', orphans); FrameTried(c, s, s'); FrameCounts(s, s');
  }

  /** Remove the entry that stands last in vRandom. */
  function DropLast(c: Config, s: State): State
    requires RandomOk(s) && s.vRandom != []
  {
    var id := s.vRandom[|s.vRandom| - 1];
    s.(vRandom := s.vRandom[..|s.vRandom| - 1],
       mapAddr := s.mapAddr - {c.Norm(s.mapInfo[id].service)},
       mapInfo := s.mapInfo - {id},
       nNew := s.nNew - 1)
  }

  /** Delete an entry: it is swapped to the end of vRandom and removed everywhere. */
  function Delete(c: Config, s: State, id: int): State
    requires RandomOk(s) && id in s.mapInfo
  {
    DropLast(c, ToLast(s, id))
  }

  lemma DropLastIndexes(c: Config, s: State)
    requires IdsOk(s) && RandomOk(s) && AddrOk(c, s) && s.vRandom != []
    ensures IdsOk(DropLast(c, s)) && RandomOk(DropLast(c, s)) && AddrOk(c, DropLast(c, s))
  {
  }

  lemma DropLastNew(c: Config, s: State, orphans: set<int>)
    requires c.WellFormed() && RandomOk(s) && s.vRandom != [] && s.vRandom[|s.vRandom| - 1] in orphans
    requires NewOk(c, s) && RefsOk(c, s, orphans)
    ensures NewOk(c, DropLast(c, s)) && RefsOk(c, DropLast(c, s), orphans - {s.vRandom[|s.vRandom| - 1]})
  {
    var id := s.vRandom[|s.vRandom| - 1];
    forall b, p | InTable(b, p, NEW_BUCKETS) && s.vvNew[b][p] != EMPTY ensures s.vvNew[b][p] != id {
      NotHeld(c, s, orphans, id, b, p);
    }
  }

  lemma DropLastTried(c: Config, s: State)
    requires c.WellFormed() && RandomOk(s) && s.vRandom != [] && !s.mapInfo[s.vRandom[|s.vRandom| - 1]].fInTried
    requires TriedOk(c, s)
    ensures TriedOk(c, DropLast(c, s))
  {
  }

  /** An entry without references occupies no slot of the new table. */
  lemma NotHeld(c: Config, s: State, orphans: set<int>, id: int, b: int, p: int)
    requires c.WellFormed() && NewOk(c, s) && RefsOk(c, s, orphans)
    requires id in s.mapInfo && s.mapInfo[id].nRefCount == 0 && InTable(b, p, NEW_BUCKETS)
    ensures s.vvNew[b][p] != id || id == EMPTY
  {
    var held := Holders(c, s.vvNew, s.mapInfo[id].service, id);
    assert s.vvNew[b][p] == id && id != EMPTY ==> b in held;
  }

  lemma DropLastKeeps(c: Config, s: State, orphans: set<int>)
    requires Inv(c, s, orphans) && s.vRandom != [] && s.vRandom[|s.vRandom| - 1] in orphans
    ensures Inv(c, DropLast(c, s), orphans - {s.vRandom[|s.vRandom| - 1]})
  {
    hide RandomOk, AddrOk, NewOk, RefsOk, TriedOk;
    OrphanFacts(c, s, orphans, s.vRandom[|s.vRandom| - 1]);
    var id := s.vRandom[|s.vRandom| - 1];
    DropLastIndexes(c, s);
    DropLastNew(c, s, orphans);
    DropLastTried(c, s);
    IdsRemove(s.mapInfo, id);
    assert id in NewIds(s.mapInfo) && TriedIds(s.mapInfo) - {id} == TriedIds(s.mapInfo);
  }

  function ToLast(s: State, id: int): (t: State)
    requires RandomOk(s) && id in s.mapInfo
    ensures t.vRandom != [] && t.vRandom[|t.vRandom| - 1] == id && RandomOk(t)
  {
    SwapRandomOk(s, s.mapInfo[id].nRandomPos, |s.vRandom| - 1);
    Swap(s, s.mapInfo[id].nRandomPos, |s.vRandom| - 1)
  }

  lemma ToLastKeeps(c: Config, s: State, id: int, orphans: set<int>)
    requires Inv(c, s, orphans) && id in s.mapInfo
    ensures Inv(c, ToLast(s, id), orphans)
  {
    SwapKeeps(c, s, s.mapInfo[id].nRandomPos, |s.vRandom| - 1, orphans);
  }

  lemma DeleteKeeps(c: Config, s: State, id: int, orphans: set<int>)
    requires Inv(c, s, orphans) && id in orphans
    ensures Inv(c, Delete(c, s, id), orphans - {id})
  {
    ToLastKeeps(c, s, id, orphans);
    DropLastKeeps(c, ToLast(s, id), orphans);
  }

  // ----- moving ids between the tables -----

  /** Take one reference away from the id in an occupied slot of the new table. */
  function ClearSlot(s: State, b: int, p: int): State
    requires Shaped(s.vvNew, NEW_BUCKETS) && InTable(b, p, NEW_BUCKETS) && s.vvNew[b][p] in s.mapInfo
  {
    var id := s.vvNew[b][p];
    s.(vvNew := Put(s.vvNew, b, p, EMPTY), mapInfo := s.mapInfo[id := s.mapInfo[id].(nRefCount := s.mapInfo[id].nRefCount - 1)])
  }

  /** Give `id` the empty slot of bucket `b` that its address determines. */
  function FillSlot(c: Config, s: State, id: int, b: int): State
    requires c.WellFormed() && Shaped(s.vvNew, NEW_BUCKETS) && 0 <= b < NEW_BUCKETS && id in s.mapInfo
  {
    s.(vvNew := Put(s.vvNew, b, c.NewPos(s.mapInfo[id].service, b), id),
       mapInfo := s.mapInfo[id := s.mapInfo[id].(nRefCount := s.mapInfo[id].nRefCount + 1)])
  }

  /** Writing one slot changes an id's number of slots by at most one. */
  lemma HoldersPut(c: Config, t: Table, b: int, p: int, x: int, a: Service, id: int)
    requires c.WellFormed() && Shaped(t, NEW_BUCKETS) && InTable(b, p, NEW_BUCKETS)
    ensures |Holders(c, Put(t, b, p, x), a, id)| == |Holders(c, t, a, id)| +
              if p != c.NewPos(a, b) || (x == id <==> t[b][p] == id) then 0 else if x == id then 1 else -1
  {
    hide Put;
    var before, after := Holders(c, t, a, id), Holders(c, Put(t, b, p, x), a, id);
    forall k | 0 <= k < NEW_BUCKETS && (k != b || p != c.NewPos(a, b)) ensures k in after <==> k in before {
      assert Put(t, b, p, x)[k][c.NewPos(a, k)] == t[k][c.NewPos(a, k)];
    }
    if p != c.NewPos(a, b) || (x == id <==> t[b][p] == id) {
      assert after == before;
    } else if x == id {
      assert after == before + {b} && b !in before;
    } else {
      assert after == before - {b} && b in before;
    }
  }

  lemma SlotIsHeld(c: Config, s: State, b: int, p: int)
    requires c.WellFormed() && NewOk(c, s) && InTable(b, p, NEW_BUCKETS) && s.vvNew[b][p] != EMPTY
    ensures |Holders(c, s.vvNew, s.mapInfo[s.vvNew[b][p]].service, s.vvNew[b][p])| > 0
  {
    assert b in Holders(c, s.vvNew, s.mapInfo[s.vvNew[b][p]].service, s.vvNew[b][p]);
  }

  lemma ClearSlotNew(c: Config, s: State, b: int, p: int, orphans: set<int>)
    requires c.WellFormed() && NewOk(c, s) && RefsOk(c, s, orphans) && EMPTY !in s.mapInfo
    requires InTable(b, p, NEW_BUCKETS) && s.vvNew[b][p] != EMPTY
    ensures s.mapInfo[s.vvNew[b][p]].nRefCount > 0 && s.vvNew[b][p] !in orphans
    ensures NewOk(c, ClearSlot(s, b, p))
    ensures RefsOk(c, ClearSlot(s, b, p),
                   if s.mapInfo[s.vvNew[b][p]].nRefCount == 1 then orphans + {s.vvNew[b][p]} else orphans)
  {
    hide Holders, Put;
    var id := s.vvNew[b][p];
    SlotIsHeld(c, s, b, p);
    forall x | x in s.mapInfo
      ensures |Holders(c, Put(s.vvNew, b, p, EMPTY), s.mapInfo[x].service, x)| ==
              |Holders(c, s.vvNew, s.mapInfo[x].service, x)| + (if x == id then -1 else 0)
    {
      HoldersPut(c, s.vvNew, b, p, EMPTY, s.mapInfo[x].service, x);
    }
  }

  lemma ClearSlotKeeps(c: Config, s: State, b: int, p: int, orphans: set<int>)
    requires Inv(c, s, orphans) && InTable(b, p, NEW_BUCKETS) && s.vvNew[b][p] != EMPTY
    ensures Inv(c, ClearSlot(s, b, p),
                if s.mapInfo[s.vvNew[b][p]].nRefCount == 1 then orphans + {s.vvNew[b][p]} else orphans)
  {
    hide RandomOk, AddrOk, NewOk, RefsOk, TriedOk;
    Shapes(c, s, orphans);
    NewSlotFacts(c, s, orphans, b, p);
    var s' := ClearSlot(s, b, p);
    ClearSlotNew(c, s, b, p, orphans);
    FrameRandom(s, s'); FrameAddr(c, s, s'); FrameTried(c, s, s'); FrameCounts(s, s');
  }

  lemma FillSlotNew(c: Config, s: State, id: int, b: int, orphans: set<int>)
    requires c.WellFormed() && NewOk(c, s) && RefsOk(c, s, orphans) && EMPTY !in s.mapInfo
    requires id in s.mapInfo && !s.mapInfo[id].fInTried && 0 <= b < NEW_BUCKETS
    requires s.mapInfo[id].nRefCount < NEW_BUCKETS_PER_ADDRESS
    requires s.vvNew[b][c.NewPos(s.mapInfo[id].service, b)] == EMPTY
    ensures NewOk(c, FillSlot(c, s, id, b)) && RefsOk(c, FillSlot(c, s, id, b), orphans - {id})
  {
    hide Holders, Put;
    var p := c.NewPos(s.mapInfo[id].service, b);
    forall x | x in s.mapInfo
      ensures |Holders(c, Put(s.vvNew, b, p, id), s.mapInfo[x].service, x)| ==
              |Holders(c, s.vvNew, s.mapInfo[x].service, x)| + (if x == id then 1 else 0)
    {
      HoldersPut(c, s.vvNew, b, p, id, s.mapInfo[x].service, x);
    }
  }

  lemma FillSlotKeeps(c: Config, s: State, id: int, b: int, orphans: set<int>)
    requires Inv(c, s, orphans) && id in s.mapInfo && !s.mapInfo[id].fInTried && 0 <= b < NEW_BUCKETS
    requires s.mapInfo[id].nRefCount < NEW_BUCKETS_PER_ADDRESS
    requires s.vvNew[b][c.NewPos(s.mapInfo[id].service, b)] == EMPTY
    ensures Inv(c, FillSlot(c, s, id, b), orphans - {id})
  {
    hide RandomOk, AddrOk, NewOk, RefsOk, TriedOk;
    Shapes(c, s, orphans);
    var s' := FillSlot(c, s, id, b);
    FillSlotNew(c, s, id, b, orphans);
    FrameRandom(s, s'); FrameAddr(c, s, s'); FrameTried(c, s, s'); FrameCounts(s, s');
  }

  /** Empty every slot of the new table that holds `id`; each bucket can hold it in one place only. */
  function Without(c: Config, t: Table, a: Service, id: int): (r: Table)
    requires c.WellFormed() && Shaped(t, NEW_BUCKETS)
    ensures Shaped(r, NEW_BUCKETS)
    ensures forall b, p :: InTable(b, p, NEW_BUCKETS) ==>
              r[b][p] == if p == c.NewPos(a, b) && t[b][p] == id then EMPTY else t[b][p]
  {
    seq(NEW_BUCKETS, b requires 0 <= b < NEW_BUCKETS =>
      if t[b][c.NewPos(a, b)] == id then t[b][c.NewPos(a, b) := EMPTY] else t[b])
  }

  ghost function Unslot(c: Config, s: State, id: int): State
    requires c.WellFormed() && Shaped(s.vvNew, NEW_BUCKETS) && id in s.mapInfo
  {
    var i := s.mapInfo[id];
    s.(vvNew := Without(c, s.vvNew, i.service, id),
       mapInfo := s.mapInfo[id := i.(nRefCount := i.nRefCount - |Holders(c, s.vvNew, i.service, id)|)])
  }

  lemma UnslotNew(c: Config, s: State, id: int, orphans: set<int>)
    requires c.WellFormed() && NewOk(c, s) && RefsOk(c, s, orphans) && EMPTY !in s.mapInfo
    requires id in s.mapInfo && !s.mapInfo[id].fInTried
    ensures NewOk(c, Unslot(c, s, id)) && RefsOk(c, Unslot(c, s, id), orphans + {id})
  {
    var s', a := Unslot(c, s, id), s.mapInfo[id].service;
    forall x | x in s.mapInfo
      ensures s'.mapInfo[x].nRefCount == |Holders(c, s'.vvNew, s'.mapInfo[x].service, x)|
    {
      if x == id {
        assert Holders(c, s'.vvNew, a, id) == {};
      } else {
        forall b | 0 <= b < NEW_BUCKETS
          ensures b in Holders(c, s'.vvNew, s.mapInfo[x].service, x) <==> b in Holders(c, s.vvNew, s.mapInfo[x].service, x)
        {
          assert InTable(b, c.NewPos(s.mapInfo[x].service, b), NEW_BUCKETS);
        }
        assert Holders(c, s'.vvNew, s.mapInfo[x].service, x) == Holders(c, s.vvNew, s.mapInfo[x].service, x);
      }
    }
  }

  lemma UnslotKeeps(c: Config, s: State, id: int, orphans: set<int>)
    requires Inv(c, s, orphans) && id in s.mapInfo && !s.mapInfo[id].fInTried
    ensures Inv(c, Unslot(c, s, id), orphans + {id})
  {
    hide RandomOk, AddrOk, NewOk, RefsOk, TriedOk;
    Shapes(c, s, orphans);
    var s' := Unslot(c, s, id);
    UnslotNew(c, s, id, orphans);
    FrameRandom(s, s'); FrameAddr(c, s, s'); FrameTried(c, s, s'); FrameCounts(s, s');
  }

  /** Take the id in an occupied tried slot out of the tried table, as an orphan of the new one. */
  function Untry(s: State, b: int, p: int): State
    requires Shaped(s.vvTried, TRIED_BUCKETS) && InTable(b, p, TRIED_BUCKETS) && s.vvTried[b][p] in s.mapInfo
  {
    var id := s.vvTried[b][p];
    s.(vvTried := Put(s.vvTried, b, p, EMPTY), mapInfo := s.mapInfo[id := s.mapInfo[id].(fInTried := false)],
       nTried := s.nTried - 1, nNew := s.nNew + 1)
  }

  /** Put an orphan into its own slot of the tried table. */
  function EnterTried(c: Config, s: State, id: int): State
    requires c.WellFormed() && Shaped(s.vvTried, TRIED_BUCKETS) && id in s.mapInfo
  {
    var i := s.mapInfo[id];
    s.(vvTried := Put(s.vvTried, c.triedBucket(i.service), c.TriedPos(i.service), id),
       mapInfo := s.mapInfo[id := i.(fInTried := true)],
       nTried := s.nTried + 1, nNew := s.nNew - 1)
  }

  lemma UntryTried(c: Config, s: State, b: int, p: int)
    requires c.WellFormed() && TriedOk(c, s) && InTable(b, p, TRIED_BUCKETS) && s.vvTried[b][p] != EMPTY
    ensures TriedOk(c, Untry(s, b, p))
  {
    var id, s' := s.vvTried[b][p], Untry(s, b, p);
    forall x | x in s'.mapInfo && s'.mapInfo[x].fInTried ensures TriedSlot(c, s', s'.mapInfo[x].service) == x {
      assert x != id && TriedSlot(c, s, s.mapInfo[x].service) == x;
    }
  }

  lemma FlipNew(c: Config, s: State, s': State, id: int, orphans: set<int>, orphans': set<int>)
    requires c.WellFormed() && NewOk(c, s) && RefsOk(c, s, orphans)
    requires id in s.mapInfo && s.mapInfo[id].nRefCount == 0 && id != EMPTY
    requires s'.vvNew == s.vvNew
    requires s'.mapInfo == s.mapInfo[id := s.mapInfo[id].(fInTried := !s.mapInfo[id].fInTried)]
    requires orphans' == if s.mapInfo[id].fInTried then orphans + {id} else orphans - {id}
    ensures NewOk(c, s') && RefsOk(c, s', orphans')
  {
    forall b, p | InTable(b, p, NEW_BUCKETS) ensures s.vvNew[b][p] != id {
      NotHeld(c, s, orphans, id, b, p);
    }
    forall x | x in s'.mapInfo
      ensures s'.mapInfo[x].nRefCount == |Holders(c, s'.vvNew, s'.mapInfo[x].service, x)|
    {
      assert s'.mapInfo[x].service == s.mapInfo[x].service;
    }
  }

  lemma FlipCounts(s: State, s': State, id: int)
    requires CountsOk(s) && id in s.mapInfo
    requires s'.mapInfo == s.mapInfo[id := s.mapInfo[id].(fInTried := !s.mapInfo[id].fInTried)]
    requires var d := if s.mapInfo[id].fInTried then 1 else -1; s'.nNew == s.nNew + d && s'.nTried == s.nTried - d
    ensures CountsOk(s')
  {
    IdsPut(s.mapInfo, id, s'.mapInfo[id]);
    assert if s.mapInfo[id].fInTried then id in TriedIds(s.mapInfo) && id !in NewIds(s.mapInfo)
           else id in NewIds(s.mapInfo) && id !in TriedIds(s.mapInfo);
  }

  lemma UntryKeeps(c: Config, s: State, b: int, p: int, orphans: set<int>)
    requires Inv(c, s, orphans) && InTable(b, p, TRIED_BUCKETS) && s.vvTried[b][p] != EMPTY
    ensures Inv(c, Untry(s, b, p), orphans + {s.vvTried[b][p]})
  {
    hide RandomOk, AddrOk, NewOk, RefsOk, TriedOk, CountsOk;
    Shapes(c, s, orphans);
    TriedSlotFacts(c, s, orphans, b, p);
    var id, s' := s.vvTried[b][p], Untry(s, b, p);
    UntryTried(c, s, b, p);
    FlipNew(c, s, s', id, orphans, orphans + {id});
    FrameRandom(s, s'); FrameAddr(c, s, s');
    FlipCounts(s, s', id);
  }

  lemma EnterTriedTried(c: Config, s: State, id: int)
    requires c.WellFormed() && TriedOk(c, s) && EMPTY !in s.mapInfo
    requires id in s.mapInfo && !s.mapInfo[id].fInTried && TriedSlot(c, s, s.mapInfo[id].service) == EMPTY
    ensures TriedOk(c, EnterTried(c, s, id))
  {
    var s' := EnterTried(c, s, id);
    forall x | x in s'.mapInfo && s'.mapInfo[x].fInTried ensures TriedSlot(c, s', s'.mapInfo[x].service) == x {
      if x != id { assert TriedSlot(c, s, s.mapInfo[x].service) == x; }
    }
  }

  lemma EnterTriedKeeps(c: Config, s: State, id: int, orphans: set<int>)
    requires Inv(c, s, orphans) && id in orphans && TriedSlot(c, s, s.mapInfo[id].service) == EMPTY
    ensures Inv(c, EnterTried(c, s, id), orphans - {id})
  {
    hide RandomOk, AddrOk, NewOk, RefsOk, TriedOk, CountsOk;
    Shapes(c, s, orphans);
    OrphanFacts(c, s, orphans, id);
    var s' := EnterTried(c, s, id);
    EnterTriedTried(c, s, id);
    FlipNew(c, s, s', id, orphans, orphans - {id});
    FrameRandom(s, s'); FrameAddr(c, s, s');
    FlipCounts(s, s', id);
  }
}
