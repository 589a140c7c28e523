/** The public operations of the address manager and every run of them from construction. */
module AddrManRuns {
  import opened Common
  import opened Bits
  import opened AddrManState
  import opened AddrMan

  /** The id that Find reports for an address, if any. */
  function FindId(c: Config, s: State, a: Service): Option<int> {
    if c.Norm(a) in s.mapAddr && s.mapAddr[c.Norm(a)] in s.mapInfo then Some(s.mapAddr[c.Norm(a)]) else None
  }

  /** Find, and the test of Good_, Attempt_ and their like that the entry has the very same port. */
  function FindExact(c: Config, s: State, a: Service): Option<int> {
    var id := FindId(c, s, a);
    if id.Some? && s.mapInfo[id.value].service == a then id else None
  }

  lemma FrameLater(c: Config, s: State, s': State)
    requires c.WellFormed() && TriedOk(c, s)
    requires s'.nIdCount == s.nIdCount && s'.vvTried == s.vvTried && SameServices(s.mapInfo, s'.mapInfo)
    ensures Later(s, s')
  {
  }

  /** Changes that touch no table: statistics, nLastGood, collisions. */
  lemma NoteKeeps(c: Config, s: State, s': State)
    requires Inv(c, s, {})
    requires s'.nIdCount == s.nIdCount && s'.vRandom == s.vRandom && s'.mapAddr == s.mapAddr
    requires s'.vvNew == s.vvNew && s'.vvTried == s.vvTried && s'.nNew == s.nNew && s'.nTried == s.nTried
    requires SameRefs(s.mapInfo, s'.mapInfo) && SamePositions(s.mapInfo, s'.mapInfo)
    ensures Inv(c, s', {}) && Later(s, s')
  {
    hide RandomOk, AddrOk, NewOk, RefsOk, IdsOk, CountsOk;
    Shapes(c, s, {});
    FrameAll(c, s, s', {});
    FrameLater(c, s, s');
  }

  // ----- Good_ -----

  /** The part of Good_ that only writes statistics. */
  function GoodNoted(s: State, id: int, nTime: int): State
    requires id in s.mapInfo
  {
    Touch(s, id, s.mapInfo[id].(nLastSuccess := nTime, nLastTry := nTime, nAttempts := 0)).(nLastGood := nTime)
  }

  ghost function Good(c: Config, s: State, a: Service, testBeforeEvict: bool, nTime: int): State
    requires Inv(c, s, {})
  {
    var found := FindExact(c, s, a);
    if found.None? then s.(nLastGood := nTime)
    else
      var id := found.value;
      NoteKeeps(c, s, GoodNoted(s, id, nTime));
      GoodMove(c, GoodNoted(s, id, nTime), id, testBeforeEvict)
  }

  /** The part of Good_ that may move the entry to the tried table, or record a collision there. */
  ghost function GoodMove(c: Config, s: State, id: int, testBeforeEvict: bool): State
    requires Inv(c, s, {}) && id in s.mapInfo
  {
    var a := s.mapInfo[id].service;
    if s.mapInfo[id].fInTried || Holders(c, s.vvNew, a, id) == {} then s
    else if testBeforeEvict && TriedSlot(c, s, a) != EMPTY then
      if |s.collisions| < COLLISION_SIZE then s.(collisions := s.collisions + {id}) else s
    else MakeTried(c, s, id)
  }

  /** Good_'s "no bucket is found" case cannot happen. */
  lemma UntriedIsHeld(c: Config, s: State, id: int)
    requires Inv(c, s, {}) && id in s.mapInfo && !s.mapInfo[id].fInTried
    ensures Holders(c, s.vvNew, s.mapInfo[id].service, id) != {}
  {
  }

  // ----- Add_ -----

  function U32(x: int): nat { x % 0x1_0000_0000 }

  /** The refresh of a known entry: its time and its service bits. */
  function Refreshed(i: Info, addr: Address, penalty: int, now: int): Info {
    var interval := if now - addr.nTime < 24 * 60 * 60 then 60 * 60 else 24 * 60 * 60;
    var renew := addr.nTime != 0 && (i.nTime == 0 || i.nTime < addr.nTime - interval - penalty);
    i.(nTime := if renew then U32(Max(0, addr.nTime - penalty)) else i.nTime,
       nServices := i.nServices + addr.nServices)
  }

  /** Whether Add_ goes on to give a known entry another slot; `draw` is the random number it draws. */
  predicate WantsSlot(i: Info, addr: Address, draw: nat) {
    && addr.nTime != 0 && !(i.nTime != 0 && addr.nTime <= i.nTime)
    && !i.fInTried
    && i.nRefCount != NEW_BUCKETS_PER_ADDRESS
    && (i.nRefCount > 0 ==> draw % Pow2(i.nRefCount) == 0)
  }

  /** The end of Add_: put `id`, possibly an orphan, into the slot of bucket `b`, or drop the orphan. */
  ghost function PlaceNew(c: Config, s: State, id: int, b: int, now: int): State
    requires RandomOk(s) && c.WellFormed() && NewOk(c, s) && id in s.mapInfo && 0 <= b < NEW_BUCKETS
  {
    var p := c.NewPos(s.mapInfo[id].service, b);
    var x := s.vvNew[b][p];
    if x == id then s
    else if x == EMPTY || IsTerrible(s.mapInfo[x], now) || (s.mapInfo[x].nRefCount > 1 && s.mapInfo[id].nRefCount == 0) then
      ClearNewFacts(c, s, b, p);
      FillSlot(c, ClearNew(c, s, b, p), id, b)
    else if s.mapInfo[id].nRefCount == 0 then Delete(c, s, id)
    else s
  }

  /** Add_ for an address it knows. */
  ghost function AddKnown(c: Config, s: State, id: int, addr: Address, source: int, penalty: int, now: int, draw: nat): State
    requires Inv(c, s, {}) && id in s.mapInfo
  {
    var t := Touch(s, id, Refreshed(s.mapInfo[id], addr, penalty, now));
    NoteKeeps(c, s, t);
    if !WantsSlot(t.mapInfo[id], addr, draw) then t
    else PlaceNew(c, t, id, c.newBucket(t.mapInfo[id].service, source), now)
  }

  /** Add_ for an address it does not know. */
  ghost function AddUnknown(c: Config, s: State, addr: Address, source: int, penalty: int, now: int): State
    requires Inv(c, s, {}) && FindId(c, s, addr.service).None?
  {
    CreatedKeeps(c, s, addr, source, penalty);
    PlaceNew(c, Created(c, s, addr, source, penalty), s.nIdCount, c.newBucket(addr.service, source), now)
  }

  ghost function Add(c: Config, s: State, addr: Address, source: int, penalty: int, now: int, draw: nat): State
    requires Inv(c, s, {})
  {
    var penalty := if addr.service.ip == source then 0 else penalty;
    var found := FindId(c, s, addr.service);
    if !c.isRoutable(addr.service.ip) then s
    else if found.Some? then AddKnown(c, s, found.value, addr, source, penalty, now, draw)
    else AddUnknown(c, s, addr, source, penalty, now)
  }

  function Created(c: Config, s: State, addr: Address, source: int, penalty: int): State {
    var t := Create(c, s, addr, source);
    Retimed(t, s.nIdCount, U32(Max(0, addr.nTime - penalty)))
  }

  function Retimed(s: State, id: int, nTime: nat): State
    requires id in s.mapInfo
  {
    Touch(s, id, s.mapInfo[id].(nTime := nTime))
  }

  lemma NotFound(c: Config, s: State, a: Service)
    requires AddrOk(c, s) && FindId(c, s, a).None?
    ensures c.Norm(a) !in s.mapAddr
  {
  }

  lemma CreatedLater(c: Config, s: State, addr: Address, source: int, penalty: int)
    requires c.WellFormed() && TriedOk(c, s)
    ensures Later(s, Created(c, s, addr, source, penalty))
  {
  }

  lemma CreateUnknownKeeps(c: Config, s: State, addr: Address, source: int)
    requires Inv(c, s, {}) && FindId(c, s, addr.service).None?
    ensures Inv(c, Create(c, s, addr, source), {s.nIdCount})
  {
    hide RandomOk, NewOk, RefsOk, TriedOk, IdsOk, CountsOk;
    NotFound(c, s, addr.service);
    CreateKeeps(c, s, addr, source, {});
    assert {} + {s.nIdCount} == {s.nIdCount};
  }

  lemma CreatedKeeps(c: Config, s: State, addr: Address, source: int, penalty: int)
    requires Inv(c, s, {}) && FindId(c, s, addr.service).None?
    ensures Inv(c, Created(c, s, addr, source, penalty), {s.nIdCount})
  {
    hide RandomOk, AddrOk, NewOk, RefsOk, TriedOk, IdsOk, CountsOk;
    CreateUnknownKeeps(c, s, addr, source);
    var t, nTime := Create(c, s, addr, source), U32(Max(0, addr.nTime - penalty));
    RetimedKeeps(c, t, s.nIdCount, nTime);
    assert Created(c, s, addr, source, penalty) == Retimed(t, s.nIdCount, nTime);
  }

  lemma RetimedKeeps(c: Config, s: State, id: int, nTime: nat)
    requires Inv(c, s, {id})
    ensures id in s.mapInfo && Inv(c, Retimed(s, id, nTime), {id})
  {
    hide RandomOk, AddrOk, NewOk, RefsOk, TriedOk, IdsOk, CountsOk;
    OrphanFacts(c, s, {id}, id);
    TouchKeeps(c, s, id, s.mapInfo[id].(nTime := nTime), {id});
  }

  lemma OverwriteKeeps(c: Config, s: State, id: int, b: int, orphans: set<int>)
    requires Inv(c, s, orphans) && id in s.mapInfo && !s.mapInfo[id].fInTried && 0 <= b < NEW_BUCKETS
    requires s.mapInfo[id].nRefCount < NEW_BUCKETS_PER_ADDRESS && orphans <= {id}
    requires s.vvNew[b][c.NewPos(s.mapInfo[id].service, b)] != id
    ensures var t := ClearNew(c, s, b, c.NewPos(s.mapInfo[id].service, b));
            && id in t.mapInfo && Inv(c, FillSlot(c, t, id, b), {})
            && Later(s, FillSlot(c, t, id, b)) && FillSlot(c, t, id, b).collisions == s.collisions
  {
    hide RandomOk, AddrOk, NewOk, RefsOk, IdsOk, CountsOk, TriedOk, ClearNew;
    Shapes(c, s, orphans);
    var p := c.NewPos(s.mapInfo[id].service, b);
    ClearNewKeeps(c, s, b, p, orphans);
    ClearNewFacts(c, s, b, p);
    var t := ClearNew(c, s, b, p);
    assert t.mapInfo[id].(nRandomPos := 0) == s.mapInfo[id].(nRandomPos := 0);
    FillSlotKeeps(c, t, id, b, orphans);
    assert orphans - {id} == {};
    FillLater(c, s, t, id, b);
  }

  lemma FillLater(c: Config, s: State, t: State, id: int, b: int)
    requires c.WellFormed() && Shaped(s.vvTried, TRIED_BUCKETS) && Shaped(t.vvNew, NEW_BUCKETS)
    requires id in t.mapInfo && 0 <= b < NEW_BUCKETS
    requires t.vvTried == s.vvTried && t.nIdCount == s.nIdCount && t.mapInfo.Keys <= s.mapInfo.Keys
    requires forall x :: x in t.mapInfo ==> t.mapInfo[x].service == s.mapInfo[x].service
    ensures Later(s, FillSlot(c, t, id, b))
  {
  }

  lemma DropKeeps(c: Config, s: State, id: int)
    requires Inv(c, s, {id})
    ensures id in s.mapInfo && Inv(c, Delete(c, s, id), {})
    ensures Later(s, Delete(c, s, id)) && Delete(c, s, id).collisions == s.collisions
  {
    hide AddrOk, NewOk, RefsOk, IdsOk, CountsOk;
    Shapes(c, s, {id});
    OrphanFacts(c, s, {id}, id);
    DeleteKeeps(c, s, id, {id});
    DeleteFacts(c, s, id);
    assert {id} - {id} == {};
  }

  lemma SlotIsNoOrphan(c: Config, s: State, id: int, b: int, p: int, orphans: set<int>)
    requires Inv(c, s, orphans) && orphans <= {id} && InTable(b, p, NEW_BUCKETS) && s.vvNew[b][p] == id
    ensures orphans == {}
  {
    hide RandomOk, AddrOk, NewOk, RefsOk, TriedOk, IdsOk, CountsOk;
    ClearNewKeeps(c, s, b, p, orphans);
  }

  lemma UnreferencedIsOrphan(c: Config, s: State, id: int, orphans: set<int>)
    requires c.WellFormed() && NewOk(c, s) && RefsOk(c, s, orphans) && id in s.mapInfo && !s.mapInfo[id].fInTried
    ensures s.mapInfo[id].nRefCount == 0 <==> id in orphans
  {
  }

  lemma PlaceNewKeeps(c: Config, s: State, id: int, b: int, now: int, orphans: set<int>)
    requires Inv(c, s, orphans) && id in s.mapInfo && !s.mapInfo[id].fInTried && 0 <= b < NEW_BUCKETS
    requires s.mapInfo[id].nRefCount < NEW_BUCKETS_PER_ADDRESS && orphans <= {id}
    ensures Inv(c, PlaceNew(c, s, id, b, now), {})
    ensures Later(s, PlaceNew(c, s, id, b, now)) && PlaceNew(c, s, id, b, now).collisions == s.collisions
  {
    var p := c.NewPos(s.mapInfo[id].service, b);
    var x := s.vvNew[b][p];
    FrameLater(c, s, s);
    UnreferencedIsOrphan(c, s, id, orphans);
    if x == id {
      SlotIsNoOrphan(c, s, id, b, p, orphans);
    } else if x == EMPTY || IsTerrible(s.mapInfo[x], now) || (s.mapInfo[x].nRefCount > 1 && s.mapInfo[id].nRefCount == 0) {
      OverwriteKeeps(c, s, id, b, orphans);
    } else if s.mapInfo[id].nRefCount == 0 {
      assert orphans == {id};
      DropKeeps(c, s, id);
    } else {
      assert orphans == {};
    }
  }

  lemma GoodMoveKeeps(c: Config, s: State, id: int, testBeforeEvict: bool)
    requires Inv(c, s, {}) && id in s.mapInfo
    ensures Inv(c, GoodMove(c, s, id, testBeforeEvict), {}) && Later(s, GoodMove(c, s, id, testBeforeEvict))
  {
    hide RandomOk, AddrOk, NewOk, RefsOk, TriedOk, IdsOk, CountsOk;
    Shapes(c, s, {});
    NoteKeeps(c, s, s.(collisions := s.collisions + {id}));
    NoteKeeps(c, s, s);
    if !s.mapInfo[id].fInTried { MakeTriedKeeps(c, s, id); }
  }

  /**
   * Without testing, the entry becomes tried. With testing it does so only over an empty slot; otherwise
   * the tables stay as they are and the id is noted as a collision, if there is room.
   */
  lemma GoodMoveEffect(c: Config, s: State, id: int, testBeforeEvict: bool)
    requires Inv(c, s, {}) && id in s.mapInfo && !s.mapInfo[id].fInTried
    ensures var s' := GoodMove(c, s, id, testBeforeEvict);
            if testBeforeEvict && TriedSlot(c, s, s.mapInfo[id].service) != EMPTY
            then s' == s.(collisions := if |s.collisions| < COLLISION_SIZE then s.collisions + {id} else s.collisions)
            else s'.collisions == s.collisions && id in s'.mapInfo && s'.mapInfo[id].fInTried
  {
    hide RandomOk, AddrOk, NewOk, RefsOk, TriedOk, IdsOk, CountsOk;
    Shapes(c, s, {});
    UntriedIsHeld(c, s, id);
    MakeTriedKeeps(c, s, id);
  }

  lemma GoodKeeps(c: Config, s: State, a: Service, testBeforeEvict: bool, nTime: int)
    requires Inv(c, s, {})
    ensures Inv(c, Good(c, s, a, testBeforeEvict, nTime), {}) && Later(s, Good(c, s, a, testBeforeEvict, nTime))
  {
    hide RandomOk, AddrOk, NewOk, RefsOk, TriedOk, IdsOk, CountsOk;
    var found := FindExact(c, s, a);
    if found.None? {
      NoteKeeps(c, s, s.(nLastGood := nTime));
    } else {
      var t := GoodNoted(s, found.value, nTime);
      NoteKeeps(c, s, t);
      GoodMoveKeeps(c, t, found.value, testBeforeEvict);
      LaterTrans(s, t, Good(c, s, a, testBeforeEvict, nTime));
    }
  }

  lemma GoodCollisions(c: Config, s: State, a: Service, testBeforeEvict: bool, nTime: int)
    requires Inv(c, s, {})
    ensures var s' := Good(c, s, a, testBeforeEvict, nTime);
            var found := FindExact(c, s, a);
            s'.collisions == s.collisions ||
            (testBeforeEvict && found.Some? && TriedSlot(c, s, a) != EMPTY && s'.collisions == s.collisions + {found.value})
  {
    hide RandomOk, AddrOk, NewOk, RefsOk, TriedOk, IdsOk, CountsOk;
    Shapes(c, s, {});
    var found := FindExact(c, s, a);
    if found.Some? {
      var t := GoodNoted(s, found.value, nTime);
      NoteKeeps(c, s, t);
      if !t.mapInfo[found.value].fInTried { GoodMoveEffect(c, t, found.value, testBeforeEvict); }
    }
  }

  lemma AddKnownKeeps(c: Config, s: State, id: int, addr: Address, source: int, penalty: int, now: int, draw: nat)
    requires Inv(c, s, {}) && id in s.mapInfo
    ensures Inv(c, AddKnown(c, s, id, addr, source, penalty, now, draw), {})
    ensures Later(s, AddKnown(c, s, id, addr, source, penalty, now, draw))
    ensures AddKnown(c, s, id, addr, source, penalty, now, draw).collisions == s.collisions
  {
    hide AddrOk, RefsOk, TriedOk, IdsOk, CountsOk;
    Shapes(c, s, {});
    var s' := AddKnown(c, s, id, addr, source, penalty, now, draw);
    var t := Touch(s, id, Refreshed(s.mapInfo[id], addr, penalty, now));
    NoteKeeps(c, s, t);
    if WantsSlot(t.mapInfo[id], addr, draw) {
      PlaceKnownKeeps(c, t, id, c.newBucket(t.mapInfo[id].service, source), now);
      LaterTrans(s, t, s');
    }
  }

  lemma AddUnknownKeeps(c: Config, s: State, addr: Address, source: int, penalty: int, now: int)
    requires Inv(c, s, {}) && FindId(c, s, addr.service).None?
    ensures Inv(c, AddUnknown(c, s, addr, source, penalty, now), {})
    ensures Later(s, AddUnknown(c, s, addr, source, penalty, now))
    ensures AddUnknown(c, s, addr, source, penalty, now).collisions == s.collisions
  {
    hide AddrOk, RefsOk, TriedOk, IdsOk, CountsOk;
    var s', t := AddUnknown(c, s, addr, source, penalty, now), Created(c, s, addr, source, penalty);
    CreatedKeeps(c, s, addr, source, penalty);
    CreatedLater(c, s, addr, source, penalty);
    PlaceOrphanKeeps(c, t, s.nIdCount, c.newBucket(addr.service, source), now);
    assert s' == PlaceNew(c, t, s.nIdCount, c.newBucket(addr.service, source), now);
    LaterTrans(s, t, s');
  }

  lemma AddKeeps(c: Config, s: State, addr: Address, source: int, penalty: int, now: int, draw: nat)
    requires Inv(c, s, {})
    ensures Inv(c, Add(c, s, addr, source, penalty, now, draw), {})
    ensures Later(s, Add(c, s, addr, source, penalty, now, draw))
    ensures Add(c, s, addr, source, penalty, now, draw).collisions == s.collisions
  {
    hide RandomOk, AddrOk, NewOk, RefsOk, TriedOk, IdsOk, CountsOk;
    var penalty' := if addr.service.ip == source then 0 else penalty;
    var found := FindId(c, s, addr.service);
    if !c.isRoutable(addr.service.ip) {
      NoteKeeps(c, s, s);
    } else if found.Some? {
      AddKnownKeeps(c, s, found.value, addr, source, penalty', now, draw);
    } else {
      AddUnknownKeeps(c, s, addr, source, penalty', now);
    }
  }

  lemma PlaceKnownKeeps(c: Config, s: State, id: int, b: int, now: int)
    requires Inv(c, s, {}) && id in s.mapInfo && !s.mapInfo[id].fInTried && 0 <= b < NEW_BUCKETS
    requires s.mapInfo[id].nRefCount != NEW_BUCKETS_PER_ADDRESS
    ensures Inv(c, PlaceNew(c, s, id, b, now), {})
    ensures Later(s, PlaceNew(c, s, id, b, now)) && PlaceNew(c, s, id, b, now).collisions == s.collisions
  {
    PlaceNewKeeps(c, s, id, b, now, {});
  }

  lemma PlaceOrphanKeeps(c: Config, s: State, id: int, b: int, now: int)
    requires Inv(c, s, {id}) && 0 <= b < NEW_BUCKETS
    ensures id in s.mapInfo && Inv(c, PlaceNew(c, s, id, b, now), {})
    ensures Later(s, PlaceNew(c, s, id, b, now)) && PlaceNew(c, s, id, b, now).collisions == s.collisions
  {
    PlaceNewKeeps(c, s, id, b, now, {id});
  }

  // ----- operations on statistics -----

  function Attempt(c: Config, s: State, a: Service, fCountFailure: bool, nTime: int): State {
    var found := FindExact(c, s, a);
    if found.None? then s
    else
      var i := s.mapInfo[found.value].(nLastTry := nTime);
      Touch(s, found.value,
            if fCountFailure && i.nLastCountAttempt < s.nLastGood
            then i.(nLastCountAttempt := nTime, nAttempts := i.nAttempts + 1) else i)
  }

  function Connected(c: Config, s: State, a: Service, nTime: int): State {
    var found := FindExact(c, s, a);
    if found.None? then s
    else
      var i := s.mapInfo[found.value];
      Touch(s, found.value, if nTime - i.nTime > 20 * 60 then i.(nTime := U32(nTime)) else i)
  }

  function SetServices(c: Config, s: State, a: Service, nServices: set<nat>): State {
    var found := FindExact(c, s, a);
    if found.None? then s else Touch(s, found.value, s.mapInfo[found.value].(nServices := nServices))
  }

  // ----- GetAddr_ -----

  /** randrange(size - n) + n, from an arbitrary number `x`. */
  function Draw(n: nat, size: nat, x: nat): (r: nat)
    requires n < size
    ensures n <= r < size
  {
    n + x % (size - n)
  }

  /** One turn of GetAddr_'s loop: the id at `n`, once drawn, is selected unless it is terrible. */
  function SelectOne(s: State, n: nat, now: int, x: nat, acc: seq<int>): (r: (State, seq<int>))
    requires RandomOk(s) && n < |s.vRandom|
    ensures RandomOk(r.0) && |r.0.vRandom| == |s.vRandom|
  {
    SwapRandomOk(s, n, Draw(n, |s.vRandom|, x));
    var t := Swap(s, n, Draw(n, |s.vRandom|, x));
    (t, if IsTerrible(t.mapInfo[t.vRandom[n]], now) then acc else acc + [t.vRandom[n]])
  }

  /** The loop of GetAddr_ from index `n`: the final state, and the ids selected after those in `acc`. */
  function Select(s: State, n: nat, nNodes: nat, now: int, draw: nat -> nat, acc: seq<int>): (State, seq<int>)
    requires RandomOk(s)
    decreases |s.vRandom| - n
  {
    if n >= |s.vRandom| || |acc| >= nNodes then (s, acc)
    else
      var (t, acc') := SelectOne(s, n, now, draw(n), acc);
      Select(t, n + 1, nNodes, now, draw, acc')
  }

  function GetAddrLimit(size: nat): nat {
    var n := GETADDR_MAX_PCT * size / 100;
    if n > GETADDR_MAX then GETADDR_MAX else n
  }

  ghost predicate Selected(s: State, n: nat, now: int, acc: seq<int>) {
    && (forall k, l :: 0 <= k < l < |acc| ==> acc[k] != acc[l])
    && (forall k :: 0 <= k < |acc| ==>
          acc[k] in s.mapInfo && s.mapInfo[acc[k]].nRandomPos < n && !IsTerrible(s.mapInfo[acc[k]], now))
  }

  /** No entry before index `n` that is not terrible has been passed over. */
  ghost predicate NonePassedOver(s: State, n: nat, now: int, acc: seq<int>) {
    forall id :: id in s.mapInfo && s.mapInfo[id].nRandomPos < n && !IsTerrible(s.mapInfo[id], now) ==> id in acc
  }

  /** The records are the same but for their places in vRandom. */
  ghost predicate SameRecords(m: map<int, Info>, m': map<int, Info>) {
    m.Keys == m'.Keys && forall id :: id in m ==> m'[id].(nRandomPos := 0) == m[id].(nRandomPos := 0)
  }

  lemma SelectOneEffect(s: State, n: nat, now: int, x: nat, acc: seq<int>)
    requires RandomOk(s) && n < |s.vRandom| && Selected(s, n, now, acc)
    ensures var (t, acc') := SelectOne(s, n, now, x, acc);
            Selected(t, n + 1, now, acc') && |acc'| <= |acc| + 1
  {
    var r := Draw(n, |s.vRandom|, x);
    SwapRandomOk(s, n, r);
    var t := Swap(s, n, r);
    assert t.mapInfo[t.vRandom[n]].nRandomPos == n;
    forall k | 0 <= k < |acc| ensures acc[k] in t.mapInfo && t.mapInfo[acc[k]] == s.mapInfo[acc[k]] {
      assert acc[k] != s.vRandom[n] && acc[k] != s.vRandom[r];
    }
  }

  lemma SelectOneSame(s: State, n: nat, now: int, x: nat, acc: seq<int>)
    requires RandomOk(s) && n < |s.vRandom|
    ensures SameRecords(s.mapInfo, SelectOne(s, n, now, x, acc).0.mapInfo)
  {
    hide IsTerrible;
    SwapRandomOk(s, n, Draw(n, |s.vRandom|, x));
  }

  lemma SelectOnePassesOverNone(s: State, n: nat, now: int, x: nat, acc: seq<int>)
    requires RandomOk(s) && n < |s.vRandom| && NonePassedOver(s, n, now, acc)
    ensures var (t, acc') := SelectOne(s, n, now, x, acc); NonePassedOver(t, n + 1, now, acc')
  {
    hide IsTerrible;
    var r := Draw(n, |s.vRandom|, x);
    SwapRandomOk(s, n, r);
    var (t, acc') := SelectOne(s, n, now, x, acc);
    forall id | id in t.mapInfo && t.mapInfo[id].nRandomPos < n + 1 && !IsTerrible(t.mapInfo[id], now) ensures id in acc' {
      if t.mapInfo[id].nRandomPos == n {
        assert t.vRandom[n] == id;
        assert acc' == acc + [id];
      } else {
        assert t.vRandom[t.mapInfo[id].nRandomPos] == id;
        assert t.mapInfo[id] == s.mapInfo[id];
        assert id in acc;
      }
    }
  }

  lemma SelectOneKeeps(c: Config, s: State, n: nat, now: int, x: nat, acc: seq<int>)
    requires Inv(c, s, {}) && n < |s.vRandom|
    ensures var t := SelectOne(s, n, now, x, acc).0; Inv(c, t, {}) && Later(s, t) && t.collisions == s.collisions
  {
    hide AddrOk, NewOk, RefsOk, TriedOk, IdsOk, CountsOk;
    SwapKeeps(c, s, n, Draw(n, |s.vRandom|, x), {});
    SwapLater(c, s, n, Draw(n, |s.vRandom|, x));
  }

  /** GetAddr_ only permutes vRandom. */
  lemma {:induction false} SelectKeeps(c: Config, s: State, n: nat, nNodes: nat, now: int, draw: nat -> nat, acc: seq<int>)
    requires Inv(c, s, {})
    ensures var s' := Select(s, n, nNodes, now, draw, acc).0;
            Inv(c, s', {}) && Later(s, s') && s'.collisions == s.collisions
    decreases |s.vRandom| - n
  {
    hide AddrOk, NewOk, RefsOk, TriedOk, IdsOk, CountsOk, Later;
    if n < |s.vRandom| && |acc| < nNodes {
      var (t, acc') := SelectOne(s, n, now, draw(n), acc);
      SelectOneKeeps(c, s, n, now, draw(n), acc);
      SelectKeeps(c, t, n + 1, nNodes, now, draw, acc');
      LaterTrans(s, t, Select(t, n + 1, nNodes, now, draw, acc').0);
      assert Select(s, n, nNodes, now, draw, acc) == Select(t, n + 1, nNodes, now, draw, acc');
    } else {
      NoteKeeps(c, s, s);
    }
  }

  /** GetAddr_ selects distinct entries, none of them terrible, and no more than it may. */
  lemma {:induction false} SelectEffect(s: State, n: nat, nNodes: nat, now: int, draw: nat -> nat, acc: seq<int>)
    requires RandomOk(s) && Selected(s, n, now, acc) && |acc| <= nNodes
    ensures var r := Select(s, n, nNodes, now, draw, acc);
            && Selected(r.0, |r.0.vRandom|, now, r.1) && |r.1| <= nNodes && SameRecords(s.mapInfo, r.0.mapInfo)
            && RandomOk(r.0)
    decreases |s.vRandom| - n
  {
    hide RandomOk, Selected, IsTerrible, SelectOne, Draw, Swap;
    if n < |s.vRandom| && |acc| < nNodes {
      var (t, acc') := SelectOne(s, n, now, draw(n), acc);
      SelectOneEffect(s, n, now, draw(n), acc);
      SelectOneSame(s, n, now, draw(n), acc);
      SelectEffect(t, n + 1, nNodes, now, draw, acc');
      assert Select(s, n, nNodes, now, draw, acc) == Select(t, n + 1, nNodes, now, draw, acc');
    } else {
      SelectedInRange(s, n, now, acc);
    }
  }

  lemma {:induction false} SelectStopsOnlyWhenFull(s: State, n: nat, nNodes: nat, now: int, draw: nat -> nat, acc: seq<int>)
    requires RandomOk(s) && NonePassedOver(s, n, now, acc)
    ensures var r := Select(s, n, nNodes, now, draw, acc);
            |r.1| >= nNodes || NonePassedOver(r.0, |r.0.vRandom|, now, r.1)
    decreases |s.vRandom| - n
  {
    hide RandomOk, IsTerrible, SelectOne, Draw, Swap;
    if n < |s.vRandom| && |acc| < nNodes {
      var (t, acc') := SelectOne(s, n, now, draw(n), acc);
      SelectOnePassesOverNone(s, n, now, draw(n), acc);
      SelectStopsOnlyWhenFull(t, n + 1, nNodes, now, draw, acc');
      assert Select(s, n, nNodes, now, draw, acc) == Select(t, n + 1, nNodes, now, draw, acc');
    }
  }

  /** What GetAddr_ reports, of the records as they were: a full selection, or every one that is not terrible. */
  ghost predicate Picked(m: map<int, Info>, nNodes: nat, now: int, ids: seq<int>) {
    && |ids| <= nNodes
    && (forall k, l :: 0 <= k < l < |ids| ==> ids[k] != ids[l])
    && (forall k :: 0 <= k < |ids| ==> ids[k] in m && !IsTerrible(m[ids[k]], now))
    && (|ids| == nNodes || forall id :: id in m && !IsTerrible(m[id], now) ==> id in ids)
  }

  lemma SelectPicks(s: State, nNodes: nat, now: int, draw: nat -> nat)
    requires RandomOk(s)
    ensures var r := Select(s, 0, nNodes, now, draw, []);
            Picked(s.mapInfo, nNodes, now, r.1) && SameRecords(s.mapInfo, r.0.mapInfo)
  {
    NoneYet(s, now);
    hide RandomOk, IsTerrible, Select;
    SelectEffect(s, 0, nNodes, now, draw, []);
    SelectStopsOnlyWhenFull(s, 0, nNodes, now, draw, []);
    var r := Select(s, 0, nNodes, now, draw, []);
    forall id | id in s.mapInfo ensures IsTerrible(s.mapInfo[id], now) == IsTerrible(r.0.mapInfo[id], now) {
      TerribleAnywhere(s.mapInfo[id], r.0.mapInfo[id], now);
    }
    forall id | id in r.0.mapInfo ensures r.0.mapInfo[id].nRandomPos < |r.0.vRandom| { PositionInRange(r.0, id); }
  }

  lemma NoneYet(s: State, now: int)
    requires RandomOk(s)
    ensures Selected(s, 0, now, []) && NonePassedOver(s, 0, now, [])
  {
    forall id | id in s.mapInfo ensures s.mapInfo[id].nRandomPos >= 0 { PositionInRange(s, id); }
  }

  lemma TerribleAnywhere(i: Info, j: Info, now: int)
    requires i.(nRandomPos := 0) == j.(nRandomPos := 0)
    ensures IsTerrible(i, now) == IsTerrible(j, now)
  {
    assert i.nTime == i.(nRandomPos := 0).nTime == j.nTime && i.nLastTry == i.(nRandomPos := 0).nLastTry == j.nLastTry;
    assert i.nLastSuccess == i.(nRandomPos := 0).nLastSuccess == j.nLastSuccess;
    assert i.nAttempts == i.(nRandomPos := 0).nAttempts == j.nAttempts;
  }

  lemma SelectedInRange(s: State, n: nat, now: int, acc: seq<int>)
    requires RandomOk(s) && Selected(s, n, now, acc)
    ensures Selected(s, |s.vRandom|, now, acc)
  {
    hide IsTerrible;
    forall k | 0 <= k < |acc| ensures acc[k] in s.mapInfo && s.mapInfo[acc[k]].nRandomPos < |s.vRandom| {
      PositionInRange(s, acc[k]);
    }
  }

  lemma PositionInRange(s: State, id: int)
    requires RandomOk(s) && id in s.mapInfo
    ensures 0 <= s.mapInfo[id].nRandomPos < |s.vRandom|
  {
  }

  lemma SwapLater(c: Config, s: State, i: int, j: int)
    requires c.WellFormed() && TriedOk(c, s) && RandomOk(s) && 0 <= i < |s.vRandom| && 0 <= j < |s.vRandom|
    ensures Later(s, Swap(s, i, j)) && Swap(s, i, j).collisions == s.collisions
  {
    SwapRandomOk(s, i, j);
    FrameLater(c, s, Swap(s, i, j));
  }

  // ----- collisions -----

  /** A collision id that is still known has an occupied tried slot; all of them are ids given out before. */
  ghost predicate CollisionsOk(c: Config, s: State)
    requires c.WellFormed() && Shaped(s.vvTried, TRIED_BUCKETS)
  {
    forall id :: id in s.collisions ==>
      0 <= id < s.nIdCount && (id in s.mapInfo ==> TriedSlot(c, s, s.mapInfo[id].service) != EMPTY)
  }

  /** The full invariant between operations. */
  ghost predicate Consistent(c: Config, s: State) {
    Inv(c, s, {}) && CollisionsOk(c, s)
  }

  lemma LaterCollisions(c: Config, s: State, s': State, x: set<int>)
    requires c.WellFormed() && Shaped(s.vvTried, TRIED_BUCKETS) && CollisionsOk(c, s) && Later(s, s')
    requires s'.collisions <= s.collisions + x
    requires forall id :: id in x ==> id in s.mapInfo && 0 <= id < s.nIdCount && TriedSlot(c, s, s.mapInfo[id].service) != EMPTY
    ensures CollisionsOk(c, s')
  {
  }

  lemma GoodConsistent(c: Config, s: State, a: Service, testBeforeEvict: bool, nTime: int)
    requires Consistent(c, s)
    ensures Consistent(c, Good(c, s, a, testBeforeEvict, nTime)) && Later(s, Good(c, s, a, testBeforeEvict, nTime))
  {
    hide RandomOk, AddrOk, NewOk, RefsOk, TriedOk, CountsOk;
    Shapes(c, s, {});
    GoodKeeps(c, s, a, testBeforeEvict, nTime);
    GoodCollisions(c, s, a, testBeforeEvict, nTime);
    var found := FindExact(c, s, a);
    LaterCollisions(c, s, Good(c, s, a, testBeforeEvict, nTime),
                    if found.Some? && TriedSlot(c, s, a) != EMPTY then {found.value} else {});
  }

  function Erase(s: State, id: int): State {
    s.(collisions := s.collisions - {id})
  }

  /** One turn of ResolveCollisions_' loop. */
  ghost function ResolveOne(c: Config, s: State, id: int, now: int): State
    requires Inv(c, s, {})
  {
    if id !in s.mapInfo || !c.isValid(s.mapInfo[id].service.ip) then Erase(s, id)
    else
      var a := s.mapInfo[id].service;
      var old_ := TriedSlot(c, s, a);
      if old_ == EMPTY then Erase(Good(c, s, a, false, now), id)
      else
        var i := s.mapInfo[old_];
        if now - i.nLastSuccess < REPLACEMENT_SECONDS then Erase(s, id)
        else if now - i.nLastTry < REPLACEMENT_SECONDS && now - i.nLastTry > 60 then Erase(Good(c, s, a, false, now), id)
        else s
  }

  lemma EraseKeeps(c: Config, s: State, id: int)
    requires Inv(c, s, {})
    ensures Inv(c, Erase(s, id), {}) && Later(s, Erase(s, id))
  {
    hide RandomOk, AddrOk, NewOk, RefsOk, TriedOk, IdsOk, CountsOk;
    NoteKeeps(c, s, Erase(s, id));
  }

  lemma EraseConsistent(c: Config, s: State, id: int)
    requires Consistent(c, s)
    ensures Consistent(c, Erase(s, id)) && Later(s, Erase(s, id))
  {
    hide RandomOk, AddrOk, NewOk, RefsOk, TriedOk, IdsOk, CountsOk;
    Shapes(c, s, {});
    NoteKeeps(c, s, Erase(s, id));
    LaterCollisions(c, s, Erase(s, id), {});
  }

  lemma GoodErased(c: Config, s: State, a: Service, id: int, now: int)
    requires Consistent(c, s)
    ensures var t := Erase(Good(c, s, a, false, now), id); Consistent(c, t) && Later(s, t) && t.collisions <= s.collisions
  {
    hide RandomOk, AddrOk, NewOk, RefsOk, TriedOk, IdsOk, CountsOk;
    GoodConsistent(c, s, a, false, now);
    GoodCollisions(c, s, a, false, now);
    var t := Good(c, s, a, false, now);
    EraseConsistent(c, t, id);
    LaterTrans(s, t, Erase(t, id));
  }

  lemma ResolveOneKeeps(c: Config, s: State, id: int, now: int)
    requires Consistent(c, s)
    ensures Consistent(c, ResolveOne(c, s, id, now)) && Later(s, ResolveOne(c, s, id, now))
    ensures ResolveOne(c, s, id, now).collisions <= s.collisions
  {
    hide RandomOk, AddrOk, NewOk, RefsOk, IdsOk, CountsOk;
    Shapes(c, s, {});
    var s' := ResolveOne(c, s, id, now);
    if s' == Erase(s, id) {
      EraseConsistent(c, s, id);
    } else if s' == s {
      NoteKeeps(c, s, s);
    } else {
      var a := s.mapInfo[id].service;
      GoodErased(c, s, a, id, now);
      assert s' == Erase(Good(c, s, a, false, now), id);
    }
  }

  ghost function Least(ids: set<int>): (x: int)
    requires ids != {}
    ensures x in ids && forall y :: y in ids ==> x <= y
  {
    LeastExists(ids);
    var x :| x in ids && forall y :: y in ids ==> x <= y;
    x
  }

  lemma {:induction false} LeastExists(ids: set<int>)
    requires ids != {}
    ensures exists x :: x in ids && forall y :: y in ids ==> x <= y
    decreases |ids|
  {
    assert (forall z :: z !in ids) ==> ids == {};
    var z :| z in ids;
    var rest := ids - {z};
    if rest == {} {
      assert forall y :: y in ids ==> y == z || y in rest;
    } else {
      LeastExists(rest);
      var x :| x in rest && forall y :: y in rest ==> x <= y;
      var w := if x < z then x else z;
      forall y | y in ids ensures w <= y {
        assert y == z || y in rest;
      }
    }
  }

  /** ResolveCollisions_, over the ids in `todo` in ascending order. */
  ghost function Resolve(c: Config, s: State, todo: set<int>, now: int): State
    requires Consistent(c, s)
    decreases |todo|
  {
    if todo == {} then s
    else
      var id := Least(todo);
      ResolveOneKeeps(c, s, id, now);
      Resolve(c, ResolveOne(c, s, id, now), todo - {id}, now)
  }

  lemma {:induction false} ResolveKeeps(c: Config, s: State, todo: set<int>, now: int)
    requires Consistent(c, s)
    ensures Consistent(c, Resolve(c, s, todo, now)) && Later(s, Resolve(c, s, todo, now))
    decreases |todo|
  {
    hide RandomOk, AddrOk, NewOk, RefsOk, TriedOk, IdsOk, CountsOk;
    if todo == {} {
      NoteKeeps(c, s, s);
    } else {
      var id := Least(todo);
      ResolveOneKeeps(c, s, id, now);
      var t := ResolveOne(c, s, id, now);
      ResolveKeeps(c, t, todo - {id}, now);
      LaterTrans(s, t, Resolve(c, s, todo, now));
    }
  }

  /** SelectTriedCollision_ for a randomly picked collision: the state after it, and the id whose record it returns. */
  function SelectCollision(c: Config, s: State, id: int): (State, Option<int>)
    requires c.WellFormed() && Shaped(s.vvTried, TRIED_BUCKETS)
  {
    if id !in s.collisions then (s, None)
    else if id !in s.mapInfo then (Erase(s, id), None)
    else (s, Some(TriedSlot(c, s, s.mapInfo[id].service)))
  }

  /** SelectTriedCollision_ always returns an existing tried entry, so it never makes an entry for -1. */
  lemma SelectCollisionFindsTried(c: Config, s: State, id: int)
    requires Consistent(c, s) && id in s.collisions && id in s.mapInfo
    ensures var r := SelectCollision(c, s, id).1;
            r.Some? && r.value != EMPTY && r.value in s.mapInfo && s.mapInfo[r.value].fInTried
  {
  }

  // ----- runs -----

  datatype Op =
    | OpAdd(addr: Address, source: int, penalty: int, now: int, draw: nat)
    | OpGood(a: Service, testBeforeEvict: bool, nTime: int)
    | OpAttempt(a: Service, fCountFailure: bool, nTime: int)
    | OpConnected(a: Service, nTime: int)
    | OpSetServices(a: Service, nServices: set<nat>)
    | OpGetAddr(now: int, draws: nat -> nat)
    | OpResolve(now: int)
    | OpSelectCollision(id: int)

  ghost function Step(c: Config, s: State, op: Op): State
    requires Consistent(c, s)
  {
    match op
    case OpAdd(addr, source, penalty, now, draw) => Add(c, s, addr, source, penalty, now, draw)
    case OpGood(a, test, nTime) => Good(c, s, a, test, nTime)
    case OpAttempt(a, fCountFailure, nTime) => Attempt(c, s, a, fCountFailure, nTime)
    case OpConnected(a, nTime) => Connected(c, s, a, nTime)
    case OpSetServices(a, nServices) => SetServices(c, s, a, nServices)
    case OpGetAddr(now, draws) => Select(s, 0, GetAddrLimit(|s.vRandom|), now, draws, []).0
    case OpResolve(now) => Resolve(c, s, s.collisions, now)
    case OpSelectCollision(id) => SelectCollision(c, s, id).0
  }

  lemma TouchConsistent(c: Config, s: State, id: int, i: Info)
    requires Consistent(c, s) && id in s.mapInfo && SameCore(s.mapInfo[id], i)
    ensures Consistent(c, Touch(s, id, i)) && Later(s, Touch(s, id, i))
  {
    hide RandomOk, AddrOk, NewOk, RefsOk, TriedOk, IdsOk, CountsOk;
    Shapes(c, s, {});
    NoteKeeps(c, s, Touch(s, id, i));
    LaterCollisions(c, s, Touch(s, id, i), {});
  }

  lemma NoteConsistent(c: Config, s: State, op: Op)
    requires Consistent(c, s) && (op.OpAttempt? || op.OpConnected? || op.OpSetServices?)
    ensures Consistent(c, Step(c, s, op)) && Later(s, Step(c, s, op))
  {
    hide RandomOk, AddrOk, NewOk, RefsOk, TriedOk, IdsOk, CountsOk;
    var found := FindExact(c, s, op.a);
    if found.None? {
      NoteKeeps(c, s, s);
    } else {
      TouchConsistent(c, s, found.value, Step(c, s, op).mapInfo[found.value]);
      assert Step(c, s, op) == Touch(s, found.value, Step(c, s, op).mapInfo[found.value]);
    }
  }

  /** Every operation keeps the full invariant, and never empties a tried slot or reuses an id. */
  lemma StepKeeps(c: Config, s: State, op: Op)
    requires Consistent(c, s)
    ensures Consistent(c, Step(c, s, op)) && Later(s, Step(c, s, op))
  {
    hide AddrOk, NewOk, RefsOk, TriedOk, IdsOk, CountsOk;
    Shapes(c, s, {});
    if op.OpAttempt? || op.OpConnected? || op.OpSetServices? {
      NoteConsistent(c, s, op);
    } else if op.OpGood? {
      GoodConsistent(c, s, op.a, op.testBeforeEvict, op.nTime);
    } else if op.OpResolve? {
      ResolveKeeps(c, s, s.collisions, op.now);
    } else {
      if op.OpAdd? { AddKeeps(c, s, op.addr, op.source, op.penalty, op.now, op.draw); }
      if op.OpGetAddr? { SelectKeeps(c, s, 0, GetAddrLimit(|s.vRandom|), op.now, op.draws, []); }
      if op.OpSelectCollision? {
        NoteKeeps(c, s, s);
        EraseKeeps(c, s, op.id);
      }
      LaterCollisions(c, s, Step(c, s, op), {});
    }
  }

  ghost function Run(c: Config, s: State, ops: seq<Op>): State
    requires Consistent(c, s)
    decreases |ops|
  {
    if ops == [] then s
    else
      StepKeeps(c, s, ops[0]);
      Run(c, Step(c, s, ops[0]), ops[1..])
  }

  /** In every run the tables stay consistent, ids are not reused, and an occupied tried slot stays occupied. */
  lemma {:induction false} RunKeeps(c: Config, s: State, ops: seq<Op>)
    requires Consistent(c, s)
    ensures Consistent(c, Run(c, s, ops)) && Later(s, Run(c, s, ops))
    decreases |ops|
  {
    hide RandomOk, AddrOk, NewOk, RefsOk, TriedOk, IdsOk, CountsOk;
    if ops == [] {
      NoteKeeps(c, s, s);
    } else {
      StepKeeps(c, s, ops[0]);
      RunKeeps(c, Step(c, s, ops[0]), ops[1..]);
      LaterTrans(s, Step(c, s, ops[0]), Run(c, s, ops));
    }
  }

  /** From construction on, the condition `Check_` puts on the sizes always holds. */
  lemma RunFromFresh(c: Config, ops: seq<Op>)
    requires c.WellFormed()
    ensures Consistent(c, Fresh()) && Consistent(c, Run(c, Fresh(), ops))
    ensures var s := Run(c, Fresh(), ops); |s.vRandom| == s.nTried + s.nNew == |s.mapInfo|
  {
    FreshOk(c);
    RunKeeps(c, Fresh(), ops);
    SizesAgree(c, Run(c, Fresh(), ops));
  }

  /**
   * In every run from construction, a collision whose record still exists has an occupied tried slot:
   * ResolveCollisions_' "not actually a collision anymore" case cannot happen, and SelectTriedCollision_
   * answers with an existing tried record.
   */
  lemma RunCollisions(c: Config, ops: seq<Op>, id: int)
    requires c.WellFormed()
    ensures Consistent(c, Fresh()) && Consistent(c, Run(c, Fresh(), ops))
    ensures var s := Run(c, Fresh(), ops);
            id in s.collisions && id in s.mapInfo ==>
              var r := TriedSlot(c, s, s.mapInfo[id].service);
              r != EMPTY && r in s.mapInfo && s.mapInfo[r].fInTried && SelectCollision(c, s, id).1 == Some(r)
  {
    hide RandomOk, AddrOk, NewOk, RefsOk, CountsOk;
    RunFromFresh(c, ops);
    var s := Run(c, Fresh(), ops);
    if id in s.collisions && id in s.mapInfo { SelectCollisionFindsTried(c, s, id); }
  }
}
