/** The operations of the address manager (src/addrman.cpp) as transitions, and what every run of them keeps. */
module AddrMan {
  import opened AddrManState

  const HORIZON_SECONDS := 30 * 24 * 60 * 60
  const RETRIES := 3
  const MAX_FAILURES := 10
  const MIN_FAIL_SECONDS := 7 * 24 * 60 * 60
  const REPLACEMENT_SECONDS := 4 * 60 * 60
  const COLLISION_SIZE := 10
  const GETADDR_MAX_PCT := 23
  const GETADDR_MAX := 2500

  predicate IsTerrible(i: Info, now: int) {
    if i.nLastTry != 0 && i.nLastTry >= now - 60 then false
    else
      || i.nTime > now + 10 * 60
      || i.nTime == 0 || now - i.nTime > HORIZON_SECONDS
      || (i.nLastSuccess == 0 && i.nAttempts >= RETRIES)
      || (now - i.nLastSuccess > MIN_FAIL_SECONDS && i.nAttempts >= MAX_FAILURES)
  }

  // ----- what the operations do to entries they are not about -----

  /** Apart from `except`, entries keep everything but their place in vRandom; none is added. */
  ghost predicate Undisturbed(m: map<int, Info>, m': map<int, Info>, except: set<int>) {
    && m'.Keys <= m.Keys
    && (forall id :: id in m && id !in except ==> id in m' && m'[id].(nRandomPos := 0) == m[id].(nRandomPos := 0))
    && (forall id :: id in m' ==> m'[id].service == m[id].service)
  }

  /** Ids are never reused, an id keeps its address, and an occupied tried slot never becomes empty. */
  ghost predicate Later(s: State, s': State) {
    && s.nIdCount <= s'.nIdCount
    && (forall id :: id in s'.mapInfo && id < s.nIdCount ==>
          id in s.mapInfo && s'.mapInfo[id].service == s.mapInfo[id].service)
    && Shaped(s.vvTried, TRIED_BUCKETS) && Shaped(s'.vvTried, TRIED_BUCKETS)
    && (forall b, p :: InTable(b, p, TRIED_BUCKETS) && s.vvTried[b][p] != EMPTY ==> s'.vvTried[b][p] != EMPTY)
  }

  lemma LaterTrans(s: State, t: State, u: State)
    requires Later(s, t) && Later(t, u)
    ensures Later(s, u)
  {
  }

  // ----- ClearNew -----

  ghost function ClearNew(c: Config, s: State, b: int, p: int): State
    requires RandomOk(s) && NewOk(c, s) && InTable(b, p, NEW_BUCKETS)
  {
    var id := s.vvNew[b][p];
    if id == EMPTY then s
    else
      var t := ClearSlot(s, b, p);
      FrameRandom(s, t);
      if t.mapInfo[id].nRefCount == 0 then Delete(c, t, id) else t
  }

  lemma DeleteFacts(c: Config, s: State, id: int)
    requires RandomOk(s) && id in s.mapInfo
    ensures Undisturbed(s.mapInfo, Delete(c, s, id).mapInfo, {id}) && id !in Delete(c, s, id).mapInfo
  {
  }

  lemma ClearNewKeeps(c: Config, s: State, b: int, p: int, orphans: set<int>)
    requires Inv(c, s, orphans) && InTable(b, p, NEW_BUCKETS)
    ensures Inv(c, ClearNew(c, s, b, p), orphans)
    ensures s.vvNew[b][p] !in orphans
  {
    hide AddrOk, RefsOk, TriedOk, IdsOk, CountsOk;
    Shapes(c, s, orphans);
    if s.vvNew[b][p] != EMPTY { NewSlotFacts(c, s, orphans, b, p); }
    if s.vvNew[b][p] != EMPTY {
      ClearSlotKeeps(c, s, b, p, orphans);
      ClearSlotNew(c, s, b, p, orphans);
      if s.mapInfo[s.vvNew[b][p]].nRefCount == 1 {
        DeleteKeeps(c, ClearSlot(s, b, p), s.vvNew[b][p], orphans + {s.vvNew[b][p]});
        assert orphans + {s.vvNew[b][p]} - {s.vvNew[b][p]} == orphans;
      }
    }
  }

  lemma ClearNewFacts(c: Config, s: State, b: int, p: int)
    requires RandomOk(s) && NewOk(c, s) && InTable(b, p, NEW_BUCKETS)
    ensures var s' := ClearNew(c, s, b, p);
            && s'.vvNew == Put(s.vvNew, b, p, EMPTY)
            && s'.vvTried == s.vvTried && s'.nIdCount == s.nIdCount && s'.collisions == s.collisions
            && Undisturbed(s.mapInfo, s'.mapInfo, {s.vvNew[b][p]})
  {
    var id := s.vvNew[b][p];
    if id == EMPTY {
      assert s.vvNew[b][p := EMPTY] == s.vvNew[b] && s.vvNew[b := s.vvNew[b]] == s.vvNew;
    } else {
      var t := ClearSlot(s, b, p);
      FrameRandom(s, t);
      if t.mapInfo[id].nRefCount == 0 { DeleteFacts(c, t, id); }
    }
  }

  // ----- MakeTried -----

  /** The new bucket that an entry returns to when it is evicted from the tried table. */
  function HomeBucket(c: Config, s: State, id: int): int
    requires id in s.mapInfo
  {
    c.newBucket(s.mapInfo[id].service, s.mapInfo[id].source)
  }

  /** The entry in a tried slot is taken out of it, and its place in the new table is cleared. */
  ghost function EvictRoom(c: Config, s: State, b: int, p: int): State
    requires c.WellFormed() && TriedOk(c, s) && InTable(b, p, TRIED_BUCKETS) && s.vvTried[b][p] != EMPTY
    requires RandomOk(Untry(s, b, p)) && NewOk(c, Untry(s, b, p))
  {
    var id := s.vvTried[b][p];
    ClearNew(c, Untry(s, b, p), HomeBucket(c, s, id), c.NewPos(s.mapInfo[id].service, HomeBucket(c, s, id)))
  }

  lemma EvictRoomKeeps(c: Config, s: State, b: int, p: int, orphans: set<int>)
    requires Inv(c, s, orphans) && InTable(b, p, TRIED_BUCKETS) && s.vvTried[b][p] != EMPTY
    requires Inv(c, Untry(s, b, p), orphans + {s.vvTried[b][p]})
    ensures var id := s.vvTried[b][p];
            var np := c.NewPos(s.mapInfo[id].service, HomeBucket(c, s, id));
            var t := EvictRoom(c, s, b, p);
            && Inv(c, t, orphans + {id}) && id in t.mapInfo && id !in orphans
            && t.mapInfo[id].service == s.mapInfo[id].service
            && InTable(HomeBucket(c, s, id), np, NEW_BUCKETS) && t.vvNew[HomeBucket(c, s, id)][np] == EMPTY
            && t.vvTried == Put(s.vvTried, b, p, EMPTY)
            && t.nIdCount == s.nIdCount && t.collisions == s.collisions
            && t.mapInfo.Keys <= s.mapInfo.Keys
            && (forall x :: x in t.mapInfo ==> t.mapInfo[x].service == s.mapInfo[x].service)
            && (forall x :: x in orphans ==> x in t.mapInfo)
  {
    hide AddrOk, TriedOk, IdsOk, CountsOk;
    Shapes(c, s, orphans);
    TriedSlotFacts(c, s, orphans, b, p);
    var id, u := s.vvTried[b][p], Untry(s, b, p);
    var np := c.NewPos(s.mapInfo[id].service, HomeBucket(c, s, id));
    ClearNewKeeps(c, u, HomeBucket(c, s, id), np, orphans + {id});
    ClearNewFacts(c, u, HomeBucket(c, s, id), np);
  }

  /** Move the entry in an occupied tried slot back to the new table, over whatever is in its place there. */
  ghost function Evict(c: Config, s: State, b: int, p: int, orphans: set<int>): State
    requires Inv(c, s, orphans) && InTable(b, p, TRIED_BUCKETS) && s.vvTried[b][p] != EMPTY
  {
    UntryKeeps(c, s, b, p, orphans);
    EvictRoomKeeps(c, s, b, p, orphans);
    FillSlot(c, EvictRoom(c, s, b, p), s.vvTried[b][p], HomeBucket(c, s, s.vvTried[b][p]))
  }

  lemma EvictKeeps(c: Config, s: State, b: int, p: int, orphans: set<int>)
    requires Inv(c, s, orphans) && InTable(b, p, TRIED_BUCKETS) && s.vvTried[b][p] != EMPTY
    ensures var id := s.vvTried[b][p];
            var s' := Evict(c, s, b, p, orphans);
            && Inv(c, s', orphans)
            && s'.vvTried == Put(s.vvTried, b, p, EMPTY)
            && s'.nIdCount == s.nIdCount && s'.collisions == s.collisions
            && s'.mapInfo.Keys <= s.mapInfo.Keys
            && (forall x :: x in s'.mapInfo ==> s'.mapInfo[x].service == s.mapInfo[x].service)
            && (forall x :: x in orphans ==> x in s'.mapInfo)
            && id in s'.mapInfo && !s'.mapInfo[id].fInTried && s'.mapInfo[id].nRefCount == 1
  {
    hide RandomOk, AddrOk, NewOk, RefsOk, TriedOk, IdsOk, CountsOk, EvictRoom, Untry, HomeBucket;
    Shapes(c, s, orphans);
    TriedSlotFacts(c, s, orphans, b, p);
    UntryKeeps(c, s, b, p, orphans);
    EvictRoomKeeps(c, s, b, p, orphans);
    var id := s.vvTried[b][p];
    FillEvicted(c, EvictRoom(c, s, b, p), id, HomeBucket(c, s, id), orphans);
  }

  lemma FillEvicted(c: Config, t: State, id: int, nb: int, orphans: set<int>)
    requires Inv(c, t, orphans + {id}) && id !in orphans && 0 <= nb < NEW_BUCKETS
    requires t.vvNew[nb][c.NewPos(t.mapInfo[id].service, nb)] == EMPTY
    ensures Inv(c, FillSlot(c, t, id, nb), orphans)
    ensures FillSlot(c, t, id, nb).mapInfo[id].nRefCount == 1 && !FillSlot(c, t, id, nb).mapInfo[id].fInTried
    ensures FillSlot(c, t, id, nb).mapInfo.Keys == t.mapInfo.Keys
  {
    hide RandomOk, AddrOk, NewOk, RefsOk, TriedOk, IdsOk, CountsOk;
    OrphanFacts(c, t, orphans + {id}, id);
    FillSlotKeeps(c, t, id, nb, orphans + {id});
    assert orphans + {id} - {id} == orphans;
  }

  /** Make the tried slot of the orphan `id` empty. */
  ghost function RoomFor(c: Config, s: State, id: int): State
    requires Inv(c, s, {id})
  {
    var b, p := c.triedBucket(s.mapInfo[id].service), c.TriedPos(s.mapInfo[id].service);
    if s.vvTried[b][p] == EMPTY then s else Evict(c, s, b, p, {id})
  }

  lemma RoomForKeeps(c: Config, s: State, id: int)
    requires Inv(c, s, {id})
    ensures var s' := RoomFor(c, s, id);
            && Inv(c, s', {id})
            && s'.vvTried == Put(s.vvTried, c.triedBucket(s.mapInfo[id].service), c.TriedPos(s.mapInfo[id].service), EMPTY)
            && s'.nIdCount == s.nIdCount && s'.collisions == s.collisions
            && s'.mapInfo.Keys <= s.mapInfo.Keys
            && (forall x :: x in s'.mapInfo ==> s'.mapInfo[x].service == s.mapInfo[x].service)
            && id in s'.mapInfo
    ensures var old_ := TriedSlot(c, s, s.mapInfo[id].service);
            old_ != EMPTY ==>
              var s' := RoomFor(c, s, id);
              old_ in s'.mapInfo && !s'.mapInfo[old_].fInTried && s'.mapInfo[old_].nRefCount == 1
  {
    var b, p := c.triedBucket(s.mapInfo[id].service), c.TriedPos(s.mapInfo[id].service);
    if s.vvTried[b][p] == EMPTY {
      assert s.vvTried[b][p := EMPTY] == s.vvTried[b] && s.vvTried[b := s.vvTried[b]] == s.vvTried;
    } else {
      EvictKeeps(c, s, b, p, {id});
    }
  }

  ghost function MakeTried(c: Config, s: State, id: int): State
    requires Inv(c, s, {}) && id in s.mapInfo && !s.mapInfo[id].fInTried
  {
    UnslotKeeps(c, s, id, {});
    assert {} + {id} == {id};
    RoomForKeeps(c, Unslot(c, s, id), id);
    EnterTried(c, RoomFor(c, Unslot(c, s, id), id), id)
  }

  lemma EnterTriedLater(c: Config, s: State, u: State, id: int)
    requires c.WellFormed() && Shaped(s.vvTried, TRIED_BUCKETS) && id in s.mapInfo && id in u.mapInfo && id != EMPTY
    requires u.vvTried == Put(s.vvTried, c.triedBucket(s.mapInfo[id].service), c.TriedPos(s.mapInfo[id].service), EMPTY)
    requires u.nIdCount == s.nIdCount && u.mapInfo.Keys <= s.mapInfo.Keys
    requires forall x :: x in u.mapInfo ==> u.mapInfo[x].service == s.mapInfo[x].service
    ensures Later(s, EnterTried(c, u, id))
  {
  }

  /** What MakeTried does once `id` has no slot in the new table. */
  lemma EnterKeeps(c: Config, t: State, id: int)
    requires Inv(c, t, {id})
    ensures var u := RoomFor(c, t, id);
            id in u.mapInfo && Inv(c, EnterTried(c, u, id), {}) && Later(t, EnterTried(c, u, id))
    ensures EnterTried(c, RoomFor(c, t, id), id).collisions == t.collisions
    ensures var s' := EnterTried(c, RoomFor(c, t, id), id);
            id in s'.mapInfo && s'.mapInfo[id].fInTried && TriedSlot(c, s', t.mapInfo[id].service) == id
    ensures var evicted := TriedSlot(c, t, t.mapInfo[id].service);
            evicted != EMPTY ==>
              var s' := EnterTried(c, RoomFor(c, t, id), id);
              evicted in s'.mapInfo && !s'.mapInfo[evicted].fInTried && s'.mapInfo[evicted].nRefCount == 1
  {
    RoomForKeeps(c, t, id);
    var u := RoomFor(c, t, id);
    assert TriedSlot(c, u, u.mapInfo[id].service) == EMPTY;
    EnterTriedKeeps(c, u, id, {id});
    assert {id} - {id} == {};
    EnterTriedLater(c, t, u, id);
  }

  lemma UnslotLater(c: Config, s: State, id: int)
    requires c.WellFormed() && Shaped(s.vvNew, NEW_BUCKETS) && Shaped(s.vvTried, TRIED_BUCKETS) && id in s.mapInfo
    ensures Later(s, Unslot(c, s, id)) && Unslot(c, s, id).mapInfo[id].service == s.mapInfo[id].service
  {
  }

  /** The entry ends up tried, in its own slot; the one that was there is back in the new table. */
  lemma MakeTriedKeeps(c: Config, s: State, id: int)
    requires Inv(c, s, {}) && id in s.mapInfo && !s.mapInfo[id].fInTried
    ensures Inv(c, MakeTried(c, s, id), {}) && Later(s, MakeTried(c, s, id))
    ensures MakeTried(c, s, id).collisions == s.collisions
    ensures var s' := MakeTried(c, s, id);
            id in s'.mapInfo && s'.mapInfo[id].fInTried && TriedSlot(c, s', s.mapInfo[id].service) == id
    ensures var evicted := TriedSlot(c, s, s.mapInfo[id].service);
            evicted != EMPTY ==>
              var s' := MakeTried(c, s, id);
              evicted in s'.mapInfo && !s'.mapInfo[evicted].fInTried && s'.mapInfo[evicted].nRefCount == 1
  {
    hide RandomOk, AddrOk, NewOk, RefsOk, TriedOk, IdsOk, CountsOk;
    Shapes(c, s, {});
    UnslotKeeps(c, s, id, {});
    assert {} + {id} == {id};
    var t := Unslot(c, s, id);
    UnslotLater(c, s, id);
    EnterKeeps(c, t, id);
    LaterTrans(s, t, MakeTried(c, s, id));
  }
}
