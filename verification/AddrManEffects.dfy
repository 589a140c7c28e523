/** What each operation of the address manager does to the records and to the slots it is not about, and to those it is. */
module AddrManEffects {
  import opened Common
  import opened Bits
  import opened AddrManState
  import opened AddrMan
  import opened AddrManRuns

  /** A record apart from its place in vRandom. */
  function Body(i: Info): Info { i.(nRandomPos := 0) }

  /** The records outside `except` are the same. */
  ghost predicate OthersSame(m: map<int, Info>, m': map<int, Info>, except: set<int>) {
    forall id :: id !in except ==> (id in m <==> id in m') && (id in m ==> Body(m'[id]) == Body(m[id]))
  }

  lemma OthersTrans(m: map<int, Info>, m1: map<int, Info>, m2: map<int, Info>, x: set<int>, y: set<int>)
    requires OthersSame(m, m1, x) && OthersSame(m1, m2, y)
    ensures OthersSame(m, m2, x + y)
  {
  }

  // ----- IsTerrible -----

  /** Never within a minute of an attempt; otherwise unless seen within thirty days and not failing too often. */
  lemma TerribleExactly(i: Info, now: int)
    ensures IsTerrible(i, now) <==>
            && (i.nLastTry == 0 || now - i.nLastTry > 60)
            && !(&& i.nTime != 0 && now - 2592000 <= i.nTime <= now + 600
                 && (i.nAttempts <= 2 || i.nLastSuccess != 0)
                 && (i.nAttempts <= 9 || now - i.nLastSuccess <= 604800))
  {
  }

  /** A record that is terrible stays so until it is touched, unless its time only lies in the future. */
  lemma TerribleStays(i: Info, now: int, later: int)
    requires IsTerrible(i, now) && now <= later && i.nTime <= now + 600
    ensures IsTerrible(i, later)
  {
  }

  // ----- the new table -----

  /** The record has one slot less, and is gone if that was its last. */
  ghost predicate LostSlot(m: map<int, Info>, m': map<int, Info>, x: int)
    requires x in m
  {
    if m[x].nRefCount == 1 then x !in m' else x in m' && Body(m'[x]) == Body(m[x].(nRefCount := m[x].nRefCount - 1))
  }

  lemma DeleteEffect(c: Config, s: State, id: int)
    requires RandomOk(s) && id in s.mapInfo
    ensures OthersSame(s.mapInfo, Delete(c, s, id).mapInfo, {id}) && id !in Delete(c, s, id).mapInfo
    ensures Delete(c, s, id).vvNew == s.vvNew && Delete(c, s, id).vvTried == s.vvTried
  {
    DeleteFacts(c, s, id);
  }

  lemma ClearNewEffect(c: Config, s: State, b: int, p: int)
    requires RandomOk(s) && NewOk(c, s) && InTable(b, p, NEW_BUCKETS)
    ensures var s', x := ClearNew(c, s, b, p), s.vvNew[b][p];
            && OthersSame(s.mapInfo, s'.mapInfo, {x}) && s'.nLastGood == s.nLastGood
            && (x != EMPTY ==> LostSlot(s.mapInfo, s'.mapInfo, x))
  {
    var x := s.vvNew[b][p];
    if x != EMPTY {
      var t := ClearSlot(s, b, p);
      FrameRandom(s, t);
      if t.mapInfo[x].nRefCount == 0 { DeleteEffect(c, t, x); }
    }
  }

  /** Whether the occupant of a slot gives way: it is terrible, or has other slots and the newcomer has none. */
  ghost predicate Yields(s: State, x: int, newcomer: Info, now: int)
    requires x != EMPTY ==> x in s.mapInfo
  {
    x == EMPTY || IsTerrible(s.mapInfo[x], now) || (newcomer.nRefCount == 0 && s.mapInfo[x].nRefCount > 1)
  }

  /** `id` has taken the slot, and its occupant `x` has lost it. */
  ghost predicate Took(s: State, s': State, id: int, b: int, p: int)
    requires Shaped(s.vvNew, NEW_BUCKETS) && InTable(b, p, NEW_BUCKETS) && id in s.mapInfo
    requires s.vvNew[b][p] != EMPTY ==> s.vvNew[b][p] in s.mapInfo
  {
    var x := s.vvNew[b][p];
    && s'.vvNew == Put(s.vvNew, b, p, id)
    && id in s'.mapInfo && Body(s'.mapInfo[id]) == Body(s.mapInfo[id].(nRefCount := s.mapInfo[id].nRefCount + 1))
    && (x != EMPTY ==> LostSlot(s.mapInfo, s'.mapInfo, x))
    && OthersSame(s.mapInfo, s'.mapInfo, {id, x})
  }

  lemma PlaceNewEffect(c: Config, s: State, id: int, b: int, now: int)
    requires RandomOk(s) && c.WellFormed() && NewOk(c, s) && id in s.mapInfo && id != EMPTY && 0 <= b < NEW_BUCKETS
    ensures var s', p := PlaceNew(c, s, id, b, now), c.NewPos(s.mapInfo[id].service, b);
            var x := s.vvNew[b][p];
            && s'.vvTried == s.vvTried
            && (x == id ==> s' == s)
            && (x != id && Yields(s, x, s.mapInfo[id], now) ==> Took(s, s', id, b, p))
            && (x != id && !Yields(s, x, s.mapInfo[id], now) ==>
                  && s'.vvNew == s.vvNew && OthersSame(s.mapInfo, s'.mapInfo, {id})
                  && (if s.mapInfo[id].nRefCount == 0 then id !in s'.mapInfo else s' == s))
  {
    hide RandomOk, IsTerrible, ClearNew, Delete, Put;
    var p := c.NewPos(s.mapInfo[id].service, b);
    var x := s.vvNew[b][p];
    ClearNewFacts(c, s, b, p);
    ClearNewEffect(c, s, b, p);
    DeleteEffect(c, s, id);
    if x != id && Yields(s, x, s.mapInfo[id], now) {
      var t := ClearNew(c, s, b, p);
      PutOver(s.vvNew, b, p, EMPTY, id);
      assert Body(t.mapInfo[id]) == Body(s.mapInfo[id]);
      TookSlot(c, s, t, id, b, p);
    }
  }

  lemma PutOver(t: Table, b: int, p: int, x: int, y: int)
    requires 0 <= b < |t| && 0 <= p < |t[b]|
    ensures Put(Put(t, b, p, x), b, p, y) == Put(t, b, p, y)
  {
    assert t[b][p := x][p := y] == t[b][p := y];
    assert t[b := t[b][p := x]][b := t[b][p := y]] == t[b := t[b][p := y]];
  }

  lemma TookSlot(c: Config, s: State, t: State, id: int, b: int, p: int)
    requires c.WellFormed() && Shaped(s.vvNew, NEW_BUCKETS) && InTable(b, p, NEW_BUCKETS) && id in s.mapInfo
    requires var x := s.vvNew[b][p];
             && x != id && (x != EMPTY ==> x in s.mapInfo && LostSlot(s.mapInfo, t.mapInfo, x))
             && OthersSame(s.mapInfo, t.mapInfo, {x})
    requires Shaped(t.vvNew, NEW_BUCKETS) && Put(t.vvNew, b, p, id) == Put(s.vvNew, b, p, id)
    requires p == c.NewPos(s.mapInfo[id].service, b) && id in t.mapInfo && Body(t.mapInfo[id]) == Body(s.mapInfo[id])
    ensures Took(s, FillSlot(c, t, id, b), id, b, p)
  {
    hide Put;
    assert t.mapInfo[id].service == Body(t.mapInfo[id]).service;
    assert t.mapInfo[id].nRefCount == Body(t.mapInfo[id]).nRefCount;
  }

  // ----- Add_ -----

  /** An hour for an address that was seen within a day, else a day. */
  function UpdateInterval(addr: Address, now: int): int {
    if now - addr.nTime < 86400 then 3600 else 86400
  }

  /**
   * The time of a known record never goes back; it moves exactly when it has fallen behind the announced time,
   * less the penalty, by more than the update interval. Services are only added, and nothing else changes.
   */
  lemma RefreshedExactly(i: Info, addr: Address, penalty: int, now: int)
    requires 0 <= penalty && addr.nTime < 0x1_0000_0000
    ensures var r := Refreshed(i, addr, penalty, now);
            && r == i.(nTime := r.nTime, nServices := i.nServices + addr.nServices)
            && r.nTime >= i.nTime
            && r.nTime == (if addr.nTime != 0 && (i.nTime == 0 || addr.nTime - penalty - i.nTime > UpdateInterval(addr, now))
                           then if penalty < addr.nTime then addr.nTime - penalty else 0 else i.nTime)
            && (addr.nTime != 0 ==> addr.nTime - penalty - r.nTime <= UpdateInterval(addr, now))
  {
  }

  /** Of 2^n draws in a row exactly one lets a record with n slots have another, if it may have one at all. */
  lemma OneDrawInMany(i: Info, addr: Address, m: nat) returns (d: nat)
    requires !i.fInTried && 0 <= i.nRefCount < 8 && addr.nTime > i.nTime
    ensures m <= d < m + Pow2(i.nRefCount)
    ensures forall e: nat :: m <= e < m + Pow2(i.nRefCount) ==> (WantsSlot(i, addr, e) <==> e == d)
  {
    var n := Pow2(i.nRefCount);
    d := m + if m % n == 0 then 0 else n - m % n;
    forall e: nat | m <= e < m + n ensures WantsSlot(i, addr, e) <==> e == d {
      Remainder(m, n, e - m);
    }
  }

  lemma Remainder(m: nat, n: nat, k: nat)
    requires k < n
    ensures (m + k) % n == if m % n + k < n then m % n + k else m % n + k - n
  {
    var q := m / n;
    assert m == q * n + m % n;
    if m % n + k < n {
      RemainderIs(m + k, n, q);
    } else {
      Products(q, q, n);
      RemainderIs(m + k, n, q + 1);
    }
  }

  lemma RemainderIs(x: nat, n: nat, q: nat)
    requires n > 0 && q * n <= x < q * n + n
    ensures x % n == x - q * n
  {
    var q' := x / n;
    assert x == q' * n + x % n;
    Products(q + 1, q', n);
    Products(q, q', n);
    Products(q' + 1, q, n);
    Products(q', q, n);
    assert q == q';
  }

  lemma NoDraw(i: Info, addr: Address, draw: nat)
    requires i.fInTried || i.nRefCount == 8 || addr.nTime == 0 || (i.nTime != 0 && addr.nTime <= i.nTime)
    ensures !WantsSlot(i, addr, draw)
  {
  }

  /** What Add_ leaves of a known address: a refreshed record, which may have taken one more slot. */
  lemma AddKnownEffect(c: Config, s: State, id: int, addr: Address, source: int, penalty: int, now: int, draw: nat)
    requires Inv(c, s, {}) && id in s.mapInfo
    ensures var s', i := AddKnown(c, s, id, addr, source, penalty, now, draw), Refreshed(s.mapInfo[id], addr, penalty, now);
            var b := c.newBucket(i.service, source);
            var p := c.NewPos(i.service, b);
            var x := s.vvNew[b][p];
            if WantsSlot(i, addr, draw) && x != id && (x == EMPTY || IsTerrible(s.mapInfo[x], now))
            then Took(Touch(s, id, i), s', id, b, p) else s' == Touch(s, id, i)
  {
    hide AddrOk, TriedOk, CountsOk, IsTerrible, RefsOk, PlaceNew, Took;
    var i := Refreshed(s.mapInfo[id], addr, penalty, now);
    var t := Touch(s, id, i);
    NoteKeeps(c, s, t);
    if WantsSlot(i, addr, draw) {
      UnreferencedIsOrphan(c, t, id, {});
      PlaceNewEffect(c, t, id, c.newBucket(i.service, source), now);
    }
  }

  /** The record of a newly added address. */
  function Added(addr: Address, source: int, penalty: int): Info {
    Info(addr.service, addr.nServices, U32(Max(0, addr.nTime - penalty)), source, 0, 0, 0, 0, 1, false, 0)
  }

  /** An unknown address gets a record exactly when the occupant of its slot gives way. */
  lemma AddUnknownEffect(c: Config, s: State, addr: Address, source: int, penalty: int, now: int)
    requires Inv(c, s, {}) && FindId(c, s, addr.service).None?
    ensures var s', id := AddUnknown(c, s, addr, source, penalty, now), s.nIdCount;
            var b := c.newBucket(addr.service, source);
            var p := c.NewPos(addr.service, b);
            var x := s.vvNew[b][p];
            if x == EMPTY || IsTerrible(s.mapInfo[x], now) || s.mapInfo[x].nRefCount > 1
            then
              && s'.vvNew == Put(s.vvNew, b, p, id) && id in s'.mapInfo && Body(s'.mapInfo[id]) == Added(addr, source, penalty)
              && (x != EMPTY ==> LostSlot(s.mapInfo, s'.mapInfo, x)) && OthersSame(s.mapInfo, s'.mapInfo, {id, x})
            else s'.vvNew == s.vvNew && id !in s'.mapInfo && OthersSame(s.mapInfo, s'.mapInfo, {})
  {
    hide AddrOk, TriedOk, CountsOk, IsTerrible, RefsOk, RandomOk, PlaceNew, Put;
    var id, t := s.nIdCount, Created(c, s, addr, source, penalty);
    CreatedKeeps(c, s, addr, source, penalty);
    var b := c.newBucket(addr.service, source);
    var p := c.NewPos(addr.service, b);
    OrphanFacts(c, t, {id}, id);
    if t.vvNew[b][p] != EMPTY { NewSlotFacts(c, t, {id}, b, p); }
    PlaceNewEffect(c, t, id, b, now);
  }

  /** Add_ never removes a record that is not terrible. */
  lemma AddDropsOnlyTerrible(c: Config, s: State, addr: Address, source: int, penalty: int, now: int, draw: nat, y: int)
    requires Inv(c, s, {}) && y in s.mapInfo && y !in Add(c, s, addr, source, penalty, now, draw).mapInfo
    ensures IsTerrible(s.mapInfo[y], now) && s.mapInfo[y].nRefCount == 1
  {
    hide AddrOk, TriedOk, CountsOk, IsTerrible, RefsOk, RandomOk, AddKnown, AddUnknown, Refreshed, Put;
    var penalty' := if addr.service.ip == source then 0 else penalty;
    var found := FindId(c, s, addr.service);
    if found.Some? {
      AddKnownEffect(c, s, found.value, addr, source, penalty', now, draw);
    } else {
      AddUnknownEffect(c, s, addr, source, penalty', now);
    }
  }

  /** After Add_, an address is known if it was, or if it is routable and the occupant of its slot gave way. */
  lemma AddKnowsExactly(c: Config, s: State, addr: Address, source: int, penalty: int, now: int, draw: nat)
    requires Inv(c, s, {})
    ensures var b := c.newBucket(addr.service, source);
            var x := s.vvNew[b][c.NewPos(addr.service, b)];
            FindId(c, Add(c, s, addr, source, penalty, now, draw), addr.service).Some? <==>
            || FindId(c, s, addr.service).Some?
            || (c.isRoutable(addr.service.ip) && (x == EMPTY || IsTerrible(s.mapInfo[x], now) || s.mapInfo[x].nRefCount > 1))
  {
    hide TriedOk, CountsOk, IsTerrible, RefsOk, RandomOk, NewOk, AddKnown, AddUnknown, Refreshed, Put;
    Shapes(c, s, {});
    AddKeeps(c, s, addr, source, penalty, now, draw);
    var s', found := Add(c, s, addr, source, penalty, now, draw), FindId(c, s, addr.service);
    var penalty' := if addr.service.ip == source then 0 else penalty;
    if c.isRoutable(addr.service.ip) {
      if found.Some? {
        AddKnownEffect(c, s, found.value, addr, source, penalty', now, draw);
        StillKnown(c, s, s', addr.service, found.value);
      } else {
        AddUnknownEffect(c, s, addr, source, penalty', now);
        var b := c.newBucket(addr.service, source);
        var p := c.NewPos(addr.service, b);
        if s.vvNew[b][p] != EMPTY { NewSlotFacts(c, s, {}, b, p); }
        Shapes(c, s', {});
        NowKnown(c, s, s', addr.service);
      }
    }
  }

  /** The record of an address that Add_ has come to know: a node that announces itself suffers no penalty. */
  lemma AddRecords(c: Config, s: State, addr: Address, source: int, penalty: int, now: int, draw: nat, id: int)
    requires Inv(c, s, {}) && id !in s.mapInfo && id in Add(c, s, addr, source, penalty, now, draw).mapInfo
    ensures id == s.nIdCount && c.isRoutable(addr.service.ip) && FindId(c, s, addr.service).None?
    ensures Body(Add(c, s, addr, source, penalty, now, draw).mapInfo[id]) ==
            Added(addr, source, if addr.service.ip == source then 0 else penalty)
  {
    hide AddrOk, TriedOk, CountsOk, IsTerrible, RefsOk, RandomOk, AddKnown, AddUnknown, Refreshed, Put;
    Shapes(c, s, {});
    AddKeeps(c, s, addr, source, penalty, now, draw);
    Shapes(c, Add(c, s, addr, source, penalty, now, draw), {});
    var penalty' := if addr.service.ip == source then 0 else penalty;
    var found := FindId(c, s, addr.service);
    if found.Some? {
      AddKnownEffect(c, s, found.value, addr, source, penalty', now, draw);
    } else {
      AddUnknownEffect(c, s, addr, source, penalty', now);
    }
  }

  /** The record of an address that Add_ knew, but for its number of slots, which grows by at most one. */
  lemma AddRefreshes(c: Config, s: State, addr: Address, source: int, penalty: int, now: int, draw: nat, id: int)
    requires Inv(c, s, {}) && c.isRoutable(addr.service.ip) && FindId(c, s, addr.service) == Some(id)
    ensures var i, s' := s.mapInfo[id], Add(c, s, addr, source, penalty, now, draw);
            && id in s'.mapInfo
            && Body(s'.mapInfo[id].(nRefCount := i.nRefCount)) ==
               Body(Refreshed(i, addr, if addr.service.ip == source then 0 else penalty, now))
            && i.nRefCount <= s'.mapInfo[id].nRefCount <= i.nRefCount + 1
  {
    hide AddrOk, TriedOk, CountsOk, IsTerrible, RefsOk, RandomOk, AddKnown, Put, WantsSlot;
    AddKnownEffect(c, s, id, addr, source, if addr.service.ip == source then 0 else penalty, now, draw);
    var s' := Add(c, s, addr, source, penalty, now, draw);
    assert s'.mapInfo[id].nRefCount == Body(s'.mapInfo[id]).nRefCount;
    assert Body(s'.mapInfo[id].(nRefCount := s.mapInfo[id].nRefCount)) == Body(s'.mapInfo[id]).(nRefCount := s.mapInfo[id].nRefCount);
  }

  lemma StillKnown(c: Config, s: State, s': State, a: Service, id: int)
    requires AddrOk(c, s) && AddrOk(c, s') && FindId(c, s, a) == Some(id)
    requires id in s'.mapInfo && s'.mapInfo[id].service == s.mapInfo[id].service
    ensures FindId(c, s', a) == Some(id)
  {
  }

  lemma NowKnown(c: Config, s: State, s': State, a: Service)
    requires AddrOk(c, s) && AddrOk(c, s') && IdsOk(s) && FindId(c, s, a).None?
    requires s.nIdCount in s'.mapInfo ==> s'.mapInfo[s.nIdCount].service == a
    requires forall id :: id in s'.mapInfo && id != s.nIdCount ==> id in s.mapInfo && s'.mapInfo[id].service == s.mapInfo[id].service
    ensures FindId(c, s', a).Some? <==> s.nIdCount in s'.mapInfo
  {
  }

  // ----- the tried table -----

  /** The occupant of the slot of the new table that a tried record goes home to. */
  ghost function HomeOccupant(c: Config, m: map<int, Info>, vvNew: Table, e: int): int
    requires c.WellFormed() && Shaped(vvNew, NEW_BUCKETS) && e in m
  {
    var hb := c.newBucket(m[e].service, m[e].source);
    vvNew[hb][c.NewPos(m[e].service, hb)]
  }

  /** The evicted record has gone home, and the occupant of its slot there has lost it. */
  ghost predicate WentHome(c: Config, m: map<int, Info>, vvNew: Table, s': State, e: int)
    requires c.WellFormed() && Shaped(vvNew, NEW_BUCKETS) && e in m
  {
    var hb := c.newBucket(m[e].service, m[e].source);
    var y := HomeOccupant(c, m, vvNew, e);
    && s'.vvNew == Put(vvNew, hb, c.NewPos(m[e].service, hb), e)
    && e in s'.mapInfo && Body(s'.mapInfo[e]) == Body(m[e].(fInTried := false, nRefCount := 1))
    && (y != EMPTY ==> y in m && !m[y].fInTried && LostSlot(m, s'.mapInfo, y))
  }

  lemma EvictEffect(c: Config, s: State, b: int, p: int, orphans: set<int>)
    requires Inv(c, s, orphans) && InTable(b, p, TRIED_BUCKETS) && s.vvTried[b][p] != EMPTY
    ensures var e, s' := s.vvTried[b][p], Evict(c, s, b, p, orphans);
            && e in s.mapInfo && WentHome(c, s.mapInfo, s.vvNew, s', e) && s'.nLastGood == s.nLastGood
            && OthersSame(s.mapInfo, s'.mapInfo, {e, HomeOccupant(c, s.mapInfo, s.vvNew, e)})
            && HomeOccupant(c, s.mapInfo, s.vvNew, e) !in orphans
  {
    hide AddrOk, RefsOk, TriedOk, IdsOk, CountsOk, RandomOk, ClearNew, Put;
    Shapes(c, s, orphans);
    TriedSlotFacts(c, s, orphans, b, p);
    UntryKeeps(c, s, b, p, orphans);
    EvictRoomKeeps(c, s, b, p, orphans);
    var e, u, v := s.vvTried[b][p], Untry(s, b, p), EvictRoom(c, s, b, p);
    var hb := HomeBucket(c, s, e);
    var hp := c.NewPos(s.mapInfo[e].service, hb);
    if s.vvNew[hb][hp] != EMPTY { NewSlotFacts(c, s, orphans, hb, hp); }
    ClearNewFacts(c, u, hb, hp);
    ClearNewEffect(c, u, hb, hp);
    PutOver(s.vvNew, hb, hp, EMPTY, e);
    assert Body(v.mapInfo[e]) == Body(u.mapInfo[e]);
    assert v.mapInfo[e].nRefCount == Body(v.mapInfo[e]).nRefCount == 0;
  }

  /** What MakeTried does: `id` leaves the new table for its tried slot, and the record there goes home. */
  lemma MakeTriedEffect(c: Config, s: State, id: int)
    requires Inv(c, s, {}) && id in s.mapInfo && !s.mapInfo[id].fInTried
    ensures var s', a := MakeTried(c, s, id), s.mapInfo[id].service;
            var left, old_ := Without(c, s.vvNew, a, id), TriedSlot(c, s, a);
            && s'.vvTried == Put(s.vvTried, c.triedBucket(a), c.TriedPos(a), id) && s'.nLastGood == s.nLastGood
            && id in s'.mapInfo && Body(s'.mapInfo[id]) == Body(s.mapInfo[id].(nRefCount := 0, fInTried := true))
            && (old_ == EMPTY ==> s'.vvNew == left && OthersSame(s.mapInfo, s'.mapInfo, {id}))
            && (old_ != EMPTY ==>
                  && old_ in s.mapInfo && WentHome(c, s.mapInfo, left, s', old_)
                  && OthersSame(s.mapInfo, s'.mapInfo, {id, old_, HomeOccupant(c, s.mapInfo, left, old_)}))
  {
    hide RandomOk, AddrOk, NewOk, TriedOk, IdsOk, CountsOk, Put, Evict, Without;
    Shapes(c, s, {});
    UnslotKeeps(c, s, id, {});
    assert {} + {id} == {id};
    var t := Unslot(c, s, id);
    OrphanFacts(c, t, {id}, id);
    RoomForKeeps(c, t, id);
    var a := s.mapInfo[id].service;
    var b, p := c.triedBucket(a), c.TriedPos(a);
    PutOver(s.vvTried, b, p, EMPTY, id);
    if s.vvTried[b][p] != EMPTY {
      TriedSlotFacts(c, s, {}, b, p);
      EvictEffect(c, t, b, p, {id});
    }
  }

  /** The record after a successful connection. */
  function Succeeded(i: Info, nTime: int): Info { i.(nLastSuccess := nTime, nLastTry := nTime, nAttempts := 0) }

  /**
   * Good_ notes the success of the record it finds. An untried one becomes tried, unless testing is asked for and
   * its tried slot is taken; then it is noted as a collision, if there are fewer than ten.
   */
  lemma GoodEffect(c: Config, s: State, a: Service, testBeforeEvict: bool, nTime: int)
    requires Inv(c, s, {})
    ensures var s', found := Good(c, s, a, testBeforeEvict, nTime), FindExact(c, s, a);
            && s'.nLastGood == nTime
            && (found.None? ==> s' == s.(nLastGood := nTime))
            && (found.Some? ==>
                  var id, i := found.value, s.mapInfo[found.value];
                  var collides := !i.fInTried && testBeforeEvict && TriedSlot(c, s, a) != EMPTY && |s.collisions| < 10;
                  s'.collisions == (if collides then s.collisions + {id} else s.collisions) &&
                  if i.fInTried || (testBeforeEvict && TriedSlot(c, s, a) != EMPTY)
                  then s' == Touch(s, id, Succeeded(i, nTime)).(nLastGood := nTime, collisions := s'.collisions)
                  else id in s'.mapInfo && Body(s'.mapInfo[id]) == Body(Succeeded(i, nTime).(nRefCount := 0, fInTried := true)))
  {
    hide RandomOk, AddrOk, NewOk, RefsOk, TriedOk, IdsOk, CountsOk, MakeTried;
    Shapes(c, s, {});
    var found := FindExact(c, s, a);
    if found.Some? {
      var t := GoodNoted(s, found.value, nTime);
      NoteKeeps(c, s, t);
      if !t.mapInfo[found.value].fInTried {
        UntriedIsHeld(c, t, found.value);
        MakeTriedEffect(c, t, found.value);
        MakeTriedKeeps(c, t, found.value);
      }
    }
  }

  /** A tried record that Good_ is not about and whose slot it does not take stays where and as it is. */
  lemma GoodSparesOthers(c: Config, s: State, a: Service, testBeforeEvict: bool, nTime: int, b: int, p: int)
    requires Inv(c, s, {}) && InTable(b, p, TRIED_BUCKETS) && s.vvTried[b][p] != EMPTY
    requires b != c.triedBucket(a) || p != c.TriedPos(a)
    ensures Spared(s, Good(c, s, a, testBeforeEvict, nTime), b, p)
  {
    hide RandomOk, AddrOk, NewOk, RefsOk, TriedOk, IdsOk, CountsOk, MakeTried, Put;
    Shapes(c, s, {});
    var found := FindExact(c, s, a);
    TriedSlotFacts(c, s, {}, b, p);
    if found.Some? {
      var t, id := GoodNoted(s, found.value, nTime), found.value;
      NoteKeeps(c, s, t);
      if !t.mapInfo[id].fInTried {
        UntriedIsHeld(c, t, id);
        MakeTriedEffect(c, t, id);
        if TriedSlot(c, t, a) != EMPTY { TriedSlotFacts(c, t, {}, c.triedBucket(a), c.TriedPos(a)); }
      }
    }
  }

  /** The tried slot still holds the same record, unchanged. */
  ghost predicate Spared(s: State, s': State, b: int, p: int)
    requires InTable(b, p, TRIED_BUCKETS) && Shaped(s.vvTried, TRIED_BUCKETS)
  {
    var e := s.vvTried[b][p];
    Shaped(s'.vvTried, TRIED_BUCKETS) && s'.vvTried[b][p] == e && e in s.mapInfo && e in s'.mapInfo && Body(s'.mapInfo[e]) == Body(s.mapInfo[e])
  }

  // ----- ResolveCollisions_ -----

  /** No success for four hours, and an attempt within them that is more than a minute old. */
  predicate Failing(i: Info, now: int) {
    now - i.nLastSuccess >= 14400 && 60 < now - i.nLastTry < 14400
  }

  /** A collision that cannot be resolved by testing, or whose tried record is not failing, moves nothing. */
  lemma ResolveWaits(c: Config, s: State, id: int, now: int)
    requires Consistent(c, s) && id in s.collisions
    ensures var s' := ResolveOne(c, s, id, now);
            if id !in s.mapInfo || !c.isValid(s.mapInfo[id].service.ip) then s' == s.(collisions := s.collisions - {id})
            else
              var e := TriedSlot(c, s, s.mapInfo[id].service);
              && e in s.mapInfo
              && (!Failing(s.mapInfo[e], now) ==>
                    s' == s.(collisions := if now - s.mapInfo[e].nLastSuccess < 14400 then s.collisions - {id} else s.collisions))
  {
    hide RandomOk, AddrOk, NewOk, RefsOk, TriedOk, IdsOk, CountsOk, Good;
    Shapes(c, s, {});
    if id in s.mapInfo {
      var a := s.mapInfo[id].service;
      TriedSlotFacts(c, s, {}, c.triedBucket(a), c.TriedPos(a));
    }
  }

  /** The challenger of a failing record takes its slot, the failing record goes back to the new table, and the collision is settled. */
  lemma ResolveSwaps(c: Config, s: State, id: int, now: int)
    requires Consistent(c, s) && id in s.collisions && id in s.mapInfo && c.isValid(s.mapInfo[id].service.ip)
    requires TriedSlot(c, s, s.mapInfo[id].service) in s.mapInfo && Failing(s.mapInfo[TriedSlot(c, s, s.mapInfo[id].service)], now)
    ensures var a, s' := s.mapInfo[id].service, ResolveOne(c, s, id, now);
            var e := TriedSlot(c, s, a);
            && Shaped(s'.vvTried, TRIED_BUCKETS) && id !in s'.collisions
            && TriedSlot(c, s', a) == id && id in s'.mapInfo && s'.mapInfo[id].fInTried && s'.mapInfo[id].nLastSuccess == now
            && (e != id ==> e in s'.mapInfo && !s'.mapInfo[e].fInTried && s'.mapInfo[e].nRefCount == 1)
  {
    hide RandomOk, NewOk, RefsOk, TriedOk, CountsOk, Good;
    FindsItself(c, s, id);
    GoodSwaps(c, s, id, now);
    assert ResolveOne(c, s, id, now) == Erase(Good(c, s, s.mapInfo[id].service, false, now), id);
  }

  lemma FindsItself(c: Config, s: State, id: int)
    requires AddrOk(c, s) && id in s.mapInfo
    ensures FindExact(c, s, s.mapInfo[id].service) == Some(id)
  {
  }

  /** Good_ without testing: the record is tried, and one that was in its slot is back in the new table. */
  lemma GoodSwaps(c: Config, s: State, id: int, now: int)
    requires Inv(c, s, {}) && id in s.mapInfo && FindExact(c, s, s.mapInfo[id].service) == Some(id)
    ensures var a := s.mapInfo[id].service;
            var s', e := Good(c, s, a, false, now), TriedSlot(c, s, a);
            && Shaped(s'.vvTried, TRIED_BUCKETS)
            && TriedSlot(c, s', a) == id && id in s'.mapInfo && s'.mapInfo[id].fInTried && s'.mapInfo[id].nLastSuccess == now
            && (e != EMPTY && e != id ==> e in s'.mapInfo && !s'.mapInfo[e].fInTried && s'.mapInfo[e].nRefCount == 1)
  {
    hide RandomOk, AddrOk, NewOk, RefsOk, IdsOk, CountsOk, MakeTried, Put;
    Shapes(c, s, {});
    var t := GoodNoted(s, id, now);
    NoteKeeps(c, s, t);
    if !t.mapInfo[id].fInTried {
      UntriedIsHeld(c, t, id);
      MakeTriedKeeps(c, t, id);
      MakeTriedEffect(c, t, id);
      Noted(s.mapInfo[id], now, MakeTried(c, t, id).mapInfo[id]);
    }
  }

  lemma Noted(i: Info, now: int, j: Info)
    requires Body(j) == Body(Succeeded(i, now).(nRefCount := 0, fInTried := true))
    ensures j.nLastSuccess == now
  {
    assert j.nLastSuccess == Body(j).nLastSuccess;
  }

  lemma ResolveOneSpares(c: Config, s: State, id: int, now: int, b: int, p: int)
    requires Consistent(c, s) && InTable(b, p, TRIED_BUCKETS) && s.vvTried[b][p] != EMPTY
    ensures s.vvTried[b][p] in s.mapInfo
    ensures Failing(s.mapInfo[s.vvTried[b][p]], now) || Spared(s, ResolveOne(c, s, id, now), b, p)
  {
    hide RandomOk, AddrOk, NewOk, RefsOk, IdsOk, CountsOk, Good;
    Shapes(c, s, {});
    TriedSlotFacts(c, s, {}, b, p);
    if id in s.mapInfo {
      var a := s.mapInfo[id].service;
      if b != c.triedBucket(a) || p != c.TriedPos(a) { GoodSparesOthers(c, s, a, false, now, b, p); }
    }
  }

  /** ResolveCollisions_ leaves every tried record that is not failing where and as it is. */
  lemma {:induction false} ResolveSpares(c: Config, s: State, todo: set<int>, now: int, b: int, p: int)
    requires Consistent(c, s) && InTable(b, p, TRIED_BUCKETS) && s.vvTried[b][p] != EMPTY
    ensures s.vvTried[b][p] in s.mapInfo
    ensures Failing(s.mapInfo[s.vvTried[b][p]], now) || Spared(s, Resolve(c, s, todo, now), b, p)
    decreases |todo|
  {
    hide RandomOk, AddrOk, NewOk, RefsOk, TriedOk, IdsOk, CountsOk, ResolveOne;
    Shapes(c, s, {});
    TriedSlotFacts(c, s, {}, b, p);
    if todo != {} {
      var id := Least(todo);
      ResolveOneKeeps(c, s, id, now);
      ResolveOneSpares(c, s, id, now, b, p);
      var t, e := ResolveOne(c, s, id, now), s.vvTried[b][p];
      if !Failing(s.mapInfo[e], now) {
        ResolveSpares(c, t, todo - {id}, now, b, p);
        assert t.mapInfo[e].nLastSuccess == Body(t.mapInfo[e]).nLastSuccess == s.mapInfo[e].nLastSuccess;
        assert t.mapInfo[e].nLastTry == Body(t.mapInfo[e]).nLastTry == s.mapInfo[e].nLastTry;
      }
    }
  }

  /**
   * Test before evict: in every step but a Good_ that asks for no test, a tried record keeps its slot unless
   * the step resolves collisions and the record is failing.
   */
  lemma TestBeforeEvict(c: Config, s: State, op: Op, b: int, p: int)
    requires Consistent(c, s) && InTable(b, p, TRIED_BUCKETS) && s.vvTried[b][p] != EMPTY
    requires !(op.OpGood? && !op.testBeforeEvict)
    ensures s.vvTried[b][p] in s.mapInfo
    ensures var s' := Step(c, s, op);
            && Shaped(s'.vvTried, TRIED_BUCKETS)
            && (s'.vvTried[b][p] == s.vvTried[b][p] || (op.OpResolve? && Failing(s.mapInfo[s.vvTried[b][p]], op.now)))
  {
    hide AddrOk, NewOk, RefsOk, TriedOk, IdsOk, CountsOk, Good, Add, Resolve;
    Shapes(c, s, {});
    TriedSlotFacts(c, s, {}, b, p);
    if op.OpResolve? {
      ResolveKeeps(c, s, s.collisions, op.now);
      ResolveSpares(c, s, s.collisions, op.now, b, p);
    } else if op.OpGood? {
      GoodEffect(c, s, op.a, true, op.nTime);
      GoodKeepsSlot(c, s, op.a, op.nTime, b, p);
    } else if op.OpAdd? {
      AddTried(c, s, op.addr, op.source, op.penalty, op.now, op.draw);
    } else if op.OpGetAddr? {
      SelectTried(s, 0, GetAddrLimit(|s.vRandom|), op.now, op.draws, []);
    }
  }

  /** With testing, Good_ displaces no tried record. */
  lemma GoodKeepsSlot(c: Config, s: State, a: Service, nTime: int, b: int, p: int)
    requires Inv(c, s, {}) && InTable(b, p, TRIED_BUCKETS) && s.vvTried[b][p] != EMPTY
    ensures var s' := Good(c, s, a, true, nTime); Shaped(s'.vvTried, TRIED_BUCKETS) && s'.vvTried[b][p] == s.vvTried[b][p]
  {
    hide RandomOk, AddrOk, NewOk, RefsOk, TriedOk, IdsOk, CountsOk, Good;
    Shapes(c, s, {});
    GoodEffect(c, s, a, true, nTime);
    if b != c.triedBucket(a) || p != c.TriedPos(a) { GoodSparesOthers(c, s, a, true, nTime, b, p); }
  }

  lemma AddTried(c: Config, s: State, addr: Address, source: int, penalty: int, now: int, draw: nat)
    requires Inv(c, s, {})
    ensures Add(c, s, addr, source, penalty, now, draw).vvTried == s.vvTried
  {
    hide AddrOk, RefsOk, TriedOk, CountsOk, PlaceNew;
    var penalty := if addr.service.ip == source then 0 else penalty;
    var found := FindId(c, s, addr.service);
    if c.isRoutable(addr.service.ip) && found.Some? {
      var t := Touch(s, found.value, Refreshed(s.mapInfo[found.value], addr, penalty, now));
      NoteKeeps(c, s, t);
      PlaceNewEffect(c, t, found.value, c.newBucket(t.mapInfo[found.value].service, source), now);
    } else if c.isRoutable(addr.service.ip) {
      CreatedKeeps(c, s, addr, source, penalty);
      PlaceNewEffect(c, Created(c, s, addr, source, penalty), s.nIdCount, c.newBucket(addr.service, source), now);
    }
  }

  lemma {:induction false} SelectTried(s: State, n: nat, nNodes: nat, now: int, draw: nat -> nat, acc: seq<int>)
    requires RandomOk(s)
    ensures Select(s, n, nNodes, now, draw, acc).0.vvTried == s.vvTried
    decreases |s.vRandom| - n
  {
    hide RandomOk, IsTerrible;
    if n < |s.vRandom| && |acc| < nNodes {
      var (t, acc') := SelectOne(s, n, now, draw(n), acc);
      SelectTried(t, n + 1, nNodes, now, draw, acc');
    }
  }

  // ----- statistics -----

  /** A failure is counted at most once between two successes of the node with any peer. */
  lemma CountedOnce(c: Config, s: State, a: Service, nTime: int, later: int)
    requires s.nLastGood <= nTime && FindExact(c, s, a).Some?
    ensures var id := FindExact(c, s, a).value;
            var t := Attempt(c, s, a, true, nTime);
            var u := Attempt(c, t, a, true, later);
            && t.mapInfo[id].nAttempts == s.mapInfo[id].nAttempts + (if s.mapInfo[id].nLastCountAttempt < s.nLastGood then 1 else 0)
            && u.mapInfo[id] == t.mapInfo[id].(nLastTry := later)
            && Attempt(c, s, a, false, nTime).mapInfo[id] == s.mapInfo[id].(nLastTry := nTime)
            && (forall x :: x in s.mapInfo && x != id ==> u.mapInfo[x] == t.mapInfo[x] == s.mapInfo[x])
  {
  }

  /** Connected_ moves the time of the record it finds only after twenty minutes, and SetServices_ its services only. */
  lemma NotesOne(c: Config, s: State, a: Service, nTime: int, nServices: set<nat>)
    requires 0 <= nTime < 0x1_0000_0000 && FindExact(c, s, a).Some?
    ensures var id := FindExact(c, s, a).value;
            var i := s.mapInfo[id];
            && Connected(c, s, a, nTime) == s.(mapInfo := s.mapInfo[id := i.(nTime := if nTime > i.nTime + 1200 then nTime else i.nTime)])
            && SetServices(c, s, a, nServices) == s.(mapInfo := s.mapInfo[id := i.(nServices := nServices)])
  {
  }

  /** Find answers with the record of the address, ports apart unless they are told apart; the other operations want the port too. */
  lemma FindExactly(c: Config, s: State, a: Service, id: int)
    requires AddrOk(c, s)
    ensures FindId(c, s, a) == Some(id) <==>
            id in s.mapInfo && s.mapInfo[id].service.ip == a.ip && (c.discriminatePorts ==> s.mapInfo[id].service.port == a.port)
    ensures FindExact(c, s, a) == Some(id) <==> id in s.mapInfo && s.mapInfo[id].service == a
  {
  }
}
