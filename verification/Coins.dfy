/**
 * The layered set of unspent transaction outputs (src/coins.h, src/coins.cpp), as values.
 *
 * A view is a database or a write-back cache over another view. `Lookup` says what a view
 * shows; the functions below are the effect of the cache's operations on the whole stack.
 */
module Coins {
  import opened Common

  datatype OutPoint = OutPoint(hash: nat, n: nat)

  datatype TxOut = TxOut(nValue: int, scriptPubKey: seq<nat>)

  datatype Coin = Coin(out: TxOut, fCoinBase: bool, nHeight: nat, nType: nat, vExtraPayload: seq<nat>) {
    predicate IsSpent() { out.nValue == -1 }
  }

  /** What Coin::Clear leaves behind, and the value of a default-constructed coin. */
  const EMPTY_COIN := Coin(TxOut(-1, []), false, 0, 0, [])

  const OP_RETURN := 0x6a
  const MAX_SCRIPT_SIZE := 10000

  predicate IsUnspendable(script: seq<nat>) {
    (|script| > 0 && script[0] == OP_RETURN) || |script| > MAX_SCRIPT_SIZE
  }

  datatype Entry = Entry(coin: Coin, isDirty: bool, isFresh: bool)

  type CoinsMap = map<OutPoint, Entry>

  /** A database may hold spent coins; reading one reports success (as the test suite's base view does). */
  datatype View = Database(coins: map<OutPoint, Coin>) | Cache(entries: CoinsMap, base: View)

  /** The plain meaning of a set of unspent outputs. */
  type Utxos = map<OutPoint, Coin>

  function Unspent(c: Coin): Option<Coin> {
    if c.IsSpent() then None else Some(c)
  }

  function Find<K, V>(m: map<K, V>, k: K): Option<V> {
    if k in m then Some(m[k]) else None
  }

  /** The coin that a view shows at an outpoint; None when it is absent or spent. */
  function Lookup(v: View, o: OutPoint): Option<Coin> {
    match v
    case Database(coins) => if o in coins then Unspent(coins[o]) else None
    case Cache(entries, base) => if o in entries then Unspent(entries[o].coin) else Lookup(base, o)
  }

  // ----- the documented invariant -----

  /** The five flag states that src/coins.h lists as valid. */
  predicate FlagsOk(e: Entry) {
    if e.coin.IsSpent() then e.isDirty != e.isFresh else e.isFresh ==> e.isDirty
  }

  /** An entry is in a documented state; if not DIRTY it agrees with the base, if FRESH the base lacks the coin. */
  predicate EntryOk(e: Entry, below: Option<Coin>) {
    && FlagsOk(e)
    && (!e.isDirty ==> below == Unspent(e.coin))
    && (e.isFresh ==> below == None)
  }

  ghost predicate Valid(v: View) {
    v.Cache? ==>
      && Valid(v.base)
      && forall o :: o in v.entries ==> EntryOk(v.entries[o], Lookup(v.base, o))
  }

  /** Two stacks of the same height show the same coins at every level. */
  ghost predicate SameViews(v: View, w: View) {
    && v.Database? == w.Database?
    && (forall o :: Lookup(v, o) == Lookup(w, o))
    && (v.Cache? ==> SameViews(v.base, w.base))
  }

  lemma {:induction false} SameViewsRefl(v: View)
    ensures SameViews(v, v)
  {
    if v.Cache? { SameViewsRefl(v.base); }
  }

  lemma {:induction false} SameViewsTrans(u: View, v: View, w: View)
    requires SameViews(u, v) && SameViews(v, w)
    ensures SameViews(u, w)
  {
    if u.Cache? { SameViewsTrans(u.base, v.base, w.base); }
  }

  /** A base may be exchanged for an indistinguishable one under a cache. */
  lemma RebaseKeeps(entries: CoinsMap, b: View, b': View)
    requires Valid(Cache(entries, b)) && Valid(b') && SameViews(b, b')
    ensures Valid(Cache(entries, b')) && SameViews(Cache(entries, b), Cache(entries, b'))
  {
    forall o ensures Lookup(Cache(entries, b), o) == Lookup(Cache(entries, b'), o) {
      assert Lookup(b, o) == Lookup(b', o);
    }
  }

  // ----- reads -----

  /** GetCoin on any view: the stack afterwards, and the coin reported as found. */
  function Get(v: View, o: OutPoint): (View, Option<Coin>)
    decreases v, 1
  {
    match v
    case Database(coins) => (v, Find(coins, o))
    case Cache(_, _) =>
      var w := Fetch(v, o);
      (w, if o in w.entries then Unspent(w.entries[o].coin) else None)
  }

  /** FetchCoin: the base is consulted, and its answer is kept in this cache. */
  function Fetch(v: View, o: OutPoint): (w: View)
    requires v.Cache?
    ensures w.Cache?
    decreases v, 0
  {
    if o in v.entries then v
    else
      var (b, c) := Get(v.base, o);
      if c.None? then Cache(v.entries, b)
      else Cache(v.entries[o := Entry(c.value, false, c.value.IsSpent())], b)
  }

  /** Uncache: forget an entry that carries no flags. */
  function Uncache(v: View, o: OutPoint): (w: View)
    requires v.Cache?
  {
    if o in v.entries && !v.entries[o].isDirty && !v.entries[o].isFresh
    then Cache(v.entries - {o}, v.base) else v
  }

  lemma {:induction false} GetKeeps(v: View, o: OutPoint)
    requires Valid(v)
    ensures Valid(Get(v, o).0) && SameViews(v, Get(v, o).0)
    ensures v.Cache? ==> Get(v, o).1 == Lookup(v, o)
    ensures v.Database? ==> Lookup(v, o) == if Get(v, o).1.Some? then Unspent(Get(v, o).1.value) else None
    decreases v, 1
  {
    if v.Cache? { FetchKeeps(v, o); } else { SameViewsRefl(v); }
  }

  /** Reading through a stack fills caches at every level, yet no level's view changes. */
  lemma {:induction false} FetchKeeps(v: View, o: OutPoint)
    requires v.Cache? && Valid(v)
    ensures Valid(Fetch(v, o)) && SameViews(v, Fetch(v, o))
    ensures Lookup(v, o) ==
            if o in Fetch(v, o).entries then Unspent(Fetch(v, o).entries[o].coin) else None
    decreases v, 0
  {
    if o in v.entries {
      SameViewsRefl(v);
    } else {
      GetKeeps(v.base, o);
      RebaseKeeps(v.entries, v.base, Get(v.base, o).0);
      var mid := Cache(v.entries, Get(v.base, o).0);
      assert SameViews(v, mid);
      forall p ensures Lookup(mid, p) == Lookup(Fetch(v, o), p) {
      }
    }
  }

  lemma UncacheKeeps(v: View, o: OutPoint)
    requires v.Cache? && Valid(v)
    ensures Valid(Uncache(v, o)) && SameViews(v, Uncache(v, o))
  {
    SameViewsRefl(v.base);
  }

  /** A coin that is shown from below is cached without flags, and Uncache undoes just that. */
  lemma FetchFills(v: View, o: OutPoint)
    requires v.Cache? && Valid(v) && o !in v.entries && Lookup(v, o).Some?
    ensures Fetch(v, o).entries == v.entries[o := Entry(Lookup(v, o).value, false, false)]
    ensures Uncache(Fetch(v, o), o).entries == v.entries
  {
    GetKeeps(v.base, o);
    FetchKeeps(v, o);
  }

  /** Uncache never drops an entry with a flag. */
  lemma UncacheExactly(v: View, o: OutPoint, p: OutPoint)
    requires v.Cache? && p in v.entries
    ensures p !in Uncache(v, o).entries <==> p == o && !v.entries[o].isDirty && !v.entries[o].isFresh
    ensures p in Uncache(v, o).entries ==> Uncache(v, o).entries[p] == v.entries[p]
  {
  }

  // ----- writes -----

  datatype AddResult = Added(view: View) | Threw

  /** AddCoin after its assertion that the coin is unspent; Threw is the logic_error. */
  function Add(v: View, o: OutPoint, c: Coin, possibleOverwrite: bool): AddResult
    requires v.Cache?
  {
    if IsUnspendable(c.out.scriptPubKey) then Added(v)
    else
      var e := if o in v.entries then v.entries[o] else Entry(EMPTY_COIN, false, false);
      if !possibleOverwrite && !e.coin.IsSpent() then Threw
      else
        var asFresh := !possibleOverwrite && !e.isDirty;
        Added(Cache(v.entries[o := Entry(c, true, e.isFresh || asFresh)], v.base))
  }

  /** SpendCoin: a FRESH coin is deleted outright, any other is cleared and marked DIRTY. */
  function Spend(v: View, o: OutPoint): (w: View)
    requires v.Cache?
    ensures w.Cache?
  {
    var f := Fetch(v, o);
    if o !in f.entries then f
    else if f.entries[o].isFresh then Cache(f.entries - {o}, f.base)
    else Cache(f.entries[o := Entry(EMPTY_COIN, true, false)], f.base)
  }

  /**
   * AddCoin keeps the invariant exactly when it does not promise a new coin over one that only the
   * base holds; that is what the caller must check, and the cache itself cannot see it.
   */
  lemma AddKeepsExactlyWhen(v: View, o: OutPoint, c: Coin, possibleOverwrite: bool)
    requires v.Cache? && Valid(v) && !c.IsSpent()
    ensures Add(v, o, c, possibleOverwrite).Threw? <==>
            !IsUnspendable(c.out.scriptPubKey) && !possibleOverwrite && o in v.entries && Lookup(v, o).Some?
    ensures Add(v, o, c, possibleOverwrite).Added? ==>
              (Valid(Add(v, o, c, possibleOverwrite).view) <==>
               IsUnspendable(c.out.scriptPubKey) || possibleOverwrite || Lookup(v, o).None?)
  {
    var r := Add(v, o, c, possibleOverwrite);
    if r.Added? && !IsUnspendable(c.out.scriptPubKey) {
      if possibleOverwrite || Lookup(v, o).None? {
        assert Valid(r.view);
      } else {
        assert !EntryOk(r.view.entries[o], Lookup(v.base, o));
      }
    }
  }

  /**
   * Adding over a coin that only the base holds, without announcing an overwrite, is not noticed:
   * the entry is marked FRESH, the next spend drops it, and the old coin is back.
   */
  lemma UnannouncedOverwriteResurrects(o: OutPoint, held: Coin, c: Coin)
    requires !held.IsSpent() && !c.IsSpent() && !IsUnspendable(c.out.scriptPubKey)
    ensures var v := Cache(map[], Database(map[o := held]));
            var r := Add(v, o, c, false);
            Valid(v) && r.Added? && !Valid(r.view) &&
            Lookup(r.view, o) == Some(c) && Lookup(Spend(r.view, o), o) == Some(held)
  {
    var v := Cache(map[], Database(map[o := held]));
    AddKeepsExactlyWhen(v, o, c, false);
  }

  lemma AddRefines(v: View, o: OutPoint, c: Coin, possibleOverwrite: bool)
    requires v.Cache? && Valid(v) && !c.IsSpent()
    requires possibleOverwrite || Lookup(v, o).None?
    ensures var r := Add(v, o, c, possibleOverwrite);
            && r.Added? && r.view.Cache? && r.view.base == v.base && Valid(r.view)
            && forall p :: Lookup(r.view, p) ==
                 if p == o && !IsUnspendable(c.out.scriptPubKey) then Some(c) else Lookup(v, p)
  {
    AddKeepsExactlyWhen(v, o, c, possibleOverwrite);
  }

  lemma SpendRefines(v: View, o: OutPoint)
    requires v.Cache? && Valid(v)
    ensures Valid(Spend(v, o)) && SameViews(v.base, Spend(v, o).base)
    ensures forall p :: Lookup(Spend(v, o), p) == if p == o then None else Lookup(v, p)
  {
    FetchKeeps(v, o);
    var f := Fetch(v, o);
    forall p ensures Lookup(Spend(v, o), p) == if p == o then None else Lookup(v, p) {
      assert Lookup(f, p) == Lookup(v, p);
    }
  }

  /** A spent coin leaves an entry exactly when the base may have the coin; the entry is then changed, spent and not FRESH. */
  lemma SpendPrunes(v: View, o: OutPoint)
    requires v.Cache? && Valid(v) && Lookup(v, o).Some?
    ensures o in Spend(v, o).entries <==> !(o in v.entries && v.entries[o].isFresh)
    ensures o in Spend(v, o).entries ==> Spend(v, o).entries[o] == Entry(EMPTY_COIN, true, false)
  {
    FetchKeeps(v, o);
    if o !in v.entries { FetchFills(v, o); }
  }

  /**
   * When SpendCoin reports success: it has found an entry. That is wider than "an unspent coin was
   * shown": a spent entry of this cache counts, and so does a spent coin of a database right below.
   */
  predicate SpendReports(v: View, o: OutPoint)
    requires v.Cache?
  {
    Lookup(v, o).Some? || o in v.entries || (v.base.Database? && o in v.base.coins)
  }

  lemma SpendReportsExactlyWhen(v: View, o: OutPoint)
    requires v.Cache? && Valid(v)
    ensures o in Fetch(v, o).entries <==> SpendReports(v, o)
  {
    FetchKeeps(v, o);
    GetKeeps(v.base, o);
  }

  /** A coin that was just spent: nothing is shown, and the next spend reports success all the same. */
  lemma SpentTwiceReports(o: OutPoint, c: Coin)
    requires !c.IsSpent()
    ensures var v := Cache(map[], Database(map[o := c]));
            var w := Spend(v, o);
            Valid(v) && Valid(w) && Lookup(w, o).None? && SpendReports(w, o) && o in Fetch(w, o).entries
  {
    var v := Cache(map[], Database(map[o := c]));
    SpendRefines(v, o);
    SpendReportsExactlyWhen(Spend(v, o), o);
  }

  // ----- flushing -----

  datatype Merged = Keep(entry: Option<Entry>) | Misapplied

  /** What CCoinsViewCache::BatchWrite does with one child entry and its own entry for the same outpoint. */
  function Merge(child: Entry, ours: Option<Entry>): Merged {
    if !child.isDirty then Keep(ours)
    else match ours
      case None =>
        if child.isFresh && child.coin.IsSpent() then Keep(None)
        else Keep(Some(Entry(child.coin, true, child.isFresh)))
      case Some(us) =>
        if child.isFresh && !us.coin.IsSpent() then Misapplied
        else if us.isFresh && child.coin.IsSpent() then Keep(None)
        else Keep(Some(Entry(child.coin, true, us.isFresh)))
  }

  ghost predicate MergeThrows(child: CoinsMap, ours: CoinsMap) {
    exists o :: o in child && Merge(child[o], Find(ours, o)).Misapplied?
  }

  /** The entry a parent holds at `o` once the outpoints in `done` have been merged. */
  function MergedAt(child: CoinsMap, ours: CoinsMap, done: set<OutPoint>, o: OutPoint): Option<Entry> {
    if o in done && o in child && Merge(child[o], Find(ours, o)).Keep?
    then Merge(child[o], Find(ours, o)).entry
    else Find(ours, o)
  }

  function MergeAll(child: CoinsMap, ours: CoinsMap): CoinsMap {
    map o | o in child.Keys + ours.Keys && MergedAt(child, ours, child.Keys, o).Some?
      :: MergedAt(child, ours, child.Keys, o).value
  }

  /** CCoinsViewDB::BatchWrite: spent coins are erased, unspent ones written, clean entries skipped. */
  function Store(child: CoinsMap, coins: map<OutPoint, Coin>): map<OutPoint, Coin> {
    map o | o in child.Keys + coins.Keys &&
            if o in child && child[o].isDirty then !child[o].coin.IsSpent() else o in coins
      :: if o in child && child[o].isDirty then child[o].coin else coins[o]
  }

  /** Flush pushes every entry into the base and empties this cache. */
  function FlushBase(v: View): View
    requires v.Cache?
  {
    match v.base
    case Database(coins) => Database(Store(v.entries, coins))
    case Cache(ours, base) => Cache(MergeAll(v.entries, ours), base)
  }

  /** Over a valid stack the "FRESH flag misapplied" exception cannot happen. */
  lemma FlushNeverThrows(v: View)
    requires v.Cache? && Valid(v) && v.base.Cache?
    ensures !MergeThrows(v.entries, v.base.entries)
  {
    forall o | o in v.entries ensures Merge(v.entries[o], Find(v.base.entries, o)).Keep? {
      assert EntryOk(v.entries[o], Lookup(v.base, o));
    }
  }

  /** One merged entry is again valid, now against the grandparent, and shows what the child showed. */
  lemma MergeEntryOk(child: Entry, ours: Option<Entry>, below: Option<Coin>)
    requires ours.Some? ==> EntryOk(ours.value, below)
    requires EntryOk(child, if ours.Some? then Unspent(ours.value.coin) else below)
    ensures Merge(child, ours).Keep?
    ensures var e := Merge(child, ours).entry;
            && (e.Some? ==> EntryOk(e.value, below))
            && (if e.Some? then Unspent(e.value.coin) else below) == Unspent(child.coin)
  {
  }

  /** Whether the base below the parent is known not to have the coin. */
  predicate NotBelow(child: Entry, ours: Option<Entry>) {
    if ours.Some? then ours.value.isFresh else child.isFresh
  }

  /** A changed entry is merged as it is, FRESH when the base below is known to lack it; a spent one is then dropped. */
  lemma MergePrunes(child: Entry, ours: Option<Entry>)
    requires child.isDirty && Merge(child, ours).Keep?
    ensures Merge(child, ours).entry ==
            if NotBelow(child, ours) && child.coin.IsSpent() then None else Some(Entry(child.coin, true, NotBelow(child, ours)))
  {
  }

  /** After a flush the parent shows exactly what the child showed, and is valid over the grandparent. */
  lemma FlushRefines(v: View)
    requires v.Cache? && Valid(v)
    ensures Valid(FlushBase(v)) && FlushBase(v).Database? == v.base.Database?
    ensures forall o :: Lookup(FlushBase(v), o) == Lookup(v, o)
    ensures v.base.Cache? ==> FlushBase(v).base == v.base.base
  {
    if v.base.Cache? {
      FlushNeverThrows(v);
      var ours := v.base.entries;
      forall o
        ensures Lookup(FlushBase(v), o) == Lookup(v, o)
        ensures o in FlushBase(v).entries ==> EntryOk(FlushBase(v).entries[o], Lookup(v.base.base, o))
      {
        if o in v.entries {
          assert o in ours ==> EntryOk(ours[o], Lookup(v.base.base, o));
          assert EntryOk(v.entries[o], Lookup(v.base, o));
          MergeEntryOk(v.entries[o], Find(ours, o), Lookup(v.base.base, o));
        }
      }
    } else {
      forall o ensures Lookup(FlushBase(v), o) == Lookup(v, o) {
        if o in v.entries { assert EntryOk(v.entries[o], Lookup(v.base, o)); }
      }
    }
  }
}
