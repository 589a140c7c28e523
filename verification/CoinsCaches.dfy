/** The coin caches as objects that update their fields in place (src/coins.cpp). */
module CoinsCaches {
  import opened Common
  import opened Coins
  import opened MapSums

  /** Stands for CCoinsViewDB: the bottom of every stack. */
  class CoinsDatabase {
    var coins: map<OutPoint, Coin>

    constructor (coins: map<OutPoint, Coin>)
      ensures this.coins == coins
    {
      this.coins := coins;
    }
  }

  datatype Transaction = Transaction(
    txid: nat, vin: seq<OutPoint>, vout: seq<TxOut>, fCoinBase: bool, nType: nat, vExtraPayload: seq<nat>)

  class CoinsViewCache {
    var cacheCoins: CoinsMap
    var cachedCoinsUsage: int
    /** The base view: `parent` if there is one, else the database. */
    const parent: CoinsViewCache?
    const db: CoinsDatabase
    /** The heap memory of a script, which the source asks its allocator about. */
    const scriptUsage: seq<nat> -> nat
    ghost const height: nat
    ghost const Repr: set<object>

    /** The shape of the stack; it only speaks about fields that never change. */
    ghost predicate Linked()
      decreases height
    {
      && this in Repr && db in Repr
      && scriptUsage([]) == 0
      && (parent != null ==>
            && parent.height < height && parent.db == db && parent.scriptUsage == scriptUsage
            && parent in Repr && parent.Repr <= Repr && this !in parent.Repr && parent.Linked())
    }

    ghost function Stack(): (v: View)
      requires Linked()
      reads Repr
      ensures v.Cache? && v.entries == cacheCoins
      decreases height
    {
      Cache(cacheCoins, BaseView())
    }

    ghost function BaseView(): (v: View)
      requires Linked()
      reads Repr - {this}
      ensures v.Cache? <==> parent != null
      ensures v.Cache? ==> v.entries == parent.cacheCoins
      decreases height, 0
    {
      if parent == null then Database(db.coins) else parent.Stack()
    }

    function Usages(m: CoinsMap): map<OutPoint, nat> {
      map o | o in m :: scriptUsage(m[o].coin.out.scriptPubKey)
    }

    ghost function Usage(m: CoinsMap): nat {
      Sum(Usages(m))
    }

    /** At every level the recorded memory use is the exact sum over the cached coins. */
    ghost predicate Accounted()
      requires Linked()
      reads Repr
      decreases height
    {
      cachedCoinsUsage == Usage(cacheCoins) && (parent != null ==> parent.Accounted())
    }

    lemma UsagePut(m: CoinsMap, o: OutPoint, e: Entry)
      ensures Usage(m[o := e]) == scriptUsage(e.coin.out.scriptPubKey) + Usage(m - {o})
    {
      SumPut(Usages(m), o, scriptUsage(e.coin.out.scriptPubKey));
      assert Usages(m)[o := scriptUsage(e.coin.out.scriptPubKey)] == Usages(m[o := e]);
      assert Usages(m) - {o} == Usages(m - {o});
    }

    lemma UsageRemove(m: CoinsMap, o: OutPoint)
      requires o in m
      ensures Usage(m) == scriptUsage(m[o].coin.out.scriptPubKey) + Usage(m - {o})
    {
      UsagePut(m, o, m[o]);
      assert m[o := m[o]] == m;
    }

    constructor (parent: CoinsViewCache?, db: CoinsDatabase, scriptUsage: seq<nat> -> nat)
      requires scriptUsage([]) == 0
      requires parent != null ==> parent.Linked() && parent.db == db && parent.scriptUsage == scriptUsage
      ensures Linked() && this.parent == parent && this.db == db && this.scriptUsage == scriptUsage
      ensures Repr == {this, db} + (if parent == null then {} else parent.Repr)
      ensures Stack() == Cache(map[], old(if parent == null then Database(db.coins) else parent.Stack()))
      ensures old(parent != null ==> parent.Accounted()) ==> Accounted()
    {
      this.cacheCoins, this.cachedCoinsUsage := map[], 0;
      this.parent, this.db, this.scriptUsage := parent, db, scriptUsage;
      this.height := if parent == null then 0 else parent.height + 1;
      this.Repr := {this, db} + (if parent == null then {} else parent.Repr);
      new;
      assert Usages(map[]) == map[];
    }

    method GetCoin(o: OutPoint) returns (found: bool, coin: Coin)
      requires Linked() && Accounted()
      modifies Repr
      ensures Accounted()
      ensures Stack() == Get(old(Stack()), o).0
      ensures found == Get(old(Stack()), o).1.Some?
      ensures found ==> coin == Get(old(Stack()), o).1.value
      ensures db.coins == old(db.coins)
      decreases height, 1
    {
      FetchCoin(o);
      found, coin := false, EMPTY_COIN;
      if o in cacheCoins {
        coin := cacheCoins[o].coin;
        found := !coin.IsSpent();
      }
    }

    method FetchCoin(o: OutPoint)
      requires Linked() && Accounted()
      modifies Repr
      ensures Accounted()
      ensures Stack() == Fetch(old(Stack()), o)
      ensures db.coins == old(db.coins)
      decreases height, 0
    {
      if o in cacheCoins { return; }
      var found, tmp;
      if parent == null {
        found, tmp := o in db.coins, if o in db.coins then db.coins[o] else EMPTY_COIN;
      } else {
        found, tmp := parent.GetCoin(o);
      }
      if !found { return; }
      UsagePut(cacheCoins, o, Entry(tmp, false, tmp.IsSpent()));
      assert cacheCoins - {o} == cacheCoins;
      cacheCoins := cacheCoins[o := Entry(tmp, false, tmp.IsSpent())];
      cachedCoinsUsage := cachedCoinsUsage + scriptUsage(tmp.out.scriptPubKey);
    }

    method HaveCoin(o: OutPoint) returns (r: bool)
      requires Linked() && Accounted()
      modifies Repr
      ensures Accounted()
      ensures Stack() == Fetch(old(Stack()), o)
      ensures r == (o in cacheCoins && !cacheCoins[o].coin.IsSpent())
      ensures old(Valid(Stack())) ==> r == Lookup(old(Stack()), o).Some?
      ensures db.coins == old(db.coins)
    {
      FetchCoin(o);
      if old(Valid(Stack())) { FetchKeeps(old(Stack()), o); }
      r := o in cacheCoins && !cacheCoins[o].coin.IsSpent();
    }

    method AccessCoin(o: OutPoint) returns (c: Coin)
      requires Linked() && Accounted()
      modifies Repr
      ensures Accounted()
      ensures Stack() == Fetch(old(Stack()), o)
      ensures c == if o in cacheCoins then cacheCoins[o].coin else EMPTY_COIN
      ensures old(Valid(Stack())) ==> Unspent(c) == Lookup(old(Stack()), o)
      ensures db.coins == old(db.coins)
    {
      FetchCoin(o);
      if old(Valid(Stack())) { FetchKeeps(old(Stack()), o); }
      c := if o in cacheCoins then cacheCoins[o].coin else EMPTY_COIN;
    }

    /** `threw` is the logic_error; the source has then already lowered the recorded memory use. */
    method AddCoin(o: OutPoint, coin: Coin, possibleOverwrite: bool) returns (threw: bool)
      requires Linked() && Accounted() && !coin.IsSpent()
      modifies this
      ensures threw == Add(old(Stack()), o, coin, possibleOverwrite).Threw?
      ensures !threw ==> Accounted() && Stack() == Add(old(Stack()), o, coin, possibleOverwrite).view
      ensures threw ==> Stack() == old(Stack()) && o in cacheCoins
      ensures threw ==> cachedCoinsUsage == Usage(cacheCoins) - scriptUsage(cacheCoins[o].coin.out.scriptPubKey)
    {
      hide Usage, Usages;
      threw := false;
      if IsUnspendable(coin.out.scriptPubKey) { return; }
      var e := Entry(EMPTY_COIN, false, false);
      assert o !in cacheCoins ==> cacheCoins - {o} == cacheCoins;
      if o in cacheCoins {
        e := cacheCoins[o];
        UsageRemove(cacheCoins, o);
        cachedCoinsUsage := cachedCoinsUsage - scriptUsage(e.coin.out.scriptPubKey);
      }
      var asFresh := false;
      if !possibleOverwrite {
        if !e.coin.IsSpent() { return true; }
        asFresh := !e.isDirty;
      }
      UsagePut(cacheCoins, o, Entry(coin, true, e.isFresh || asFresh));
      cacheCoins := cacheCoins[o := Entry(coin, true, e.isFresh || asFresh)];
      cachedCoinsUsage := cachedCoinsUsage + scriptUsage(coin.out.scriptPubKey);
      assert parent != null ==> parent.Accounted();
    }

    /** Spends a coin and hands it out; a coin that is absent from the view comes out as a spent one. */
    method SpendCoin(o: OutPoint) returns (r: bool, moved: Coin)
      requires Linked() && Accounted()
      modifies Repr
      ensures Accounted()
      ensures Stack() == Spend(old(Stack()), o)
      ensures r == (o in Fetch(old(Stack()), o).entries)
      ensures old(Valid(Stack())) ==> r == SpendReports(old(Stack()), o)
      ensures r ==> moved == Fetch(old(Stack()), o).entries[o].coin
      ensures old(Valid(Stack())) ==> Unspent(moved) == Lookup(old(Stack()), o)
      ensures db.coins == old(db.coins)
    {
      hide Usage, Usages;
      FetchCoin(o);
      if old(Valid(Stack())) {
        FetchKeeps(old(Stack()), o);
        SpendReportsExactlyWhen(old(Stack()), o);
      }
      if o !in cacheCoins { return false, EMPTY_COIN; }
      moved := cacheCoins[o].coin;
      UsageRemove(cacheCoins, o);
      cachedCoinsUsage := cachedCoinsUsage - scriptUsage(moved.out.scriptPubKey);
      if cacheCoins[o].isFresh {
        cacheCoins := cacheCoins - {o};
      } else {
        UsagePut(cacheCoins, o, Entry(EMPTY_COIN, true, false));
        cacheCoins := cacheCoins[o := Entry(EMPTY_COIN, true, cacheCoins[o].isFresh)];
      }
      return true, moved;
    }

    method UncacheCoin(o: OutPoint)
      requires Linked() && Accounted()
      modifies this
      ensures Accounted()
      ensures Stack() == Uncache(old(Stack()), o)
    {
      if o in cacheCoins && !cacheCoins[o].isDirty && !cacheCoins[o].isFresh {
        UsageRemove(cacheCoins, o);
        cachedCoinsUsage := cachedCoinsUsage - scriptUsage(cacheCoins[o].coin.out.scriptPubKey);
        cacheCoins := cacheCoins - {o};
        assert parent != null ==> parent.Accounted();
      }
    }

    /** One turn of BatchWrite's loop. */
    method MergeEntry(o: OutPoint, child: Entry) returns (threw: bool)
      requires Linked() && Accounted()
      modifies this
      ensures threw == Merge(child, Find(old(cacheCoins), o)).Misapplied?
      ensures !threw ==> Accounted()
      ensures !threw ==> Find(cacheCoins, o) == Merge(child, Find(old(cacheCoins), o)).entry
      ensures !threw ==> forall p :: p != o ==> Find(cacheCoins, p) == Find(old(cacheCoins), p)
      ensures BaseView() == old(BaseView())
    {
      hide Usage, Usages;
      threw := false;
      if !child.isDirty { return; }
      if o !in cacheCoins {
        if !(child.isFresh && child.coin.IsSpent()) {
          UsagePut(cacheCoins, o, Entry(child.coin, true, child.isFresh));
          assert cacheCoins - {o} == cacheCoins;
          cacheCoins := cacheCoins[o := Entry(child.coin, true, child.isFresh)];
          cachedCoinsUsage := cachedCoinsUsage + scriptUsage(child.coin.out.scriptPubKey);
        }
      } else {
        var us := cacheCoins[o];
        if child.isFresh && !us.coin.IsSpent() { return true; }
        UsageRemove(cacheCoins, o);
        cachedCoinsUsage := cachedCoinsUsage - scriptUsage(us.coin.out.scriptPubKey);
        if us.isFresh && child.coin.IsSpent() {
          cacheCoins := cacheCoins - {o};
        } else {
          UsagePut(cacheCoins, o, Entry(child.coin, true, us.isFresh));
          cacheCoins := cacheCoins[o := Entry(child.coin, true, us.isFresh)];
          cachedCoinsUsage := cachedCoinsUsage + scriptUsage(child.coin.out.scriptPubKey);
        }
      }
      assert parent != null ==> parent.Accounted();
    }

    /** Merges a child's entries, in any order; it throws exactly when some FRESH flag was misapplied. */
    method BatchWrite(mapCoins: CoinsMap) returns (threw: bool)
      requires Linked() && Accounted()
      modifies this
      ensures threw == MergeThrows(mapCoins, old(cacheCoins))
      ensures !threw ==> Accounted() && cacheCoins == MergeAll(mapCoins, old(cacheCoins))
      ensures BaseView() == old(BaseView())
    {
      ghost var ours := cacheCoins;
      var rest := mapCoins.Keys;
      while rest != {}
        invariant Accounted() && BaseView() == old(BaseView())
        invariant MergedSoFar(mapCoins, ours, rest, cacheCoins)
        decreases |rest|
      {
        var o :| o in rest;
        ghost var before := cacheCoins;
        assert Find(before, o) == Find(ours, o);
        threw := MergeEntry(o, mapCoins[o]);
        if threw { return; }
        MergedStep(mapCoins, ours, rest, before, cacheCoins, o);
        rest := rest - {o};
      }
      threw := false;
      MergedIsMergeAll(mapCoins, ours, cacheCoins);
    }

    /** `m` is this cache once all of the child's entries but those in `rest` have been merged. */
    static ghost predicate MergedSoFar(child: CoinsMap, ours: CoinsMap, rest: set<OutPoint>, m: CoinsMap) {
      && rest <= child.Keys
      && (forall o :: Find(m, o) == MergedAt(child, ours, child.Keys - rest, o))
      && (forall o :: o in child && o !in rest ==> Merge(child[o], Find(ours, o)).Keep?)
    }

    static lemma MergedStep(child: CoinsMap, ours: CoinsMap, rest: set<OutPoint>, m: CoinsMap, m': CoinsMap, o: OutPoint)
      requires MergedSoFar(child, ours, rest, m) && o in rest
      requires Merge(child[o], Find(m, o)).Keep? && Find(m', o) == Merge(child[o], Find(m, o)).entry
      requires forall p :: p != o ==> Find(m', p) == Find(m, p)
      ensures MergedSoFar(child, ours, rest - {o}, m')
    {
      forall p ensures Find(m', p) == MergedAt(child, ours, child.Keys - (rest - {o}), p) {
        assert Find(m, p) == MergedAt(child, ours, child.Keys - rest, p);
      }
    }

    static lemma MergedIsMergeAll(child: CoinsMap, ours: CoinsMap, m: CoinsMap)
      requires MergedSoFar(child, ours, {}, m)
      ensures m == MergeAll(child, ours)
    {
      assert child.Keys - {} == child.Keys;
      forall o
        ensures o in m <==> o in MergeAll(child, ours)
        ensures o in m ==> m[o] == MergeAll(child, ours)[o]
      {
        assert Find(m, o) == MergedAt(child, ours, child.Keys, o);
      }
    }

    /** Writes this cache into its base and empties it. On a valid stack this cannot throw. */
    method Flush() returns (threw: bool)
      requires Linked() && Accounted()
      modifies Repr
      ensures threw == old(parent != null && MergeThrows(cacheCoins, parent.cacheCoins))
      ensures old(Valid(Stack())) ==> !threw
      ensures !threw ==> Accounted() && Stack() == Cache(map[], FlushBase(old(Stack())))
    {
      hide Valid, MergeAll, Store, MergeThrows;
      if Valid(Stack()) && parent != null { FlushNeverThrows(Stack()); }
      if parent != null {
        ghost var was := Stack();
        assert was == Cache(cacheCoins, BaseView());
        assert BaseView() == parent.Stack() == Cache(parent.cacheCoins, parent.BaseView());
        threw := parent.BatchWrite(cacheCoins);
        if threw { return; }
        assert parent.Stack() == Cache(parent.cacheCoins, parent.BaseView());
        assert parent.Stack() == FlushBase(old(Stack()));
      } else {
        threw := false;
        db.coins := Store(cacheCoins, db.coins);
      }
      cacheCoins := map[];
      cachedCoinsUsage := 0;
      assert Usages(map[]) == map[];
    }

    /** True exactly when every input of the transaction is unspent in the view; the view does not change. */
    method HaveInputs(tx: Transaction) returns (r: bool)
      requires Linked() && Accounted() && Valid(Stack())
      modifies Repr
      ensures r == (tx.fCoinBase || forall i :: 0 <= i < |tx.vin| ==> Lookup(old(Stack()), tx.vin[i]).Some?)
      ensures Accounted() && Valid(Stack()) && SameViews(old(Stack()), Stack())
    {
      SameViewsRefl(Stack());
      if !tx.fCoinBase {
        for i := 0 to |tx.vin|
          invariant Accounted() && Valid(Stack()) && SameViews(old(Stack()), Stack())
          invariant forall k :: 0 <= k < i ==> Lookup(old(Stack()), tx.vin[k]).Some?
        {
          ghost var was := Stack();
          var have := HaveCoin(tx.vin[i]);
          FetchKeeps(was, tx.vin[i]);
          SameViewsTrans(old(Stack()), was, Stack());
          assert Lookup(old(Stack()), tx.vin[i]) == Lookup(was, tx.vin[i]);
          if !have { return false; }
        }
      }
      return true;
    }
  }

  /** The coin that output `i` of a transaction becomes; `lockIndex` is the output its payload locks, if any. */
  function OutputCoin(tx: Transaction, nHeight: nat, lockIndex: Option<nat>, i: nat): Coin
    requires i < |tx.vout|
  {
    if lockIndex == Some(i) then Coin(tx.vout[i], tx.fCoinBase, nHeight, tx.nType, tx.vExtraPayload)
    else Coin(tx.vout[i], tx.fCoinBase, nHeight, 0, [])
  }

  /** What a view shows after the spendable outputs among the first `k` of a transaction were added. */
  function WithOutputs(tx: Transaction, nHeight: nat, lockIndex: Option<nat>, k: nat, before: Option<Coin>, o: OutPoint)
    : Option<Coin>
    requires k <= |tx.vout|
  {
    if o.hash == tx.txid && o.n < k && !IsUnspendable(tx.vout[o.n].scriptPubKey)
    then Some(OutputCoin(tx, nHeight, lockIndex, o.n))
    else before
  }

  /** One turn of AddCoins' loop. */
  method AddOutput(cache: CoinsViewCache, o: OutPoint, coin: Coin, check: bool, fCoinBase: bool)
    requires cache.Linked() && cache.Accounted() && Valid(cache.Stack()) && !coin.IsSpent()
    requires check || fCoinBase || Lookup(cache.Stack(), o).None?
    modifies cache.Repr
    ensures cache.Accounted() && Valid(cache.Stack()) && SameViews(old(cache.Stack()).base, cache.Stack().base)
    ensures forall p :: Lookup(cache.Stack(), p) ==
              if p == o && !IsUnspendable(coin.out.scriptPubKey) then Some(coin) else Lookup(old(cache.Stack()), p)
    ensures var was := if check then Fetch(old(cache.Stack()), o) else old(cache.Stack());
            Add(was, o, coin, if check then Lookup(old(cache.Stack()), o).Some? else fCoinBase) == Added(cache.Stack())
  {
    ghost var was := cache.Stack();
    SameViewsRefl(was);
    var overwrite := fCoinBase;
    if check {
      overwrite := cache.HaveCoin(o);
      FetchKeeps(was, o);
    }
    ghost var mid := cache.Stack();
    assert forall p :: Lookup(mid, p) == Lookup(was, p);
    AddRefines(mid, o, coin, overwrite);
    var threw := cache.AddCoin(o, coin, overwrite);
  }

  /**
   * AddCoins: afterwards the view shows exactly the transaction's spendable outputs on top of what it
   * showed. Only an unchecked, non-coinbase transaction must bring outpoints that are not in the view.
   */
  method AddCoins(cache: CoinsViewCache, tx: Transaction, nHeight: nat, lockIndex: Option<nat>, check: bool)
    requires cache.Linked() && cache.Accounted() && Valid(cache.Stack())
    requires forall i :: 0 <= i < |tx.vout| ==> tx.vout[i].nValue != -1
    requires check || tx.fCoinBase ||
             forall i :: 0 <= i < |tx.vout| ==> Lookup(cache.Stack(), OutPoint(tx.txid, i)).None?
    modifies cache.Repr
    ensures cache.Accounted() && Valid(cache.Stack()) && SameViews(old(cache.Stack()).base, cache.Stack().base)
    ensures forall o :: Lookup(cache.Stack(), o) ==
              WithOutputs(tx, nHeight, lockIndex, |tx.vout|, Lookup(old(cache.Stack()), o), o)
  {
    hide SameViews, Valid, Lookup;
    SameViewsRefl(cache.Stack().base);
    for i := 0 to |tx.vout|
      invariant cache.Accounted() && Valid(cache.Stack())
      invariant SameViews(old(cache.Stack()).base, cache.Stack().base)
      invariant forall o :: Lookup(cache.Stack(), o) ==
                  WithOutputs(tx, nHeight, lockIndex, i, Lookup(old(cache.Stack()), o), o)
    {
      ghost var was := cache.Stack();
      AddOutput(cache, OutPoint(tx.txid, i), OutputCoin(tx, nHeight, lockIndex, i), check, tx.fCoinBase);
      SameViewsTrans(old(cache.Stack()).base, was.base, cache.Stack().base);
    }
  }
}
