/** Whole runs over a stack of coin caches, against a stack of plain maps. */
module CoinsRuns {
  import opened Common
  import opened Coins

  datatype ReadOp = GetCoin(o: OutPoint) | HaveCoin(o: OutPoint) | AccessCoin(o: OutPoint) | UncacheCoin(o: OutPoint)

  /**
   * `Read(level, r)` reads `level` caches below the top. Push starts a new empty cache on top,
   * Discard drops the top one unflushed, Flush writes it into its base and keeps it, now empty.
   */
  datatype Op =
    | Read(level: nat, r: ReadOp)
    | AddCoin(o: OutPoint, c: Coin, possibleOverwrite: bool)
    | SpendCoin(o: OutPoint)
    | Flush
    | Push
    | Discard

  function Height(v: View): nat {
    if v.Database? then 0 else 1 + Height(v.base)
  }

  // ----- the caches -----

  /** A read at the top cache, and the coin it shows its caller. */
  function ReadTop(v: View, r: ReadOp): (View, Option<Coin>)
    requires v.Cache?
  {
    match r
    case UncacheCoin(o) => (Uncache(v, o), None)
    case GetCoin(o) => Get(v, o)
    case HaveCoin(o) =>
      var w := Fetch(v, o);
      (w, if o in w.entries && !w.entries[o].coin.IsSpent() then Some(EMPTY_COIN) else None)
    case AccessCoin(o) =>
      var w := Fetch(v, o);
      (w, Unspent(if o in w.entries then w.entries[o].coin else EMPTY_COIN))
  }

  function ReadAt(v: View, level: nat, r: ReadOp): (View, Option<Coin>)
    requires level < Height(v)
  {
    if level == 0 then ReadTop(v, r)
    else
      var (b, a) := ReadAt(v.base, level - 1, r);
      (Cache(v.entries, b), a)
  }

  datatype Outcome = Next(view: View, answer: Option<Coin>) | Exception

  predicate Possible(height: nat, op: Op) {
    match op
    case Read(level, _) => level < height
    case AddCoin(_, c, _) => height > 0 && !c.IsSpent()
    case Push => true
    case _ => height > 0
  }

  ghost function Step(v: View, op: Op): Outcome
    requires Possible(Height(v), op)
  {
    match op
    case Read(level, r) => var (w, a) := ReadAt(v, level, r); Next(w, a)
    case AddCoin(o, c, ow) =>
      (match Add(v, o, c, ow) case Added(w) => Next(w, None) case Threw => Exception)
    case SpendCoin(o) =>
      var f := Fetch(v, o);
      Next(Spend(v, o), if o in f.entries then Unspent(f.entries[o].coin) else None)
    case Flush =>
      if v.base.Cache? && MergeThrows(v.entries, v.base.entries) then Exception
      else Next(Cache(map[], FlushBase(v)), None)
    case Push => Next(Cache(map[], v), None)
    case Discard => Next(v.base, None)
  }

  // ----- the plain maps: one per level, the database first -----

  /** The answer of a read whose outpoint holds `c`; HaveCoin only tells whether there is a coin. */
  function Shown(c: Option<Coin>, r: ReadOp): Option<Coin> {
    if r.UncacheCoin? || c.None? then None
    else if r.HaveCoin? then Some(EMPTY_COIN)
    else c
  }

  function PlainStep(ms: seq<Utxos>, op: Op): (seq<Utxos>, Option<Coin>)
    requires |ms| > 0 && Possible(|ms| - 1, op)
  {
    var n := |ms| - 1;
    match op
    case Read(level, r) => (ms, Shown(Find(ms[n - level], r.o), r))
    case AddCoin(o, c, _) =>
      (if IsUnspendable(c.out.scriptPubKey) then ms else ms[n := ms[n][o := c]], None)
    case SpendCoin(o) => (ms[n := ms[n] - {o}], Find(ms[n], o))
    case Flush => (ms[n - 1 := ms[n]], None)
    case Push => (ms + [ms[n]], None)
    case Discard => (ms[..n], None)
  }

  /** What the source asks of a caller: never promise that a coin is new while the view shows it. */
  predicate Allowed(ms: seq<Utxos>, op: Op)
    requires |ms| > 0
  {
    && Possible(|ms| - 1, op)
    && (op.AddCoin? && !op.possibleOverwrite ==> op.o !in ms[|ms| - 1])
  }

  // ----- refinement -----

  ghost predicate Shows(v: View, m: Utxos) {
    forall o :: Lookup(v, o) == Find(m, o)
  }

  /** Every level of the stack shows its own plain map. */
  ghost predicate Refines(v: View, ms: seq<Utxos>) {
    && |ms| == Height(v) + 1
    && Shows(v, ms[|ms| - 1])
    && (v.Cache? ==> Refines(v.base, ms[..|ms| - 1]))
  }

  lemma {:induction false} SameViewsRefine(v: View, w: View, ms: seq<Utxos>)
    requires Refines(v, ms) && SameViews(v, w)
    ensures Refines(w, ms)
  {
    assert forall o :: Lookup(v, o) == Lookup(w, o);
    if v.Cache? { SameViewsRefine(v.base, w.base, ms[..|ms| - 1]); }
  }

  lemma ReadTopKeeps(v: View, r: ReadOp)
    requires v.Cache? && Valid(v)
    ensures Valid(ReadTop(v, r).0) && SameViews(v, ReadTop(v, r).0)
    ensures ReadTop(v, r).1 == Shown(Lookup(v, r.o), r)
  {
    match r
    case UncacheCoin(o) => UncacheKeeps(v, o);
    case GetCoin(o) => GetKeeps(v, o);
    case HaveCoin(o) => FetchKeeps(v, o);
    case AccessCoin(o) => FetchKeeps(v, o);
  }

  /** No read or Uncache, at any level, changes what any level shows. */
  lemma {:induction false} ReadAtKeeps(v: View, level: nat, r: ReadOp, ms: seq<Utxos>)
    requires level < Height(v) && Valid(v) && Refines(v, ms)
    ensures Valid(ReadAt(v, level, r).0) && SameViews(v, ReadAt(v, level, r).0)
    ensures ReadAt(v, level, r).1 == Shown(Find(ms[|ms| - 1 - level], r.o), r)
  {
    if level == 0 {
      ReadTopKeeps(v, r);
    } else {
      ReadAtKeeps(v.base, level - 1, r, ms[..|ms| - 1]);
      RebaseKeeps(v.entries, v.base, ReadAt(v.base, level - 1, r).0);
    }
  }

  lemma {:induction false} HeightOfSame(v: View, w: View)
    requires SameViews(v, w)
    ensures Height(v) == Height(w)
  {
    if v.Cache? { HeightOfSame(v.base, w.base); }
  }

  /** One allowed step: no exception, the invariant holds again, and both sides agree on state and answer. */
  lemma StepRefines(v: View, ms: seq<Utxos>, op: Op)
    requires Valid(v) && Refines(v, ms) && Allowed(ms, op)
    ensures Step(v, op).Next? && Valid(Step(v, op).view)
    ensures Refines(Step(v, op).view, PlainStep(ms, op).0)
    ensures Step(v, op).answer == PlainStep(ms, op).1
  {
    var n := |ms| - 1;
    match op
    case Read(level, r) =>
      ReadAtKeeps(v, level, r, ms);
      SameViewsRefine(v, ReadAt(v, level, r).0, ms);
    case AddCoin(o, c, ow) =>
      AddRefines(v, o, c, ow);
      if !IsUnspendable(c.out.scriptPubKey) { assert ms[n := ms[n][o := c]][..n] == ms[..n]; }
    case SpendCoin(o) =>
      FetchKeeps(v, o);
      SpendRefines(v, o);
      SameViewsRefine(v.base, Spend(v, o).base, ms[..n]);
      HeightOfSame(v.base, Spend(v, o).base);
      assert ms[n := ms[n] - {o}][..n] == ms[..n];
    case Flush =>
      if v.base.Cache? { FlushNeverThrows(v); }
      FlushRefines(v);
      FlushedLevels(v, ms);
    case Push =>
      assert (ms + [ms[n]])[..n + 1] == ms;
    case Discard =>
  }

  lemma FlushedLevels(v: View, ms: seq<Utxos>)
    requires v.Cache? && Valid(v) && Refines(v, ms)
    ensures Refines(Cache(map[], FlushBase(v)), ms[|ms| - 2 := ms[|ms| - 1]])
  {
    FlushRefines(v);
    var n := |ms| - 1;
    var ms' := ms[n - 1 := ms[n]];
    assert ms'[..n] == ms[..n][n - 1 := ms[n]];
    if v.base.Cache? { assert ms'[..n][..n - 1] == ms[..n][..n - 1]; }
    assert Refines(FlushBase(v), ms'[..n]);
  }

  // ----- runs -----

  datatype Run = Done(view: View, answers: seq<Option<Coin>>) | Failed

  ghost predicate AllAllowed(ms: seq<Utxos>, ops: seq<Op>)
    requires |ms| > 0
    decreases |ops|
  {
    ops == [] || (Allowed(ms, ops[0]) && |PlainStep(ms, ops[0]).0| > 0 && AllAllowed(PlainStep(ms, ops[0]).0, ops[1..]))
  }

  ghost function RunCaches(v: View, ops: seq<Op>): Run
    decreases |ops|
  {
    if ops == [] then Done(v, [])
    else if !Possible(Height(v), ops[0]) || Step(v, ops[0]).Exception? then Failed
    else
      var s := Step(v, ops[0]);
      var rest := RunCaches(s.view, ops[1..]);
      if rest.Failed? then Failed else Done(rest.view, [s.answer] + rest.answers)
  }

  ghost function RunPlain(ms: seq<Utxos>, ops: seq<Op>): (seq<Utxos>, seq<Option<Coin>>)
    requires |ms| > 0 && AllAllowed(ms, ops)
    decreases |ops|
  {
    if ops == [] then (ms, [])
    else
      var (ms', a) := PlainStep(ms, ops[0]);
      var (end, rest) := RunPlain(ms', ops[1..]);
      (end, [a] + rest)
  }

  /**
   * The caches are invisible: every allowed run over a stack of any height gives the answers of the
   * plain maps, raises no exception, and leaves every level showing its plain map.
   */
  lemma {:induction false} RunRefines(v: View, ms: seq<Utxos>, ops: seq<Op>)
    requires Valid(v) && Refines(v, ms) && AllAllowed(ms, ops)
    ensures RunCaches(v, ops).Done? && Valid(RunCaches(v, ops).view)
    ensures Refines(RunCaches(v, ops).view, RunPlain(ms, ops).0)
    ensures RunCaches(v, ops).answers == RunPlain(ms, ops).1
    decreases |ops|
  {
    if ops != [] {
      StepRefines(v, ms, ops[0]);
      RunRefines(Step(v, ops[0]).view, PlainStep(ms, ops[0]).0, ops[1..]);
    }
  }

  /** Any database alone starts such a run. */
  lemma StartRefines(coins: map<OutPoint, Coin>)
    ensures Valid(Database(coins))
    ensures Refines(Database(coins), [map o | o in coins && !coins[o].IsSpent() :: coins[o]])
  {
  }
}
