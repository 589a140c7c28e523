/**
 * The parallel check queue (src/checkqueue.h) as a transition system. Each critical section of `Loop`
 * and `Add` is one atomic step; so is each executed check. Thread 0 is the master.
 */
module CheckQueue {
  import opened Common
  import Bits

  type Check = int

  /**
   * Where a thread stands in `Loop`. `Entering` is about to take the lock, after processing the batch
   * `batch`, or for the first time when `batch` is empty. `ran` counts the checks of its batch it executed.
   */
  datatype Thread =
    | Outside
    | Entering(batch: seq<Check>, ran: nat, fOk: bool)
    | Asleep
    | Working(batch: seq<Check>, done: nat, ran: nat, fOk: bool)

  /** What happened in the current round: checks added, executed, and handed back (executed or skipped). */
  datatype Round = Round(added: multiset<Check>, ran: multiset<Check>, completed: multiset<Check>, completedRan: multiset<Check>)

  datatype Verdict = Verdict(fRet: bool, round: Round)

  datatype State = State(
    nBatchSize: nat,
    queue: seq<Check>,
    nIdle: int,
    nTotal: int,
    fAllOk: bool,
    nTodo: int,
    threads: seq<Thread>,
    notified: bool,
    round: Round,
    last: Option<Verdict>)

  const NO_ROUND := Round(multiset{}, multiset{}, multiset{}, multiset{})

  // ----- steps -----

  datatype Action =
    | AddChecks(checks: seq<Check>)
    | CallWait
    | Lock(t: nat)
    | Execute(t: nat)
    | Finish(t: nat)
    | Wake(t: nat)

  predicate Enabled(s: State, a: Action) {
    if a.AddChecks? || a.CallWait? then |s.threads| > 0 && s.threads[0].Outside?
    else if a.Lock? then a.t < |s.threads| && s.threads[a.t].Entering?
    else if a.Execute? then a.t < |s.threads| && s.threads[a.t].Working? && s.threads[a.t].done < |s.threads[a.t].batch|
    else if a.Finish? then
      a.t < |s.threads| && s.threads[a.t].Working? && s.threads[a.t].done == |s.threads[a.t].batch|
    else a.t < |s.threads| && s.threads[a.t].Asleep?
  }

  function Min(x: int, y: int): int { if x < y then x else y }

  /** How many checks a thread takes at once. */
  function BatchSize(s: State): int
    requires s.nTotal + s.nIdle + 1 > 0
  {
    Max(1, Min(s.nBatchSize, |s.queue| / (s.nTotal + s.nIdle + 1)))
  }

  function Reversed(q: seq<Check>): (r: seq<Check>)
    ensures |r| == |q| && multiset(r) == multiset(q)
  {
    if q == [] then []
    else
      assert q == q[..|q| - 1] + [q[|q| - 1]];
      [q[|q| - 1]] + Reversed(q[..|q| - 1])
  }

  /** The clean-up at the head of Loop's critical section, for the batch the thread has just processed. */
  function CleanUp(s: State, t: nat): State
    requires Enabled(s, Lock(t))
  {
    var th := s.threads[t];
    if th.batch == [] then s.(nTotal := s.nTotal + 1)
    else
      var nTodo := s.nTodo - |th.batch|;
      s.(fAllOk := s.fAllOk && th.fOk,
         nTodo := nTodo,
         notified := s.notified || (nTodo == 0 && t != 0 && s.threads[0].Asleep?),
         threads := s.threads[t := Entering([], 0, true)],
         round := s.round.(completed := s.round.completed + multiset(th.batch),
                           completedRan := s.round.completedRan + RanOf(th)))
  }

  /** A sleeping thread comes back from `wait`, notified or not. */
  function Rouse(s: State, t: nat): State
    requires Enabled(s, Wake(t))
  {
    s.(nIdle := s.nIdle - 1, notified := s.notified && t != 0, threads := s.threads[t := Entering([], 0, true)])
  }

  /** The rest of the critical section: return, sleep, or take a batch off the back of the queue. */
  function Attend(s: State, t: nat): State
    requires t < |s.threads| && s.nTotal + s.nIdle + 1 > 0
    requires s.queue != [] ==> BatchSize(s) <= |s.queue|
  {
    if s.queue == [] then
      if t == 0 && s.nTodo == 0 then
        s.(nTotal := s.nTotal - 1, fAllOk := true, threads := s.threads[0 := Outside], round := NO_ROUND,
           last := Some(Verdict(s.fAllOk, s.round)))
      else
        s.(nIdle := s.nIdle + 1, threads := s.threads[t := Asleep])
    else
      var rest := |s.queue| - BatchSize(s);
      s.(queue := s.queue[..rest], threads := s.threads[t := Working(Reversed(s.queue[rest..]), 0, 0, s.fAllOk)])
  }

  function Step(v: Check -> bool, s: State, a: Action): State
    requires Enabled(s, a) && Poppable(s, a)
  {
    match a
    case AddChecks(checks) =>
      if checks == [] then s
      else s.(queue := s.queue + checks, nTodo := s.nTodo + |checks|,
              round := s.round.(added := s.round.added + multiset(checks)))
    case CallWait => s.(threads := s.threads[0 := Entering([], 0, true)])
    case Lock(t) => Attend(CleanUp(s, t), t)
    case Execute(t) =>
      var th := s.threads[t];
      var c := th.batch[th.done];
      if th.fOk then
        s.(threads := s.threads[t := Working(th.batch, th.done + 1, th.ran + 1, v(c))],
           round := s.round.(ran := s.round.ran + multiset{c}))
      else s.(threads := s.threads[t := th.(done := th.done + 1)])
    case Finish(t) =>
      s.(threads := s.threads[t := Entering(s.threads[t].batch, s.threads[t].ran, s.threads[t].fOk)])
    case Wake(t) => Attend(Rouse(s, t), t)
  }

  /** The state in which the step looks at the queue; nothing is asked of the other steps. */
  function AtQueue(s: State, a: Action): Option<State>
    requires Enabled(s, a)
  {
    if a.Lock? then Some(CleanUp(s, a.t))
    else if a.Wake? then Some(Rouse(s, a.t))
    else None
  }

  /** Popping a batch never reaches below an empty queue. The invariant implies this for every step. */
  predicate Poppable(s: State, a: Action)
    requires Enabled(s, a)
  {
    var q := AtQueue(s, a);
    q.Some? ==>
      && q.value.nTotal + q.value.nIdle + 1 > 0
      && (q.value.queue != [] ==> BatchSize(q.value) <= |q.value.queue|)
  }

  /** The state after StartWorkerThreads with `n` threads. */
  function Start(nBatchSize: nat, n: nat): State {
    State(nBatchSize, [], 0, 0, true, 0, [Outside] + seq(n, i => Entering([], 0, true)), false, NO_ROUND, None)
  }

  // ----- what the threads hold, in total -----

  function HeldBy(th: Thread): multiset<Check> {
    if th.Working? || th.Entering? then multiset(th.batch) else multiset{}
  }

  /** The checks of its batch that a thread has executed: a prefix. */
  function RanOf(th: Thread): multiset<Check> {
    if (th.Working? || th.Entering?) && th.ran <= |th.batch| then multiset(th.batch[..th.ran]) else multiset{}
  }

  predicate Inside(th: Thread) {
    th.Asleep? || th.Working? || (th.Entering? && th.batch != [])
  }

  function Held(ts: seq<Thread>): multiset<Check> {
    if ts == [] then multiset{} else Held(ts[..|ts| - 1]) + HeldBy(ts[|ts| - 1])
  }

  function Ran(ts: seq<Thread>): multiset<Check> {
    if ts == [] then multiset{} else Ran(ts[..|ts| - 1]) + RanOf(ts[|ts| - 1])
  }

  function Sleepers(ts: seq<Thread>): nat {
    if ts == [] then 0 else Sleepers(ts[..|ts| - 1]) + if ts[|ts| - 1].Asleep? then 1 else 0
  }

  function Insiders(ts: seq<Thread>): nat {
    if ts == [] then 0 else Insiders(ts[..|ts| - 1]) + if Inside(ts[|ts| - 1]) then 1 else 0
  }

  lemma MultisetSwap(p: multiset<Check>, p': multiset<Check>, a: multiset<Check>, b: multiset<Check>, x: multiset<Check>)
    requires p + b == p' + a
    ensures (p + x) + b == (p' + x) + a
  {
    assert (p + x) + b == (p + b) + x;
  }

  lemma {:induction false} HeldTotal(ts: seq<Thread>, i: nat, th: Thread)
    requires i < |ts|
    ensures Held(ts) + HeldBy(th) == Held(ts[i := th]) + HeldBy(ts[i])
  {
    hide HeldBy;
    var n := |ts| - 1;
    if i == n {
      assert ts[i := th][..n] == ts[..n];
      MultisetSwap(Held(ts[..n]), Held(ts[..n]), multiset{}, multiset{}, HeldBy(th));
    } else {
      HeldTotal(ts[..n], i, th);
      assert ts[i := th][..n] == ts[..n][i := th];
      MultisetSwap(Held(ts[..n]), Held(ts[..n][i := th]), HeldBy(ts[i]), HeldBy(th), HeldBy(ts[n]));
    }
  }

  lemma {:induction false} RanTotal(ts: seq<Thread>, i: nat, th: Thread)
    requires i < |ts|
    ensures Ran(ts) + RanOf(th) == Ran(ts[i := th]) + RanOf(ts[i])
  {
    hide RanOf;
    var n := |ts| - 1;
    if i == n {
      assert ts[i := th][..n] == ts[..n];
      MultisetSwap(Ran(ts[..n]), Ran(ts[..n]), multiset{}, multiset{}, RanOf(th));
    } else {
      RanTotal(ts[..n], i, th);
      assert ts[i := th][..n] == ts[..n][i := th];
      MultisetSwap(Ran(ts[..n]), Ran(ts[..n][i := th]), RanOf(ts[i]), RanOf(th), RanOf(ts[n]));
    }
  }

  lemma {:induction false} CountTotals(ts: seq<Thread>, i: nat, th: Thread)
    requires i < |ts|
    ensures Sleepers(ts[i := th]) == Sleepers(ts) + (if th.Asleep? then 1 else 0) - (if ts[i].Asleep? then 1 else 0)
    ensures Insiders(ts[i := th]) == Insiders(ts) + (if Inside(th) then 1 else 0) - (if Inside(ts[i]) then 1 else 0)
  {
    hide Inside;
    var n := |ts| - 1;
    if i == n {
      assert ts[i := th][..n] == ts[..n];
    } else {
      CountTotals(ts[..n], i, th);
      assert ts[i := th][..n] == ts[..n][i := th];
    }
  }

  // ----- the invariant -----

  ghost predicate AllPass(v: Check -> bool, m: multiset<Check>) {
    forall c :: c in m ==> v(c)
  }

  ghost predicate SomeFail(v: Check -> bool, m: multiset<Check>) {
    exists c :: c in m && !v(c)
  }

  /** While a thread's fOk holds it has executed all it came past, and all of it passed; else some check failed. */
  ghost predicate ThreadOk(v: Check -> bool, ran: multiset<Check>, th: Thread) {
    if th.Working? then
      && 0 < |th.batch| && th.ran <= th.done <= |th.batch|
      && (if th.fOk then th.ran == th.done && AllPass(v, RanOf(th)) else SomeFail(v, ran))
    else if th.Entering? then
      && th.ran <= |th.batch| && (th.batch == [] ==> th.fOk)
      && (if th.fOk then th.ran == |th.batch| && AllPass(v, RanOf(th)) else SomeFail(v, ran))
    else true
  }

  ghost predicate CountsOk(s: State) {
    && s.nIdle == Sleepers(s.threads) && s.nTotal == Insiders(s.threads)
    && s.nTodo == |s.queue| + |Held(s.threads)|
  }

  ghost predicate RoundOk(v: Check -> bool, s: State) {
    && s.round.added == multiset(s.queue) + Held(s.threads) + s.round.completed
    && s.round.ran == s.round.completedRan + Ran(s.threads)
    && s.round.completedRan <= s.round.completed
    && (s.fAllOk ==> s.round.completedRan == s.round.completed && AllPass(v, s.round.completed))
    && (!s.fAllOk ==> SomeFail(v, s.round.ran))
  }

  ghost predicate ThreadsOk(v: Check -> bool, s: State) {
    && |s.threads| > 0
    && (forall i :: 0 <= i < |s.threads| ==> ThreadOk(v, s.round.ran, s.threads[i]))
    && (forall i :: 0 < i < |s.threads| ==> !s.threads[i].Outside?)
  }

  /** A sleeping master has no queued work to wait for, and is owed a notification exactly while work is out. */
  ghost predicate MasterOk(s: State) {
    && |s.threads| > 0
    && (s.threads[0].Asleep? ==> s.queue == [] && (s.notified <==> s.nTodo == 0))
    && (s.notified ==> s.threads[0].Asleep?)
  }

  /** What a return of Wait has told its caller. */
  ghost predicate VerdictOk(v: Check -> bool, r: Option<Verdict>) {
    r.Some? ==>
      && r.value.round.ran <= r.value.round.added
      && (r.value.fRet ==> r.value.round.ran == r.value.round.added && AllPass(v, r.value.round.added))
      && (!r.value.fRet ==> SomeFail(v, r.value.round.ran))
  }

  ghost predicate Inv(v: Check -> bool, s: State) {
    CountsOk(s) && RoundOk(v, s) && ThreadsOk(v, s) && MasterOk(s) && VerdictOk(v, s.last)
  }

  /** Inside the critical section of thread `t`: it holds nothing, and nTotal already counts it. */
  ghost predicate Mid(v: Check -> bool, s: State, t: nat) {
    && t < |s.threads| && s.threads[t] == Entering([], 0, true)
    && s.nIdle == Sleepers(s.threads) && s.nTotal == Insiders(s.threads) + 1
    && s.nTodo == |s.queue| + |Held(s.threads)|
    && RoundOk(v, s) && ThreadsOk(v, s) && MasterOk(s) && VerdictOk(v, s.last)
  }

  lemma {:induction false} HeldEmpty(ts: seq<Thread>, i: nat)
    requires i < |ts| && Held(ts) == multiset{}
    ensures HeldBy(ts[i]) == multiset{}
  {
    if i < |ts| - 1 { HeldEmpty(ts[..|ts| - 1], i); }
  }

  lemma {:induction false} HeldFrom(ts: seq<Thread>) returns (i: nat)
    requires Held(ts) != multiset{}
    ensures i < |ts| && HeldBy(ts[i]) != multiset{}
  {
    i := |ts| - 1;
    if HeldBy(ts[i]) == multiset{} { i := HeldFrom(ts[..|ts| - 1]); }
  }

  lemma RanOfWithin(th: Thread)
    ensures RanOf(th) <= HeldBy(th)
  {
    if (th.Working? || th.Entering?) && th.ran <= |th.batch| {
      assert th.batch == th.batch[..th.ran] + th.batch[th.ran..];
    }
  }

  lemma {:induction false} RanWithinHeld(ts: seq<Thread>)
    ensures Ran(ts) <= Held(ts)
  {
    hide RanOf, HeldBy;
    if ts != [] {
      RanWithinHeld(ts[..|ts| - 1]);
      RanOfWithin(ts[|ts| - 1]);
    }
  }

  lemma ThreadsUpdated(v: Check -> bool, s: State, s': State, t: nat, th: Thread)
    requires ThreadsOk(v, s) && t < |s.threads| && s'.threads == s.threads[t := th]
    requires s.round.ran <= s'.round.ran && ThreadOk(v, s'.round.ran, th) && (t > 0 ==> !th.Outside?)
    ensures ThreadsOk(v, s')
  {
    forall i | 0 <= i < |s.threads| ensures ThreadOk(v, s'.round.ran, s'.threads[i]) {
      if i != t { assert ThreadOk(v, s.round.ran, s.threads[i]); }
    }
  }

  lemma Settle(q: multiset<Check>, h: multiset<Check>, h': multiset<Check>, c: multiset<Check>, b: multiset<Check>)
    requires h + multiset{} == h' + b
    ensures q + h + c == q + h' + (c + b) && |h| == |h'| + |b|
  {
    assert h == h' + b by { assert h + multiset{} == h; }
  }

  lemma Cancel(p: multiset<Check>, q: multiset<Check>, a: multiset<Check>)
    requires p + a == q + a
    ensures p == q
  {
    forall x ensures p[x] == q[x] {
      assert (p + a)[x] == (q + a)[x];
    }
  }

  lemma RanSettled(r: multiset<Check>, c: multiset<Check>, n: multiset<Check>, n': multiset<Check>, b: multiset<Check>)
    requires r == c + n && n + multiset{} == n' + b
    ensures r == (c + b) + n'
  {
    assert n + multiset{} == n;
    assert c + (n' + b) == (c + b) + n';
  }

  lemma CleanUpRound(v: Check -> bool, s: State, t: nat)
    requires RoundOk(v, s) && Enabled(s, Lock(t)) && ThreadOk(v, s.round.ran, s.threads[t]) && s.threads[t].batch != []
    requires s.nTodo == |s.queue| + |Held(s.threads)|
    ensures RoundOk(v, CleanUp(s, t)) && CleanUp(s, t).nTodo == |s.queue| + |Held(CleanUp(s, t).threads)|
  {
    hide Held, Ran;
    var th, s' := s.threads[t], CleanUp(s, t);
    HeldTotal(s.threads, t, Entering([], 0, true));
    RanTotal(s.threads, t, Entering([], 0, true));
    Settle(multiset(s.queue), Held(s.threads), Held(s'.threads), s.round.completed, multiset(th.batch));
    RanSettled(s.round.ran, s.round.completedRan, Ran(s.threads), Ran(s'.threads), RanOf(th));
    RanOfWithin(th);
    assert th.fOk ==> th.batch[..th.ran] == th.batch;
  }

  lemma CleanUpKeeps(v: Check -> bool, s: State, t: nat)
    requires Inv(v, s) && Enabled(s, Lock(t))
    ensures Mid(v, CleanUp(s, t), t)
  {
    hide Held, Ran, Sleepers, Insiders, RoundOk, VerdictOk;
    var th, s' := s.threads[t], CleanUp(s, t);
    CountTotals(s.threads, t, Entering([], 0, true));
    assert ThreadOk(v, s.round.ran, th);
    if th.batch == [] {
      assert s'.threads == s.threads && th == Entering([], 0, true);
      SameRound(v, s, s');
    } else {
      CleanUpRound(v, s, t);
      ThreadsUpdated(v, s, s', t, Entering([], 0, true));
    }
  }

  lemma SameRound(v: Check -> bool, s: State, s': State)
    requires RoundOk(v, s) && s'.queue == s.queue && s'.round == s.round && s'.fAllOk == s.fAllOk
    requires Held(s'.threads) == Held(s.threads) && Ran(s'.threads) == Ran(s.threads)
    ensures RoundOk(v, s')
  {
    hide Held, Ran;
  }

  /** A thread that neither holds nor has run anything changes place. */
  lemma Moved(ts: seq<Thread>, i: nat, th: Thread)
    requires i < |ts| && HeldBy(th) == HeldBy(ts[i]) && RanOf(th) == RanOf(ts[i])
    ensures Held(ts[i := th]) == Held(ts) && Ran(ts[i := th]) == Ran(ts)
  {
    hide Held, Ran, HeldBy, RanOf;
    HeldTotal(ts, i, th);
    RanTotal(ts, i, th);
    Cancel(Held(ts), Held(ts[i := th]), HeldBy(th));
    Cancel(Ran(ts), Ran(ts[i := th]), RanOf(th));
  }

  lemma RouseKeeps(v: Check -> bool, s: State, t: nat)
    requires Inv(v, s) && Enabled(s, Wake(t))
    ensures Mid(v, Rouse(s, t), t)
  {
    hide Held, Ran, Sleepers, Insiders, RoundOk, VerdictOk;
    CountTotals(s.threads, t, Entering([], 0, true));
    Moved(s.threads, t, Entering([], 0, true));
    SameRound(v, s, Rouse(s, t));
    ThreadsUpdated(v, s, Rouse(s, t), t, Entering([], 0, true));
  }

  // ----- the three ways out of the critical section -----

  lemma PopFits(n: int, size: int, d: int)
    requires size > 0 && d > 0
    ensures Max(1, Min(n, size / d)) <= size
  {
    var q := size / d;
    assert size == d * q + size % d;
    Bits.MulAtLeast(d, q);
  }

  lemma AttendPops(v: Check -> bool, s: State, t: nat)
    requires Mid(v, s, t)
    ensures s.nTotal + s.nIdle + 1 > 0
    ensures s.queue != [] ==> BatchSize(s) <= |s.queue|
  {
    hide RoundOk, ThreadsOk, MasterOk, VerdictOk, Held, Max, Min;
    if s.queue != [] { PopFits(s.nBatchSize, |s.queue|, s.nTotal + s.nIdle + 1); }
  }

  lemma PopPositive(s: State)
    requires s.nTotal + s.nIdle + 1 > 0
    ensures BatchSize(s) > 0
  {
  }

  lemma SleepKeeps(v: Check -> bool, s: State, t: nat)
    requires Mid(v, s, t) && s.queue == [] && !(t == 0 && s.nTodo == 0)
    ensures Inv(v, s.(nIdle := s.nIdle + 1, threads := s.threads[t := Asleep]))
  {
    hide Held, Ran, Sleepers, Insiders, RoundOk, VerdictOk;
    var s' := s.(nIdle := s.nIdle + 1, threads := s.threads[t := Asleep]);
    CountTotals(s.threads, t, Asleep);
    Moved(s.threads, t, Asleep);
    SameRound(v, s, s');
    ThreadsUpdated(v, s, s', t, Asleep);
  }

  lemma Taken(q: multiset<Check>, h: multiset<Check>, h': multiset<Check>, b: multiset<Check>, r: multiset<Check>, c: multiset<Check>)
    requires q == r + b && h + b == h' + multiset{}
    ensures q + h + c == r + h' + c && |h'| == |h| + |b|
  {
    assert h' == h + b by { assert h' + multiset{} == h'; }
  }

  lemma TakeKeeps(v: Check -> bool, s: State, t: nat, n: nat)
    requires Mid(v, s, t) && 0 < n <= |s.queue|
    ensures var rest := |s.queue| - n;
            Inv(v, s.(queue := s.queue[..rest],
                      threads := s.threads[t := Working(Reversed(s.queue[rest..]), 0, 0, s.fAllOk)]))
  {
    hide Held, Ran, Sleepers, Insiders, VerdictOk, Reversed;
    var rest := |s.queue| - n;
    var th := Working(Reversed(s.queue[rest..]), 0, 0, s.fAllOk);
    var s' := s.(queue := s.queue[..rest], threads := s.threads[t := th]);
    CountTotals(s.threads, t, th);
    HeldTotal(s.threads, t, th);
    RanTotal(s.threads, t, th);
    assert th.batch[..0] == [];
    Cancel(Ran(s.threads), Ran(s'.threads), RanOf(th));
    assert s.queue == s.queue[..rest] + s.queue[rest..];
    Taken(multiset(s.queue), Held(s.threads), Held(s'.threads), multiset(th.batch), multiset(s'.queue), s.round.completed);
    ThreadsUpdated(v, s, s', t, th);
  }

  lemma ReturnFacts(v: Check -> bool, s: State)
    requires Mid(v, s, 0) && s.queue == [] && s.nTodo == 0
    ensures Held(s.threads) == multiset{} && Ran(s.threads) == multiset{}
    ensures s.round.added == s.round.completed && s.round.ran == s.round.completedRan
    ensures forall i :: 0 <= i < |s.threads| ==> s.threads[i].Outside? || s.threads[i].Asleep? || s.threads[i] == Entering([], 0, true)
  {
    hide Held, Ran, Sleepers, Insiders, MasterOk, VerdictOk;
    assert Held(s.threads) == multiset{};
    RanWithinHeld(s.threads);
    assert Ran(s.threads) == multiset{};
    assert s.round.added == s.round.completed;
    assert s.round.ran == s.round.completedRan;
    forall i | 0 <= i < |s.threads|
      ensures s.threads[i].Outside? || s.threads[i].Asleep? || s.threads[i] == Entering([], 0, true)
    {
      HeldEmpty(s.threads, i);
      assert ThreadOk(v, s.round.ran, s.threads[i]);
      if s.threads[i].Working? || s.threads[i].Entering? { assert |multiset(s.threads[i].batch)| == 0; }
    }
  }

  lemma ReturnKeeps(v: Check -> bool, s: State)
    requires Mid(v, s, 0) && s.queue == [] && s.nTodo == 0
    ensures Inv(v, s.(nTotal := s.nTotal - 1, fAllOk := true, threads := s.threads[0 := Outside], round := NO_ROUND,
                      last := Some(Verdict(s.fAllOk, s.round))))
  {
    hide Held, Ran, Sleepers, Insiders;
    CountTotals(s.threads, 0, Outside);
    Moved(s.threads, 0, Outside);
    ReturnFacts(v, s);
  }

  lemma AttendKeeps(v: Check -> bool, s: State, t: nat)
    requires Mid(v, s, t)
    ensures s.nTotal + s.nIdle + 1 > 0 && (s.queue != [] ==> BatchSize(s) <= |s.queue|)
    ensures Inv(v, Attend(s, t))
  {
    hide CountsOk, RoundOk, ThreadsOk, MasterOk, VerdictOk, Held, Ran, Sleepers, Insiders, Reversed, BatchSize;
    AttendPops(v, s, t);
    assert BatchSize(s) > 0 by { PopPositive(s); }
    if s.queue != [] {
      TakeKeeps(v, s, t, BatchSize(s));
    } else if t == 0 && s.nTodo == 0 {
      ReturnKeeps(v, s);
    } else {
      SleepKeeps(v, s, t);
    }
  }

  // ----- steps outside the critical section of Loop -----

  lemma AddKeeps(v: Check -> bool, s: State, checks: seq<Check>)
    requires Inv(v, s) && Enabled(s, AddChecks(checks))
    ensures Poppable(s, AddChecks(checks)) && Inv(v, Step(v, s, AddChecks(checks)))
  {
    hide Held, Ran, Sleepers, Insiders, VerdictOk;
    var s' := Step(v, s, AddChecks(checks));
    assert multiset(s.queue + checks) == multiset(s.queue) + multiset(checks);
    Added(multiset(s.queue), Held(s.threads), s.round.completed, multiset(checks));
  }

  lemma Added(q: multiset<Check>, h: multiset<Check>, c: multiset<Check>, b: multiset<Check>)
    ensures (q + h + c) + b == (q + b) + h + c
  {
  }

  lemma WaitKeeps(v: Check -> bool, s: State)
    requires Inv(v, s) && Enabled(s, CallWait)
    ensures Poppable(s, CallWait) && Inv(v, Step(v, s, CallWait))
  {
    hide Held, Ran, Sleepers, Insiders, RoundOk, VerdictOk;
    var s' := Step(v, s, CallWait);
    CountTotals(s.threads, 0, Entering([], 0, true));
    Moved(s.threads, 0, Entering([], 0, true));
    SameRound(v, s, s');
    ThreadsUpdated(v, s, s', 0, Entering([], 0, true));
  }

  lemma FinishKeeps(v: Check -> bool, s: State, t: nat)
    requires Inv(v, s) && Enabled(s, Finish(t))
    ensures Poppable(s, Finish(t)) && Inv(v, Step(v, s, Finish(t)))
  {
    hide Held, Ran, Sleepers, Insiders, RoundOk, VerdictOk;
    var s' := Step(v, s, Finish(t));
    var th := s'.threads[t];
    assert ThreadOk(v, s.round.ran, s.threads[t]);
    CountTotals(s.threads, t, th);
    Moved(s.threads, t, th);
    SameRound(v, s, s');
    ThreadsUpdated(v, s, s', t, th);
  }

  lemma ExecuteRound(v: Check -> bool, s: State, t: nat)
    requires RoundOk(v, s) && Enabled(s, Execute(t)) && ThreadOk(v, s.round.ran, s.threads[t])
    ensures RoundOk(v, Step(v, s, Execute(t))) && Held(Step(v, s, Execute(t)).threads) == Held(s.threads)
  {
    hide Held, Ran, HeldBy, RanOf, ThreadOk, AllPass, SomeFail;
    var s', th := Step(v, s, Execute(t)), s.threads[t];
    NextRan(v, s, t);
    HeldTotal(s.threads, t, s'.threads[t]);
    RanTotal(s.threads, t, s'.threads[t]);
    Cancel(Held(s.threads), Held(s'.threads), HeldBy(th));
    if th.fOk {
      Executed(s.round.ran, s.round.completedRan, Ran(s.threads), Ran(s'.threads), RanOf(th), th.batch[th.done]);
      assert !s.fAllOk ==> SomeFail(v, s'.round.ran) by { if !s.fAllOk { FailStays(v, s.round.ran, s'.round.ran); } }
    } else {
      Cancel(Ran(s.threads), Ran(s'.threads), RanOf(th));
    }
  }

  lemma FailStays(v: Check -> bool, m: multiset<Check>, m': multiset<Check>)
    requires SomeFail(v, m) && m <= m'
    ensures SomeFail(v, m')
  {
  }

  lemma NextRan(v: Check -> bool, s: State, t: nat)
    requires Enabled(s, Execute(t)) && ThreadOk(v, s.round.ran, s.threads[t])
    ensures var th, th' := s.threads[t], Step(v, s, Execute(t)).threads[t];
            && HeldBy(th') == HeldBy(th)
            && (th.fOk ==> RanOf(th') == RanOf(th) + multiset{th.batch[th.done]})
            && (!th.fOk ==> RanOf(th') == RanOf(th))
  {
    hide AllPass, SomeFail;
    var th, th' := s.threads[t], Step(v, s, Execute(t)).threads[t];
    assert th'.batch == th.batch;
    if th.fOk {
      assert th'.ran == th.ran + 1 && th.ran == th.done;
      NextPrefix(th.batch, th.ran);
    } else {
      assert th'.ran == th.ran;
    }
  }

  lemma NextPrefix(b: seq<Check>, n: nat)
    requires n < |b|
    ensures multiset(b[..n + 1]) == multiset(b[..n]) + multiset{b[n]}
  {
    assert b[..n + 1] == b[..n] + [b[n]];
  }

  lemma ExecuteThread(v: Check -> bool, s: State, t: nat)
    requires Enabled(s, Execute(t)) && ThreadOk(v, s.round.ran, s.threads[t])
    ensures ThreadOk(v, Step(v, s, Execute(t)).round.ran, Step(v, s, Execute(t)).threads[t])
  {
    var th := s.threads[t];
    if th.fOk {
      assert th.batch[..th.ran + 1] == th.batch[..th.ran] + [th.batch[th.ran]];
      assert !v(th.batch[th.done]) ==> th.batch[th.done] in s.round.ran + multiset{th.batch[th.done]};
    }
  }

  lemma ExecuteKeeps(v: Check -> bool, s: State, t: nat)
    requires Inv(v, s) && Enabled(s, Execute(t))
    ensures Poppable(s, Execute(t)) && Inv(v, Step(v, s, Execute(t)))
  {
    hide Held, Ran, Sleepers, Insiders, VerdictOk, RoundOk, ThreadOk;
    var s' := Step(v, s, Execute(t));
    assert ThreadOk(v, s.round.ran, s.threads[t]);
    CountTotals(s.threads, t, s'.threads[t]);
    ExecuteRound(v, s, t);
    ExecuteThread(v, s, t);
    ThreadsUpdated(v, s, s', t, s'.threads[t]);
  }

  lemma Executed(r: multiset<Check>, c: multiset<Check>, n: multiset<Check>, n': multiset<Check>, b: multiset<Check>, x: Check)
    requires r == c + n && n + (b + multiset{x}) == n' + b
    ensures r + multiset{x} == c + n'
  {
    forall y ensures (r + multiset{x})[y] == (c + n')[y] {
      assert (n + (b + multiset{x}))[y] == (n' + b)[y];
    }
  }

  /** Every step of every thread keeps the invariant, and can be taken: popping never underflows. */
  lemma StepKeeps(v: Check -> bool, s: State, a: Action)
    requires Inv(v, s) && Enabled(s, a)
    ensures Poppable(s, a) && Inv(v, Step(v, s, a))
  {
    hide CountsOk, RoundOk, ThreadsOk, MasterOk, VerdictOk, Mid, CleanUp, Rouse, Attend;
    match a
    case AddChecks(checks) => AddKeeps(v, s, checks);
    case CallWait => WaitKeeps(v, s);
    case Lock(t) => CleanUpKeeps(v, s, t); AttendKeeps(v, CleanUp(s, t), t);
    case Execute(t) => ExecuteKeeps(v, s, t);
    case Finish(t) => FinishKeeps(v, s, t);
    case Wake(t) => RouseKeeps(v, s, t); AttendKeeps(v, Rouse(s, t), t);
  }

  // ----- runs -----

  lemma {:induction false} StartTotals(n: nat)
    ensures var ts := [Outside] + seq(n, i => Entering([], 0, true));
            Held(ts) == multiset{} && Ran(ts) == multiset{} && Sleepers(ts) == 0 && Insiders(ts) == 0
  {
    var ts := [Outside] + seq(n, i => Entering([], 0, true));
    if n == 0 {
      assert ts[..0] == [];
    } else {
      StartTotals(n - 1);
      assert ts[..n] == [Outside] + seq(n - 1, i => Entering([], 0, true));
    }
  }

  lemma StartOk(v: Check -> bool, nBatchSize: nat, n: nat)
    ensures Inv(v, Start(nBatchSize, n))
  {
    StartTotals(n);
  }

  datatype Outcome = Reached(state: State) | NotPossible | Underflow

  /** A schedule names the steps of all threads in the order in which they happen. */
  ghost function Run(v: Check -> bool, s: State, schedule: seq<Action>): Outcome
    decreases |schedule|
  {
    if schedule == [] then Reached(s)
    else if !Enabled(s, schedule[0]) then NotPossible
    else if !Poppable(s, schedule[0]) then Underflow
    else Run(v, Step(v, s, schedule[0]), schedule[1..])
  }

  lemma {:induction false} RunKeeps(v: Check -> bool, s: State, schedule: seq<Action>)
    requires Inv(v, s)
    ensures !Run(v, s, schedule).Underflow?
    ensures Run(v, s, schedule).Reached? ==> Inv(v, Run(v, s, schedule).state)
    decreases |schedule|
  {
    hide Inv, Step, Poppable, Enabled;
    if schedule != [] && Enabled(s, schedule[0]) {
      StepKeeps(v, s, schedule[0]);
      RunKeeps(v, Step(v, s, schedule[0]), schedule[1..]);
    }
  }

  // What the caller of Wait can see: the checks it handed in, the checks that were called, the answers.

  /** The checks an action of the master hands in. */
  function HandedIn(a: Action): multiset<Check> {
    if a.AddChecks? then multiset(a.checks) else multiset{}
  }

  /** All checks that a schedule hands in. */
  function AddedBy(schedule: seq<Action>): multiset<Check> {
    if schedule == [] then multiset{} else HandedIn(schedule[0]) + AddedBy(schedule[1..])
  }

  /** The check that a step calls. */
  function Called(s: State, a: Action): multiset<Check>
    requires Enabled(s, a)
  {
    if a.Execute? && s.threads[a.t].fOk then multiset{s.threads[a.t].batch[s.threads[a.t].done]} else multiset{}
  }

  /** The master leaves Wait in this step. */
  predicate Returned(s: State, t: State) {
    |s.threads| > 0 && |t.threads| > 0 && !s.threads[0].Outside? && t.threads[0].Outside? && t.last.Some?
  }

  /** One return of Wait: the checks handed in since the return before, those called, and the answer. */
  datatype Report = Report(handedIn: multiset<Check>, called: multiset<Check>, fRet: bool)

  ghost function Reports(v: Check -> bool, s: State, schedule: seq<Action>, handedIn: multiset<Check>, called: multiset<Check>)
    : seq<Report>
    requires Run(v, s, schedule).Reached?
    decreases |schedule|
  {
    if schedule == [] then []
    else
      var a := schedule[0];
      var t := Step(v, s, a);
      var h, c := handedIn + HandedIn(a), called + Called(s, a);
      if Returned(s, t) then [Report(h, c, t.last.value.fRet)] + Reports(v, t, schedule[1..], multiset{}, multiset{})
      else Reports(v, t, schedule[1..], h, c)
  }

  /** No check is called twice; true means that all ran and passed, false that one of those called failed. */
  ghost predicate Honest(v: Check -> bool, r: Report) {
    && r.called <= r.handedIn
    && (r.fRet ==> r.called == r.handedIn && AllPass(v, r.handedIn))
    && (!r.fRet ==> SomeFail(v, r.called))
  }

  function TotalHandedIn(rs: seq<Report>): multiset<Check> {
    if rs == [] then multiset{} else rs[0].handedIn + TotalHandedIn(rs[1..])
  }

  /** The record of the round follows what is handed in and called, and a return hands it over. */
  ghost predicate Follows(s: State, t: State, handedIn: multiset<Check>, called: multiset<Check>) {
    if Returned(s, t) then
      && t.last.value.round.added == s.round.added + handedIn
      && t.last.value.round.ran == s.round.ran + called
      && t.round == NO_ROUND
    else
      && t.round.added == s.round.added + handedIn
      && t.round.ran == s.round.ran + called
  }

  lemma RoundStep(v: Check -> bool, s: State, a: Action)
    requires Inv(v, s) && Enabled(s, a) && Poppable(s, a)
    ensures Follows(s, Step(v, s, a), HandedIn(a), Called(s, a))
  {
    hide Inv, Attend, CleanUp, Rouse, Follows, HandedIn, Called, Enabled, Poppable;
    NoCall(s, a);
    if a.Lock? {
      LockRound(s, a.t);
    } else if a.Wake? {
      WakeRound(s, a.t);
    } else {
      OtherRound(v, s, a);
    }
  }

  lemma NoCall(s: State, a: Action)
    requires Enabled(s, a)
    ensures a.Lock? || a.Wake? ==> HandedIn(a) == multiset{} && Called(s, a) == multiset{}
    ensures a.Lock? ==> Enabled(s, Lock(a.t)) && a == Lock(a.t)
    ensures a.Wake? ==> Enabled(s, Wake(a.t)) && a == Wake(a.t)
  {
  }

  lemma OtherRound(v: Check -> bool, s: State, a: Action)
    requires Enabled(s, a) && Poppable(s, a) && !a.Lock? && !a.Wake?
    ensures Follows(s, Step(v, s, a), HandedIn(a), Called(s, a))
  {
    hide Attend, CleanUp, Rouse, Follows, Poppable;
    if a.AddChecks? {
      assert a.checks == [] ==> multiset(a.checks) == multiset{};
      StaysInside(s, Step(v, s, a), HandedIn(a), multiset{});
    } else if a.Execute? {
      StaysInside(s, Step(v, s, a), multiset{}, Called(s, a));
    } else {
      StaysInside(s, Step(v, s, a), multiset{}, multiset{});
    }
  }

  lemma StaysInside(s: State, t: State, handedIn: multiset<Check>, called: multiset<Check>)
    requires |t.threads| == |s.threads| && (|s.threads| > 0 && t.threads[0].Outside? ==> s.threads[0].Outside?)
    requires t.round.added == s.round.added + handedIn && t.round.ran == s.round.ran + called
    ensures Follows(s, t, handedIn, called)
  {
  }

  lemma CleanUpKeepsRound(s: State, t: nat)
    requires Enabled(s, Lock(t))
    ensures var u := CleanUp(s, t);
            && u.round.added == s.round.added && u.round.ran == s.round.ran && |u.threads| == |s.threads|
            && u.threads[0].Outside? == s.threads[0].Outside?
  {
  }

  lemma LockRound(s: State, t: nat)
    requires Enabled(s, Lock(t)) && Poppable(s, Lock(t))
    ensures Follows(s, Attend(CleanUp(s, t), t), multiset{}, multiset{})
  {
    hide Attend, BatchSize, CleanUp;
    CleanUpKeepsRound(s, t);
    AttendRound(CleanUp(s, t), t);
  }

  lemma WakeRound(s: State, t: nat)
    requires Enabled(s, Wake(t)) && Poppable(s, Wake(t))
    ensures Follows(s, Attend(Rouse(s, t), t), multiset{}, multiset{})
  {
    hide Attend, BatchSize;
    AttendRound(Rouse(s, t), t);
  }

  lemma AttendRound(s: State, t: nat)
    requires t < |s.threads| && s.nTotal + s.nIdle + 1 > 0
    requires s.queue != [] ==> BatchSize(s) <= |s.queue|
    ensures var u := Attend(s, t);
            && |u.threads| == |s.threads|
            && if t == 0 && s.queue == [] && s.nTodo == 0 then
                 u.threads[0].Outside? && u.last == Some(Verdict(s.fAllOk, s.round)) && u.round == NO_ROUND
               else
                 u.round == s.round && u.last == s.last && (u.threads[0].Outside? ==> s.threads[0].Outside? && t != 0)
  {
    hide BatchSize, Reversed;
  }

  lemma {:induction false} ReportsHonest(v: Check -> bool, s: State, schedule: seq<Action>)
    requires Inv(v, s) && Run(v, s, schedule).Reached?
    ensures var rs := Reports(v, s, schedule, s.round.added, s.round.ran);
            && (forall i :: 0 <= i < |rs| ==> Honest(v, rs[i]))
            && TotalHandedIn(rs) + Run(v, s, schedule).state.round.added == s.round.added + AddedBy(schedule)
    decreases |schedule|
  {
    hide CountsOk, RoundOk, ThreadsOk, MasterOk, Step, Poppable, Enabled, HandedIn, Called, Honest;
    if schedule != [] {
      var a, rest := schedule[0], schedule[1..];
      var t := Step(v, s, a);
      StepKeeps(v, s, a);
      RoundStep(v, s, a);
      ReportsHonest(v, t, rest);
      var rs := Reports(v, s, schedule, s.round.added, s.round.ran);
      if Returned(s, t) {
        var r := Report(s.round.added + HandedIn(a), s.round.ran + Called(s, a), t.last.value.fRet);
        HonestVerdict(v, t, r);
        var more := Reports(v, t, rest, multiset{}, multiset{});
        assert rs == [r] + more && rs[0] == r && rs[1..] == more;
        assert TotalHandedIn(rs) == r.handedIn + TotalHandedIn(more);
        assert Run(v, s, schedule) == Run(v, t, rest) && AddedBy(schedule) == HandedIn(a) + AddedBy(rest);
        Accounts(TotalHandedIn(more), Run(v, t, rest).state.round.added, AddedBy(rest), r.handedIn);
      } else {
        assert AddedBy(schedule) == HandedIn(a) + AddedBy(rest);
      }
    }
  }

  lemma Accounts(more: multiset<Check>, open_: multiset<Check>, added: multiset<Check>, x: multiset<Check>)
    requires more + open_ == added
    ensures (x + more) + open_ == x + added
  {
    assert (x + more) + open_ == x + (more + open_);
  }

  lemma HonestVerdict(v: Check -> bool, t: State, r: Report)
    requires VerdictOk(v, t.last) && t.last.Some? && r.fRet == t.last.value.fRet
    requires r.handedIn == t.last.value.round.added && r.called == t.last.value.round.ran
    ensures Honest(v, r)
  {
  }

  /**
   * In every interleaving of the master and any number of workers: the queue never underflows, every
   * return of Wait is honest about the checks handed in since the return before, and the checks handed
   * in by the schedule are those of the returns and those of the round that is still open.
   */
  lemma WaitIsSound(v: Check -> bool, nBatchSize: nat, n: nat, schedule: seq<Action>)
    ensures !Run(v, Start(nBatchSize, n), schedule).Underflow?
    ensures Run(v, Start(nBatchSize, n), schedule).Reached? ==>
              var rs := Reports(v, Start(nBatchSize, n), schedule, multiset{}, multiset{});
              && (forall i :: 0 <= i < |rs| ==> Honest(v, rs[i]))
              && TotalHandedIn(rs) + Run(v, Start(nBatchSize, n), schedule).state.round.added == AddedBy(schedule)
  {
    hide Step, Poppable, Enabled, Honest, Inv;
    StartOk(v, nBatchSize, n);
    RunKeeps(v, Start(nBatchSize, n), schedule);
    if Run(v, Start(nBatchSize, n), schedule).Reached? { ReportsHonest(v, Start(nBatchSize, n), schedule); }
  }

  /** A failing check handed in is reported: Wait does not return true over it. */
  lemma FailureIsReported(v: Check -> bool, nBatchSize: nat, n: nat, schedule: seq<Action>, c: Check)
    requires Run(v, Start(nBatchSize, n), schedule).Reached? && !v(c)
    ensures var rs := Reports(v, Start(nBatchSize, n), schedule, multiset{}, multiset{});
            forall i :: 0 <= i < |rs| && c in rs[i].handedIn ==> !rs[i].fRet
  {
    hide Run, Reports;
    WaitIsSound(v, nBatchSize, n, schedule);
    var rs := Reports(v, Start(nBatchSize, n), schedule, multiset{}, multiset{});
    forall i | 0 <= i < |rs| && c in rs[i].handedIn ensures !rs[i].fRet {
      assert Honest(v, rs[i]);
    }
  }

  /** The share of the queue a thread takes: the largest that leaves as much for each of the others. */
  lemma BatchIsFair(s: State)
    requires s.nTotal + s.nIdle + 1 > 0
    ensures var b, others := BatchSize(s), s.nTotal + s.nIdle + 1;
            && 1 <= b <= Max(1, s.nBatchSize)
            && (b == 1 || b * others <= |s.queue|)
            && (b == Max(1, s.nBatchSize) || (b + 1) * others > |s.queue|)
  {
    var others := s.nTotal + s.nIdle + 1;
    var share := |s.queue| / others;
    assert share * others <= |s.queue| < (share + 1) * others;
    var b := BatchSize(s);
    if b < share { Bits.MulMonotone(b, share, others); }
    if share < b { Bits.MulMonotone(share + 1, b + 1, others); }
  }

  // ----- progress -----

  /** A sleeping master without a notification waits for a worker that still holds a batch. */
  lemma SleeperIsOwed(v: Check -> bool, s: State) returns (i: nat)
    requires Inv(v, s) && s.threads[0].Asleep? && !s.notified
    ensures 0 < i < |s.threads| && (s.threads[i].Working? || s.threads[i].Entering?) && s.threads[i].batch != []
  {
    hide Held, Ran, Sleepers, Insiders, RoundOk, VerdictOk;
    assert |Held(s.threads)| > 0;
    i := HeldFrom(s.threads);
  }

  /** A step that does work: any but adding, calling Wait, and waking up for nothing. */
  predicate Productive(s: State, a: Action) {
    && Enabled(s, a)
    && (a.Lock? || a.Execute? || a.Finish? || (a.Wake? && (s.queue != [] || (a.t == 0 && s.nTodo == 0))))
  }

  lemma SpuriousWakeIdles(v: Check -> bool, s: State, t: nat)
    requires Inv(v, s) && Enabled(s, Wake(t)) && !Productive(s, Wake(t))
    ensures Poppable(s, Wake(t)) && Step(v, s, Wake(t)) == s
  {
    hide Held, Ran, Sleepers, Insiders, RoundOk, VerdictOk;
    StepKeeps(v, s, Wake(t));
    assert s.threads[t := Entering([], 0, true)][t := Asleep] == s.threads;
  }

  /** While Wait has not returned, some thread can do work: there is no deadlock. */
  lemma WaitCanProceed(v: Check -> bool, s: State) returns (a: Action)
    requires Inv(v, s) && !s.threads[0].Outside?
    ensures Productive(s, a)
  {
    hide Held, Ran, Sleepers, Insiders, RoundOk, VerdictOk;
    var i := 0;
    if s.threads[0].Asleep? && !s.notified { i := SleeperIsOwed(v, s); }
    var th := s.threads[i];
    assert ThreadOk(v, s.round.ran, th);
    a := if th.Entering? then Lock(i)
         else if th.Asleep? then Wake(i)
         else if th.done < |th.batch| then Execute(i)
         else Finish(i);
  }

  function Weight(th: Thread): nat {
    match th
    case Outside => 0
    case Asleep => 1
    case Entering(_, _, _) => 2
    case Working(batch, done, _, _) => 3 + if done <= |batch| then |batch| - done else 0
  }

  function Weights(ts: seq<Thread>): nat {
    if ts == [] then 0 else Weights(ts[..|ts| - 1]) + Weight(ts[|ts| - 1])
  }

  lemma {:induction false} WeightsUpdate(ts: seq<Thread>, i: nat, th: Thread)
    requires i < |ts|
    ensures Weights(ts[i := th]) == Weights(ts) + Weight(th) - Weight(ts[i])
  {
    hide Weight;
    var n := |ts| - 1;
    if i == n {
      assert ts[i := th][..n] == ts[..n];
    } else {
      WeightsUpdate(ts[..n], i, th);
      assert ts[i := th][..n] == ts[..n][i := th];
    }
  }

  /** The work left before everything is at rest. */
  function WorkLeft(s: State): nat {
    5 * |s.queue| + Weights(s.threads)
  }

  lemma AttendWorks(s: State, t: nat)
    requires t < |s.threads| && s.threads[t] == Entering([], 0, true) && s.nTotal + s.nIdle + 1 > 0
    requires s.queue != [] ==> 0 < BatchSize(s) <= |s.queue|
    ensures WorkLeft(Attend(s, t)) < WorkLeft(s)
    ensures s.queue != [] || (t == 0 && s.nTodo == 0) ==> WorkLeft(Attend(s, t)) < WorkLeft(s) - 1
  {
    hide Weights, BatchSize;
    WeightsUpdate(s.threads, t, Attend(s, t).threads[t]);
  }

  lemma LockWorks(v: Check -> bool, s: State, t: nat)
    requires Inv(v, s) && Enabled(s, Lock(t)) && Poppable(s, Lock(t))
    ensures WorkLeft(Step(v, s, Lock(t))) < WorkLeft(s)
  {
    hide Held, Ran, Sleepers, Insiders, Inv, Weights, BatchSize, Attend;
    WeightsUpdate(s.threads, t, Entering([], 0, true));
    EnteringIdle(v, s, t);
    assert Weights(CleanUp(s, t).threads) == Weights(s.threads);
    PopPositive(CleanUp(s, t));
    AttendWorks(CleanUp(s, t), t);
  }

  lemma WakeWorks(v: Check -> bool, s: State, t: nat)
    requires Productive(s, Wake(t)) && Poppable(s, Wake(t))
    ensures WorkLeft(Step(v, s, Wake(t))) < WorkLeft(s)
  {
    hide Weights, BatchSize, Attend;
    WeightsUpdate(s.threads, t, Entering([], 0, true));
    PopPositive(Rouse(s, t));
    AttendWorks(Rouse(s, t), t);
  }

  lemma ProductiveWorks(v: Check -> bool, s: State, a: Action)
    requires Inv(v, s) && Productive(s, a)
    ensures Poppable(s, a) && WorkLeft(Step(v, s, a)) < WorkLeft(s)
  {
    hide Inv, Weights, BatchSize, Attend, CleanUp, Rouse;
    StepKeeps(v, s, a);
    if a.Lock? {
      LockWorks(v, s, a.t);
    } else if a.Wake? {
      WakeWorks(v, s, a.t);
    } else {
      WeightsUpdate(s.threads, a.t, Step(v, s, a).threads[a.t]);
    }
  }

  lemma EnteringIdle(v: Check -> bool, s: State, t: nat)
    requires Inv(v, s) && Enabled(s, Lock(t))
    ensures CleanUp(s, t).threads[t] == Entering([], 0, true)
  {
    CleanUpKeeps(v, s, t);
  }

  /** How many steps of a schedule do work. */
  ghost function WorkDone(v: Check -> bool, s: State, schedule: seq<Action>): nat
    requires Run(v, s, schedule).Reached?
    decreases |schedule|
  {
    if schedule == [] then 0
    else (if Productive(s, schedule[0]) then 1 else 0) + WorkDone(v, Step(v, s, schedule[0]), schedule[1..])
  }

  /** The master adds nothing and does not call Wait again. */
  predicate NoNewWork(schedule: seq<Action>) {
    forall i :: 0 <= i < |schedule| ==> !schedule[i].AddChecks? && !schedule[i].CallWait?
  }

  /** However the threads are scheduled and woken, the working steps are paid for by the work there was. */
  lemma {:induction false} WorkRunsOut(v: Check -> bool, s: State, schedule: seq<Action>)
    requires Inv(v, s) && Run(v, s, schedule).Reached? && NoNewWork(schedule)
    ensures WorkDone(v, s, schedule) + WorkLeft(Run(v, s, schedule).state) <= WorkLeft(s)
    decreases |schedule|
  {
    hide Inv, WorkLeft, Step, Poppable, Enabled;
    if schedule != [] {
      var a := schedule[0];
      StepKeeps(v, s, a);
      if Productive(s, a) {
        ProductiveWorks(v, s, a);
      } else {
        assert a.Wake?;
        SpuriousWakeIdles(v, s, a.t);
      }
      WorkRunsOut(v, Step(v, s, a), schedule[1..]);
    }
  }

  /**
   * Wait returns: a schedule that cannot be continued with a working step, and one that has done all
   * the work there was, leave the master outside.
   */
  lemma MaximalRunReturns(v: Check -> bool, s: State, schedule: seq<Action>)
    requires Inv(v, s) && Run(v, s, schedule).Reached? && NoNewWork(schedule)
    ensures var t := Run(v, s, schedule).state;
            |t.threads| > 0 &&
            ((forall a :: !Productive(t, a)) || WorkDone(v, s, schedule) == WorkLeft(s) ==> t.threads[0].Outside?)
  {
    hide Held, Ran, Sleepers, Insiders, RoundOk, VerdictOk, WorkLeft, Productive;
    RunKeeps(v, s, schedule);
    WorkRunsOut(v, s, schedule);
    var t := Run(v, s, schedule).state;
    if !t.threads[0].Outside? {
      var a := WaitCanProceed(v, t);
      ProductiveWorks(v, t, a);
    }
  }
}
