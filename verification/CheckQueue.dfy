/**
 The parallel check queue (src/checkqueue.h) as an interleaved transition system.

 A step is one critical section of one thread, one check run outside the lock, or one notification.
 Thread 0 is the master; the others are workers.  Condition variables may wake spuriously, but no
 liveness claim below relies on that.
 */
module CheckQueue {
  import opened Basics

  /** A verification, identified with the answer its operator() gives. */
  datatype Check = Check(id: nat, ok: bool)

  predicate AllOk(cs: seq<Check>) {
    forall i | 0 <= i < |cs| :: cs[i].ok
  }

  /** Where a thread stands in Loop. */
  datatype Thread =
    | Outside                                              // master only: not in Wait
    | Adding(size: nat)                                    // master only: in Add, between unlock and notify
    | Start                                                // about to enter Loop's first critical section
    | Blocked                                              // in cond.wait
    | Woken                                                // notified, about to take the mutex again
    | Holding                                              // holds the mutex (only within a step)
    | Working(vChecks: seq<Check>, nNow: nat, fOk: bool)   // running its batch; vChecks are those left

  /** `added` and `verdicts` are history: this round's checks, and the finished rounds with their answers. */
  datatype Queue = Queue(
    queue: seq<Check>,
    nIdle: int,
    nTotal: int,
    fAllOk: bool,
    nTodo: int,
    threads: seq<Thread>,
    added: seq<Check>,
    verdicts: seq<(seq<Check>, bool)>)

  datatype Step =
    | Add(checks: seq<Check>)
    | NotifyOne(worker: nat)
    | NotifyNobody
    | NotifyAll
    | Wait
    | Critical(thread: nat)
    | RunCheck(thread: nat)
    | WakeSpuriously(thread: nat)

  function Init(workers: nat): Queue {
    Queue([], 0, 0, true, 0, [Outside] + seq(workers, _ => Start), [], [])
  }

  // ---------- steps ----------

  lemma QuotientBound(n: nat, d: nat)
    requires d > 0
    ensures 0 <= n / d <= n
  {
    var q, r := n / d, n % d;
    ProductAtLeast(d, q);
    assert n == d * q + r;
  }

  lemma ProductAtLeast(d: nat, q: int)
    requires d > 0
    ensures q >= 0 ==> d * q >= q
    ensures q < 0 ==> d * q <= q
  {
    assert d * q == q + (d - 1) * q;
  }

  /** How many checks a thread takes at once; the divisor is positive whenever the counters are exact. */
  function BatchSize(nBatchSize: nat, s: Queue): (n: nat)
    requires s.queue != []
    ensures 1 <= n <= |s.queue|
  {
    var pool := s.nTotal + s.nIdle + 1;
    QuotientBound(|s.queue|, if pool > 0 then pool else 1);
    Max(1, Min(nBatchSize, if pool > 0 then |s.queue| / pool else 1))
  }

  predicate AtMutex(t: Thread) {
    t.Start? || t.Woken? || (t.Working? && t.vChecks == [])
  }

  predicate Enabled(s: Queue, step: Step) {
    |s.threads| > 0 &&
    match step
    case Add(checks) => s.threads[0].Outside? && checks != []
    case NotifyOne(w) => s.threads[0] == Adding(1) && 0 < w < |s.threads| && s.threads[w].Blocked?
    case NotifyNobody => s.threads[0] == Adding(1) && forall w | 0 < w < |s.threads| :: !s.threads[w].Blocked?
    case NotifyAll => s.threads[0].Adding? && s.threads[0].size != 1
    case Wait => s.threads[0].Outside?
    case Critical(t) => t < |s.threads| && AtMutex(s.threads[t])
    case RunCheck(t) => t < |s.threads| && s.threads[t].Working? && s.threads[t].vChecks != []
    case WakeSpuriously(t) => t < |s.threads| && s.threads[t].Blocked?
  }

  function Wake(ts: seq<Thread>): seq<Thread> {
    seq(|ts|, i requires 0 <= i < |ts| => if i > 0 && ts[i].Blocked? then Woken else ts[i])
  }

  /** What a thread does first under the lock: settle its last batch, join the pool, or stop idling. */
  function Settle(s: Queue, t: nat): Queue
    requires t < |s.threads|
  {
    match s.threads[t]
    case Working(_, nNow, fOk) =>
      var todo := s.nTodo - nNow;
      var ts := if todo == 0 && t != 0 && s.threads[0].Blocked? then s.threads[0 := Woken] else s.threads;
      s.(fAllOk := s.fAllOk && fOk, nTodo := todo, threads := ts[t := Holding])
    case Start => s.(nTotal := s.nTotal + 1, threads := s.threads[t := Holding])
    case _ => s.(nIdle := s.nIdle - 1, threads := s.threads[t := Holding])
  }

  predicate Returns(v: Queue, t: nat) {
    t == 0 && v.queue == [] && v.nTodo == 0
  }

  /** The rest of a critical section of Loop, up to the wait, the return or the unlock before a batch. */
  function Decide(nBatchSize: nat, v: Queue, t: nat): Queue
    requires t < |v.threads|
  {
    if v.queue == [] then
      if Returns(v, t) then
        v.(nTotal := v.nTotal - 1, fAllOk := true, threads := v.threads[t := Outside],
           added := [], verdicts := v.verdicts + [(v.added, v.fAllOk)])
      else
        v.(nIdle := v.nIdle + 1, threads := v.threads[t := Blocked])
    else
      var n := BatchSize(nBatchSize, v);
      v.(queue := v.queue[..|v.queue| - n],
         threads := v.threads[t := Working(v.queue[|v.queue| - n..], n, v.fAllOk)])
  }

  function Next(nBatchSize: nat, s: Queue, step: Step): Queue
    requires Enabled(s, step)
  {
    match step
    case Add(checks) =>
      s.(queue := s.queue + checks, nTodo := s.nTodo + |checks|, added := s.added + checks,
         threads := s.threads[0 := Adding(|checks|)])
    case NotifyOne(w) => s.(threads := s.threads[0 := Outside][w := Woken])
    case NotifyNobody => s.(threads := s.threads[0 := Outside])
    case NotifyAll => s.(threads := Wake(s.threads)[0 := Outside])
    case Wait => s.(threads := s.threads[0 := Start])
    case Critical(t) => Decide(nBatchSize, Settle(s, t), t)
    case RunCheck(t) =>
      var w := s.threads[t];
      var fOk := if w.fOk then w.vChecks[0].ok else w.fOk;
      s.(threads := s.threads[t := Working(w.vChecks[1..], w.nNow, fOk)])
    case WakeSpuriously(t) => s.(threads := s.threads[t := Woken])
  }

  // ---------- the invariant ----------

  function InFlight(t: Thread): int { if t.Working? then t.nNow else 0 }
  function Idle(t: Thread): int { if t.Blocked? || t.Woken? then 1 else 0 }
  function InLoop(t: Thread): int { if t.Blocked? || t.Woken? || t.Working? then 1 else 0 }

  function Sum(f: Thread -> int, ts: seq<Thread>): int {
    if ts == [] then 0 else f(ts[0]) + Sum(f, ts[1..])
  }

  predicate WellFormed(ts: seq<Thread>) {
    && |ts| > 0
    && (forall i | 0 < i < |ts| :: !ts[i].Outside? && !ts[i].Adding?)
    && (forall i | 0 <= i < |ts| :: !ts[i].Holding? && (ts[i].Working? ==> ts[i].nNow >= 1))
  }

  /** Nothing that will still be folded into the verdict is a failure. */
  predicate Promising(s: Queue) {
    && s.fAllOk
    && AllOk(s.queue)
    && forall i | 0 <= i < |s.threads| && s.threads[i].Working? :: s.threads[i].fOk && AllOk(s.threads[i].vChecks)
  }

  /** A blocked master has work to wait for; queued work has a worker to take it. */
  predicate NoLostWakeup(s: Queue)
    requires |s.threads| > 0
  {
    && (s.threads[0].Blocked? ==> s.queue == [] && s.nTodo > 0)
    && (|s.threads| > 1 && s.queue != [] && !s.threads[0].Adding?
        ==> exists i | 0 < i < |s.threads| :: !s.threads[i].Blocked?)
  }

  predicate Counted(s: Queue) {
    && s.nTodo == |s.queue| + Sum(InFlight, s.threads)
    && s.nIdle == Sum(Idle, s.threads)
    && s.nTotal == Sum(InLoop, s.threads)
  }

  predicate VerdictsExact(s: Queue) {
    forall i | 0 <= i < |s.verdicts| :: s.verdicts[i].1 == AllOk(s.verdicts[i].0)
  }

  predicate Inv(s: Queue) {
    && WellFormed(s.threads)
    && Counted(s)
    && (Promising(s) <==> AllOk(s.added))
    && NoLostWakeup(s)
    && VerdictsExact(s)
  }

  // ---------- sums over threads ----------

  lemma {:induction false} SumUpdate(f: Thread -> int, ts: seq<Thread>, t: nat, p: Thread)
    requires t < |ts|
    ensures Sum(f, ts[t := p]) == Sum(f, ts) - f(ts[t]) + f(p)
  {
    if t > 0 {
      assert ts[t := p][1..] == ts[1..][t - 1 := p];
      SumUpdate(f, ts[1..], t - 1, p);
    } else {
      assert ts[t := p][1..] == ts[1..];
    }
  }

  lemma {:induction false} SumSame(f: Thread -> int, ts: seq<Thread>, us: seq<Thread>)
    requires |ts| == |us| && forall i | 0 <= i < |ts| :: f(ts[i]) == f(us[i])
    ensures Sum(f, ts) == Sum(f, us)
  {
    if ts != [] { SumSame(f, ts[1..], us[1..]); }
  }

  lemma {:induction false} SumAtLeast(f: Thread -> int, ts: seq<Thread>, t: nat)
    requires t < |ts| && forall i | 0 <= i < |ts| :: f(ts[i]) >= 0
    ensures Sum(f, ts) >= f(ts[t])
  {
    if t > 0 { SumAtLeast(f, ts[1..], t - 1); } else { SumNonNegative(f, ts[1..]); }
  }

  lemma {:induction false} SumNonNegative(f: Thread -> int, ts: seq<Thread>)
    requires forall i | 0 <= i < |ts| :: f(ts[i]) >= 0
    ensures Sum(f, ts) >= 0
  {
    if ts != [] { SumNonNegative(f, ts[1..]); }
  }

  lemma {:induction false} SumPositive(f: Thread -> int, ts: seq<Thread>) returns (t: nat)
    requires Sum(f, ts) > 0
    ensures t < |ts| && f(ts[t]) > 0
  {
    if f(ts[0]) > 0 {
      t := 0;
    } else {
      var t' := SumPositive(f, ts[1..]);
      t := t' + 1;
    }
  }

  lemma CountsUpdate(ts: seq<Thread>, t: nat, p: Thread)
    requires t < |ts|
    ensures Sum(InFlight, ts[t := p]) == Sum(InFlight, ts) - InFlight(ts[t]) + InFlight(p)
    ensures Sum(Idle, ts[t := p]) == Sum(Idle, ts) - Idle(ts[t]) + Idle(p)
    ensures Sum(InLoop, ts[t := p]) == Sum(InLoop, ts) - InLoop(ts[t]) + InLoop(p)
  {
    SumUpdate(InFlight, ts, t, p);
    SumUpdate(Idle, ts, t, p);
    SumUpdate(InLoop, ts, t, p);
  }

  // ---------- every step keeps the invariant ----------

  lemma InitInv(workers: nat)
    ensures Inv(Init(workers))
  {
    var ts := Init(workers).threads;
    InitSums(InFlight, ts);
    InitSums(Idle, ts);
    InitSums(InLoop, ts);
  }

  lemma {:induction false} InitSums(f: Thread -> int, ts: seq<Thread>)
    requires forall i | 0 <= i < |ts| :: f(ts[i]) == 0
    ensures Sum(f, ts) == 0
  {
    if ts != [] { InitSums(f, ts[1..]); }
  }

  lemma AllOkConcat(a: seq<Check>, b: seq<Check>)
    ensures AllOk(a + b) <==> AllOk(a) && AllOk(b)
  {
    if AllOk(a + b) {
      forall i | 0 <= i < |a| ensures a[i].ok { assert (a + b)[i].ok; }
      forall i | 0 <= i < |b| ensures b[i].ok { assert (a + b)[|a| + i].ok; }
    }
  }

  lemma AddKeepsInv(nBatchSize: nat, s: Queue, checks: seq<Check>)
    requires Inv(s) && Enabled(s, Add(checks))
    ensures Inv(Next(nBatchSize, s, Add(checks)))
  {
    CountsUpdate(s.threads, 0, Adding(|checks|));
    AllOkConcat(s.queue, checks);
    AllOkConcat(s.added, checks);
    var s' := Next(nBatchSize, s, Add(checks));
    assert Promising(s') <==> Promising(s) && AllOk(checks) by { SameWork(s, s'); }
  }

  /** The threads' share of Promising, for states whose working threads are the same. */
  ghost predicate ThreadsPromising(ts: seq<Thread>) {
    forall i | 0 <= i < |ts| && ts[i].Working? :: ts[i].fOk && AllOk(ts[i].vChecks)
  }

  lemma SameWork(s: Queue, s': Queue)
    requires |s.threads| == |s'.threads|
    requires forall i | 0 <= i < |s.threads| ::
      (s.threads[i].Working? || s'.threads[i].Working?) ==> s.threads[i] == s'.threads[i]
    ensures ThreadsPromising(s.threads) <==> ThreadsPromising(s'.threads)
  {
    if ThreadsPromising(s.threads) {
      forall i | 0 <= i < |s'.threads| && s'.threads[i].Working?
        ensures s'.threads[i].fOk && AllOk(s'.threads[i].vChecks)
      {
        assert s.threads[i] == s'.threads[i];
      }
    }
  }

  lemma NotifyKeepsInv(nBatchSize: nat, s: Queue, step: Step)
    requires Inv(s) && Enabled(s, step)
    requires step.NotifyOne? || step.NotifyNobody? || step.NotifyAll?
    ensures Inv(Next(nBatchSize, s, step))
  {
    var s' := Next(nBatchSize, s, step);
    WokenKeepsInv(s, s', if step.NotifyOne? then step.worker else 1);
  }

  lemma WokenKeepsInv(s: Queue, s': Queue, w: nat)
    requires Inv(s) && s.threads[0].Adding? && s' == s.(threads := s'.threads)
    requires |s.threads| == |s'.threads| && s'.threads[0].Outside?
    requires forall i | 0 < i < |s.threads| ::
      s'.threads[i] == s.threads[i] || (s.threads[i].Blocked? && s'.threads[i].Woken?)
    requires |s.threads| > 1 ==> 0 < w < |s.threads| && !s'.threads[w].Blocked?
    ensures Inv(s')
  {
    SumSame(InFlight, s.threads, s'.threads);
    SumSame(Idle, s.threads, s'.threads);
    SumSame(InLoop, s.threads, s'.threads);
    SameWork(s, s');
  }

  lemma RunCheckKeepsInv(nBatchSize: nat, s: Queue, t: nat)
    requires Inv(s) && Enabled(s, RunCheck(t))
    ensures Inv(Next(nBatchSize, s, RunCheck(t)))
  {
    var s' := Next(nBatchSize, s, RunCheck(t));
    CountsUpdate(s.threads, t, s'.threads[t]);
    var w, w' := s.threads[t], s'.threads[t];
    assert w.vChecks == [w.vChecks[0]] + w'.vChecks;
    AllOkConcat([w.vChecks[0]], w'.vChecks);
    assert AllOk([w.vChecks[0]]) <==> w.vChecks[0].ok;
    assert (w.fOk && AllOk(w.vChecks)) <==> (w'.fOk && AllOk(w'.vChecks));
    PromisingElsewhere(s, s', t);
    WakersSame(s, s');
  }

  lemma PromisingElsewhere(s: Queue, s': Queue, t: nat)
    requires |s.threads| == |s'.threads| && t < |s.threads|
    requires forall i | 0 <= i < |s.threads| && i != t ::
      s.threads[i].Working? || s'.threads[i].Working? ==> s.threads[i] == s'.threads[i]
    requires (s.threads[t].Working? ==> s.threads[t].fOk && AllOk(s.threads[t].vChecks))
        <==> (s'.threads[t].Working? ==> s'.threads[t].fOk && AllOk(s'.threads[t].vChecks))
    ensures ThreadsPromising(s.threads) <==> ThreadsPromising(s'.threads)
  {
    if ThreadsPromising(s.threads) {
      forall i | 0 <= i < |s'.threads| && s'.threads[i].Working?
        ensures s'.threads[i].fOk && AllOk(s'.threads[i].vChecks)
      {
        if i != t { assert s.threads[i] == s'.threads[i]; }
      }
    }
    if ThreadsPromising(s'.threads) {
      forall i | 0 <= i < |s.threads| && s.threads[i].Working?
        ensures s.threads[i].fOk && AllOk(s.threads[i].vChecks)
      {
        if i != t { assert s.threads[i] == s'.threads[i]; }
      }
    }
  }

  lemma WakersSame(s: Queue, s': Queue)
    requires |s.threads| == |s'.threads| > 0 && NoLostWakeup(s) && s.queue == s'.queue && s.nTodo == s'.nTodo
    requires forall i | 0 <= i < |s.threads| :: s'.threads[i].Blocked? ==> s.threads[i].Blocked?
    requires s.threads[0].Adding? ==> s'.threads[0].Adding?
    ensures NoLostWakeup(s')
  {
    if |s.threads| > 1 && s'.queue != [] && !s'.threads[0].Adding? {
      var i :| 0 < i < |s.threads| && !s.threads[i].Blocked?;
      assert !s'.threads[i].Blocked?;
    }
  }

  lemma WakeOrWaitKeepsInv(nBatchSize: nat, s: Queue, step: Step)
    requires Inv(s) && Enabled(s, step) && (step.WakeSpuriously? || step.Wait?)
    ensures Inv(Next(nBatchSize, s, step))
  {
    var s' := Next(nBatchSize, s, step);
    var t := if step.Wait? then 0 else step.thread;
    CountsUpdate(s.threads, t, s'.threads[t]);
    SameWork(s, s');
    WakersSame(s, s');
  }

  // ---------- the critical section ----------

  /** What holds under the lock once thread `t` has settled and before it decides what to do. */
  ghost predicate Balanced(v: Queue, t: nat) {
    && t < |v.threads| && v.threads[t].Holding?
    && (forall i | 0 < i < |v.threads| :: !v.threads[i].Outside? && !v.threads[i].Adding?)
    && (forall i | 0 <= i < |v.threads| ::
         (v.threads[i].Holding? ==> i == t) && (v.threads[i].Working? ==> v.threads[i].nNow >= 1))
    && v.nTodo == |v.queue| + Sum(InFlight, v.threads)
    && v.nIdle == Sum(Idle, v.threads)
    && v.nTotal == Sum(InLoop, v.threads) + 1
    && (Promising(v) <==> AllOk(v.added))
    && VerdictsExact(v)
  }

  lemma SettleCounts(s: Queue, t: nat)
    requires WellFormed(s.threads) && Counted(s) && t < |s.threads| && AtMutex(s.threads[t])
    ensures var v := Settle(s, t);
      && v.nTodo == |v.queue| + Sum(InFlight, v.threads)
      && v.nIdle == Sum(Idle, v.threads)
      && v.nTotal == Sum(InLoop, v.threads) + 1
  {
    var ts := if t > 0 && s.threads[0].Blocked? && Settle(s, t).threads[0].Woken?
              then s.threads[0 := Woken] else s.threads;
    CountsUpdate(s.threads, 0, Woken);
    CountsUpdate(ts, t, Holding);
  }

  lemma SettlePromise(s: Queue, t: nat)
    requires WellFormed(s.threads) && t < |s.threads| && AtMutex(s.threads[t])
    ensures Promising(Settle(s, t)) <==> Promising(s)
  {
    var v := Settle(s, t);
    var w := if s.threads[t].Working? then s.threads[t].fOk else true;
    assert v.fAllOk == (s.fAllOk && w);
    assert ThreadsPromising(s.threads) ==> w;
    if w { PromisingElsewhere(s, v, t); }
  }

  lemma SettleIsBalanced(s: Queue, t: nat)
    requires Inv(s) && t < |s.threads| && AtMutex(s.threads[t])
    ensures Balanced(Settle(s, t), t)
    ensures t > 0 && Settle(s, t).threads[0].Blocked? ==> Settle(s, t).nTodo != 0
  {
    SettleCounts(s, t);
    SettlePromise(s, t);
  }

  lemma NobodyInFlight(v: Queue, t: nat)
    requires Balanced(v, t) && v.queue == [] && v.nTodo == 0
    ensures forall i | 0 <= i < |v.threads| :: !v.threads[i].Working?
    ensures Promising(v) <==> v.fAllOk
  {
    forall i | 0 <= i < |v.threads| ensures !v.threads[i].Working? {
      SumAtLeast(InFlight, v.threads, i);
    }
  }

  lemma CriticalKeepsInv(nBatchSize: nat, s: Queue, t: nat)
    requires Inv(s) && Enabled(s, Critical(t))
    ensures Inv(Next(nBatchSize, s, Critical(t)))
  {
    var v := Settle(s, t);
    SettleIsBalanced(s, t);
    if v.queue != [] {
      WorkerAwake(s, t);
      TakeKeepsInv(nBatchSize, v, t);
    } else if Returns(v, t) {
      ReturnKeepsInv(nBatchSize, v);
    } else {
      SumNonNegative(InFlight, v.threads);
      BlockKeepsInv(nBatchSize, v, t);
    }
  }

  lemma WorkerAwake(s: Queue, t: nat)
    requires Inv(s) && t < |s.threads| && AtMutex(s.threads[t]) && s.queue != []
    ensures |s.threads| > 1 ==> t > 0 || exists i | 0 < i < |s.threads| :: !Settle(s, t).threads[i].Blocked?
    ensures !Settle(s, t).threads[0].Blocked?
  {
    if |s.threads| > 1 && t == 0 {
      var i :| 0 < i < |s.threads| && !s.threads[i].Blocked?;
      assert !Settle(s, t).threads[i].Blocked?;
    }
  }

  lemma ReturnKeepsInv(nBatchSize: nat, v: Queue)
    requires Balanced(v, 0) && Returns(v, 0)
    ensures Inv(Decide(nBatchSize, v, 0))
  {
    NobodyInFlight(v, 0);
    CountsUpdate(v.threads, 0, Outside);
  }

  lemma BlockKeepsInv(nBatchSize: nat, v: Queue, t: nat)
    requires Balanced(v, t) && v.queue == [] && !Returns(v, t)
    requires (t == 0 || v.threads[0].Blocked?) ==> v.nTodo > 0
    ensures Inv(Decide(nBatchSize, v, t))
  {
    CountsUpdate(v.threads, t, Blocked);
    SameWork(v, Decide(nBatchSize, v, t));
  }

  lemma TakeKeepsInv(nBatchSize: nat, v: Queue, t: nat)
    requires Balanced(v, t) && v.queue != [] && !v.threads[0].Blocked?
    requires |v.threads| > 1 ==> t > 0 || exists i | 0 < i < |v.threads| :: !v.threads[i].Blocked?
    ensures Inv(Decide(nBatchSize, v, t))
  {
    var s' := Decide(nBatchSize, v, t);
    var w := s'.threads[t];
    CountsUpdate(v.threads, t, w);
    assert v.queue == s'.queue + w.vChecks;
    AllOkConcat(s'.queue, w.vChecks);
    TakePromise(v, s', t);
    if |v.threads| > 1 {
      if t > 0 {
        assert !s'.threads[t].Blocked?;
      } else {
        var i :| 0 < i < |v.threads| && !v.threads[i].Blocked?;
        assert s'.threads[i] == v.threads[i];
      }
    }
  }

  lemma TakePromise(v: Queue, s': Queue, t: nat)
    requires t < |v.threads| == |s'.threads| && v.threads[t].Holding? && s'.threads == v.threads[t := s'.threads[t]]
    requires s'.threads[t].Working? && s'.threads[t].fOk == v.fAllOk == s'.fAllOk
    requires AllOk(v.queue) <==> AllOk(s'.queue) && AllOk(s'.threads[t].vChecks)
    ensures Promising(v) <==> Promising(s')
  {
    if v.fAllOk && AllOk(s'.threads[t].vChecks) { PromisingElsewhere(v, s', t); }
  }

  lemma StepKeepsInv(nBatchSize: nat, s: Queue, step: Step)
    requires Inv(s) && Enabled(s, step)
    ensures Inv(Next(nBatchSize, s, step))
  {
    match step
    case Add(checks) => AddKeepsInv(nBatchSize, s, checks);
    case Critical(t) => CriticalKeepsInv(nBatchSize, s, t);
    case RunCheck(t) => RunCheckKeepsInv(nBatchSize, s, t);
    case Wait => WakeOrWaitKeepsInv(nBatchSize, s, step);
    case WakeSpuriously(_) => WakeOrWaitKeepsInv(nBatchSize, s, step);
    case _ => NotifyKeepsInv(nBatchSize, s, step);
  }

  // ---------- whole runs ----------

  ghost predicate IsRun(nBatchSize: nat, ss: seq<Queue>, steps: seq<Step>) {
    && |ss| == |steps| + 1
    && forall i | 0 <= i < |steps| :: Enabled(ss[i], steps[i]) && ss[i + 1] == Next(nBatchSize, ss[i], steps[i])
  }

  /**
   Under every interleaving, from the start: nTodo is the queued plus in-flight checks, the idle and
   total counters are exact, no wakeup is lost, and every finished Wait answered true exactly when
   all the checks added in its round evaluate to true.
   */
  lemma {:induction false} EveryRunIsSafe(nBatchSize: nat, workers: nat, ss: seq<Queue>, steps: seq<Step>)
    requires IsRun(nBatchSize, ss, steps) && ss[0] == Init(workers)
    ensures forall i | 0 <= i < |ss| :: Inv(ss[i])
  {
    InitInv(workers);
    forall i | 0 <= i < |ss| ensures Inv(ss[i]) { RunReaches(nBatchSize, ss, steps, i); }
  }

  lemma {:induction false} RunReaches(nBatchSize: nat, ss: seq<Queue>, steps: seq<Step>, i: nat)
    requires IsRun(nBatchSize, ss, steps) && Inv(ss[0]) && i < |ss|
    ensures Inv(ss[i])
  {
    if i > 0 {
      RunReaches(nBatchSize, ss, steps, i - 1);
      StepKeepsInv(nBatchSize, ss[i - 1], steps[i - 1]);
    }
  }

  // ---------- progress ----------

  predicate Waiting(s: Queue) {
    |s.threads| > 0 && !s.threads[0].Outside? && !s.threads[0].Adding?
  }

  /** A step of a thread inside Loop that does not depend on a spurious wakeup. */
  predicate OwnStep(step: Step) { step.Critical? || step.RunCheck? }

  predicate CanStep(s: Queue, t: nat) {
    t < |s.threads| && (Enabled(s, Critical(t)) || Enabled(s, RunCheck(t)))
  }

  lemma CanStepIff(s: Queue, t: nat)
    requires t < |s.threads|
    ensures CanStep(s, t) <==> s.threads[t].Start? || s.threads[t].Woken? || s.threads[t].Working?
  {
  }

  /** While the master waits, or while work is pending and there are workers, some thread can step. */
  lemma SomeThreadCanStep(s: Queue) returns (t: nat)
    requires Inv(s)
    requires Waiting(s) || (|s.threads| > 1 && s.nTodo > 0 && !s.threads[0].Adding?)
    ensures CanStep(s, t)
  {
    if s.queue != [] && |s.threads| > 1 {
      t :| 0 < t < |s.threads| && !s.threads[t].Blocked?;
    } else if s.nTodo > 0 && s.queue == [] {
      t := SumPositive(InFlight, s.threads);
    } else {
      t := 0;
    }
    CanStepIff(s, t);
  }

  function Weight(t: Thread): int {
    match t
    case Working(vChecks, _, _) => |vChecks| + 3
    case Start => 1
    case Woken => 1
    case _ => 0
  }

  function Measure(s: Queue): int { 4 * |s.queue| + Sum(Weight, s.threads) }

  lemma MeasureNonNegative(s: Queue)
    ensures Measure(s) >= 0
  {
    SumNonNegative(Weight, s.threads);
  }

  /** Every such step brings the round closer to its end, and the end is the master's return. */
  lemma OwnStepDecreases(nBatchSize: nat, s: Queue, step: Step)
    requires Inv(s) && Enabled(s, step) && OwnStep(step)
    ensures var s' := Next(nBatchSize, s, step);
      || (s'.threads[0].Outside? && !s.threads[0].Outside? && s'.verdicts == s.verdicts + [(s.added, AllOk(s.added))])
      || (s'.threads[0].Outside? == s.threads[0].Outside? && s'.threads[0].Adding? == s.threads[0].Adding?
          && s'.verdicts == s.verdicts && s'.added == s.added && Measure(s') < Measure(s))
  {
    var s' := Next(nBatchSize, s, step);
    var t := step.thread;
    if step.RunCheck? {
      SumUpdate(Weight, s.threads, t, s'.threads[t]);
    } else {
      SettleIsBalanced(s, t);
      SettleWeight(s, t);
      var v := Settle(s, t);
      if Returns(v, t) { NobodyInFlight(v, t); }
      SumUpdate(Weight, v.threads, t, s'.threads[t]);
    }
  }

  lemma SettleWeight(s: Queue, t: nat)
    requires Inv(s) && t < |s.threads| && AtMutex(s.threads[t])
    ensures var v := Settle(s, t);
      && Sum(Weight, v.threads) <= Sum(Weight, s.threads) - Weight(s.threads[t])
        + (if s.threads[t].Working? && v.queue == [] then 1 else 0)
      && |v.threads| == |s.threads| && v.queue == s.queue
      && (t > 0 ==>
            (v.threads[0].Outside? <==> s.threads[0].Outside?) && (v.threads[0].Adding? <==> s.threads[0].Adding?))
  {
    SettleCounts(s, t);
    SumNonNegative(InFlight, Settle(s, t).threads);
    var ts := if t > 0 && s.threads[0].Blocked? && Settle(s, t).threads[0].Woken?
              then s.threads[0 := Woken] else s.threads;
    SumUpdate(Weight, s.threads, 0, Woken);
    SumUpdate(Weight, ts, t, Holding);
  }

  /** However the threads are scheduled, a waiting master's round cannot take more steps than its measure. */
  lemma {:induction false} RoundsAreBounded(nBatchSize: nat, ss: seq<Queue>, steps: seq<Step>)
    requires IsRun(nBatchSize, ss, steps) && Inv(ss[0])
    requires forall i | 0 <= i < |steps| :: OwnStep(steps[i])
    requires forall i | 0 <= i < |ss| :: ss[i].verdicts == ss[0].verdicts
    ensures |steps| + Measure(ss[|steps|]) <= Measure(ss[0])
    decreases |steps|
  {
    if steps != [] {
      var n := |steps| - 1;
      RoundsAreBounded(nBatchSize, ss[..n + 1], steps[..n]);
      RunReaches(nBatchSize, ss, steps, n);
      OwnStepDecreases(nBatchSize, ss[n], steps[n]);
    }
  }

  /** And it can always be driven to its end, where it answers for exactly this round's checks. */
  lemma {:induction false} WaitCanFinish(nBatchSize: nat, s: Queue) returns (ss: seq<Queue>, steps: seq<Step>)
    requires Inv(s) && Waiting(s)
    ensures IsRun(nBatchSize, ss, steps) && ss[0] == s
    ensures forall i | 0 <= i < |steps| :: OwnStep(steps[i])
    ensures var e := ss[|steps|];
      e.threads != [] && e.threads[0].Outside? && e.nTodo == 0 && e.verdicts == s.verdicts + [(s.added, AllOk(s.added))]
    decreases Measure(s)
  {
    var t := SomeThreadCanStep(s);
    var step := if AtMutex(s.threads[t]) then Critical(t) else RunCheck(t);
    var s' := Next(nBatchSize, s, step);
    StepKeepsInv(nBatchSize, s, step);
    OwnStepDecreases(nBatchSize, s, step);
    MeasureNonNegative(s');
    if s'.threads[0].Outside? {
      ss, steps := [s, s'], [step];
    } else {
      var ss', steps' := WaitCanFinish(nBatchSize, s');
      ss, steps := [s] + ss', [step] + steps';
      RunPrepended(nBatchSize, s, step, ss', steps');
    }
  }

  lemma RunPrepended(nBatchSize: nat, s: Queue, step: Step, ss: seq<Queue>, steps: seq<Step>)
    requires IsRun(nBatchSize, ss, steps) && Enabled(s, step) && ss[0] == Next(nBatchSize, s, step)
    ensures IsRun(nBatchSize, [s] + ss, [step] + steps) && ([s] + ss)[|steps| + 1] == ss[|steps|]
    ensures OwnStep(step) && (forall i | 0 <= i < |steps| :: OwnStep(steps[i]))
      ==> forall i | 0 <= i < |steps| + 1 :: OwnStep(([step] + steps)[i])
  {
    var all, more := [s] + ss, [step] + steps;
    forall i | 0 <= i < |more|
      ensures Enabled(all[i], more[i]) && all[i + 1] == Next(nBatchSize, all[i], more[i])
    {
      if i > 0 { assert Enabled(ss[i - 1], steps[i - 1]); }
    }
  }
}
