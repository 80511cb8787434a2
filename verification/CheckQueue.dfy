/**
  The script verification queue: one master and any number of workers that share
  a stack of checks under one mutex.

  Every critical section, every execution of one check and every wake-up is one
  atomic step, and a run is any interleaving of such steps.
 */
module CheckQueue {

  /** A queued verification; `passes` is what running it returns. */
  datatype Check = Check(id: int, passes: bool)

  /** Where a thread stands in `Loop`. */
  datatype Thread =
    | Outside                                              // not in Loop
    | AtLock(nNow: nat, fOk: bool)                         // about to take the mutex at the top of the loop
    | Asleep                                               // blocked on its condition variable
    | Woken                                                // released, about to take the mutex again
    | Inside                                               // holding the mutex, in the middle of a critical section
    | Running(vChecks: seq<Check>, next: nat, fOk: bool)   // executing its batch without the mutex

  /** One completed `Wait`: what was added, what was really run, and the answer. */
  datatype Round = Round(added: seq<Check>, executed: seq<Check>, verdict: bool)

  /** The fields of the queue, the threads (the master is thread 0) and the history of the current and past rounds. */
  datatype State = State(
    queue: seq<Check>,
    nIdle: int,
    nTotal: int,
    fAllOk: bool,
    nTodo: int,
    nBatchSize: nat,
    threads: seq<Thread>,
    added: seq<Check>,
    executed: seq<Check>,
    history: seq<Round>)

  datatype Step =
    | Add(vChecks: seq<Check>, notified: set<nat>)
    | Enter(t: nat)
    | Acquire(t: nat)
    | Execute(t: nat)
    | SpuriousWake(t: nat)

  const MASTER: nat := 0

  predicate Init(s: State)
  {
    && s.queue == [] && s.nIdle == 0 && s.nTotal == 0 && s.fAllOk && s.nTodo == 0
    && |s.threads| > 0
    && (forall t :: 0 <= t < |s.threads| ==> s.threads[t] == Outside)
    && s.added == [] && s.executed == [] && s.history == []
  }

  // ----- The steps -----

  function SleepingWorkers(s: State): set<nat>
  {
    set t: nat | 0 < t < |s.threads| && s.threads[t] == Asleep
  }

  /** Which sleepers `Add` releases: `notify_one` for one check, `notify_all` for more. */
  predicate MayNotify(s: State, count: nat, notified: set<nat>)
  {
    if count == 0 then notified == {}
    else if count == 1 then
      if SleepingWorkers(s) == {} then notified == {}
      else exists t :: t in SleepingWorkers(s) && notified == {t}
    else notified == SleepingWorkers(s)
  }

  predicate Enabled(s: State, step: Step)
  {
    match step
    case Add(vChecks, notified) =>
      |s.threads| > 0 && s.threads[MASTER] == Outside && MayNotify(s, |vChecks|, notified)
    case Enter(t) => t < |s.threads| && s.threads[t] == Outside
    case Acquire(t) => t < |s.threads| && (s.threads[t].AtLock? || s.threads[t] == Woken)
    case Execute(t) => t < |s.threads| && s.threads[t].Running?
    case SpuriousWake(t) => t < |s.threads| && s.threads[t] == Asleep
  }

  function Wake(threads: seq<Thread>, notified: set<nat>): seq<Thread>
  {
    seq(|threads|, i requires 0 <= i < |threads| => if i in notified then Woken else threads[i])
  }

  /** The start of a critical section: clean up the previous batch, or register a new thread. */
  function CleanUp(s: State, t: nat): State
    requires t < |s.threads| && s.threads[t].AtLock?
  {
    var AtLock(nNow, fOk) := s.threads[t];
    var entered := s.threads[t := Inside];
    if nNow == 0 then s.(nTotal := s.nTotal + 1, threads := entered)
    else
      var nTodo := s.nTodo - nNow;
      s.(fAllOk := s.fAllOk && fOk,
         nTodo := nTodo,
         threads := if nTodo == 0 && t != MASTER && s.threads[MASTER] == Asleep
                    then entered[MASTER := Woken] else entered)
  }

  /** The return from `cond.wait` with the mutex held. */
  function Resume(s: State, t: nat): State
    requires t < |s.threads|
  {
    s.(nIdle := s.nIdle - 1, threads := s.threads[t := Inside])
  }

  function BatchLength(s: State): nat
    requires |s.queue| > 0
  {
    var share := if s.nTotal + s.nIdle + 1 > 0 then |s.queue| / (s.nTotal + s.nIdle + 1) else 0;
    var capped := if s.nBatchSize < share then s.nBatchSize else share;
    if capped < 1 then 1 else capped
  }

  function TakeBack(queue: seq<Check>, n: nat): seq<Check>
    requires n <= |queue|
  {
    seq(n, i requires 0 <= i < n => queue[|queue| - 1 - i])
  }

  /** From the test of the inner loop on: leave with the verdict, go to sleep, or take a batch. */
  function Proceed(s: State, t: nat): State
    requires t < |s.threads|
  {
    if s.queue == [] then
      if t == MASTER && s.nTodo == 0 then
        s.(nTotal := s.nTotal - 1,
           fAllOk := true,
           threads := s.threads[t := Outside],
           added := [],
           executed := [],
           history := s.history + [Round(s.added, s.executed, s.fAllOk)])
      else
        s.(nIdle := s.nIdle + 1, threads := s.threads[t := Asleep])
    else
      BatchLengthInRange(s);
      var n := BatchLength(s);
      s.(queue := s.queue[..|s.queue| - n],
         threads := s.threads[t := Running(TakeBack(s.queue, n), 0, s.fAllOk)])
  }

  function ExecuteOne(s: State, t: nat): State
    requires t < |s.threads| && s.threads[t].Running?
  {
    var Running(vChecks, next, fOk) := s.threads[t];
    if next >= |vChecks| then
      s.(threads := s.threads[t := AtLock(|vChecks|, fOk)])
    else if fOk then
      s.(threads := s.threads[t := Running(vChecks, next + 1, vChecks[next].passes)],
         executed := s.executed + [vChecks[next]])
    else
      s.(threads := s.threads[t := Running(vChecks, next + 1, false)])
  }

  function Next(s: State, step: Step): (s': State)
    requires Enabled(s, step)
    ensures |s'.threads| == |s.threads|
  {
    match step
    case Add(vChecks, notified) =>
      s.(queue := s.queue + vChecks,
         nTodo := s.nTodo + |vChecks|,
         threads := Wake(s.threads, notified),
         added := s.added + vChecks)
    case Enter(t) => s.(threads := s.threads[t := AtLock(0, true)])
    case Acquire(t) =>
      Proceed(if s.threads[t] == Woken then Resume(s, t) else CleanUp(s, t), t)
    case Execute(t) => ExecuteOne(s, t)
    case SpuriousWake(t) => s.(threads := s.threads[t := Woken])
  }

  /** `steps` can be taken one after the other from `s`. */
  predicate CanRun(s: State, steps: seq<Step>)
    decreases |steps|
  {
    steps == [] || (Enabled(s, steps[0]) && CanRun(Next(s, steps[0]), steps[1..]))
  }

  function Run(s: State, steps: seq<Step>): (s': State)
    requires CanRun(s, steps)
    ensures |s'.threads| == |s.threads|
    decreases |steps|
  {
    if steps == [] then s else Run(Next(s, steps[0]), steps[1..])
  }

  lemma BatchLengthInRange(s: State)
    requires |s.queue| > 0
    ensures 1 <= BatchLength(s) <= |s.queue|
  {
    if s.nTotal + s.nIdle + 1 > 0 {
      QuotientAtMost(|s.queue|, s.nTotal + s.nIdle + 1);
    }
  }

  lemma QuotientAtMost(a: nat, d: nat)
    requires d > 0
    ensures a / d <= a
  {
    ProductAtLeast(a / d, d);
  }

  lemma {:induction false} ProductAtLeast(q: int, d: nat)
    requires d > 0
    ensures q >= 0 ==> d * q >= q
  {
    if d > 1 { ProductAtLeast(q, d - 1); }
  }

  // ----- Sums over threads -----

  function Sum(weight: Thread -> nat, threads: seq<Thread>): nat
  {
    if threads == [] then 0 else weight(threads[0]) + Sum(weight, threads[1..])
  }

  lemma {:induction false} SumUpdate(weight: Thread -> nat, threads: seq<Thread>, t: nat, v: Thread)
    requires t < |threads|
    ensures Sum(weight, threads[t := v]) == Sum(weight, threads) - weight(threads[t]) + weight(v)
    ensures Sum(weight, threads) >= weight(threads[t])
  {
    if t == 0 {
      assert threads[t := v][1..] == threads[1..];
    } else {
      SumUpdate(weight, threads[1..], t - 1, v);
      assert threads[t := v][1..] == threads[1..][t - 1 := v];
    }
  }

  lemma {:induction false} SumSame(weight: Thread -> nat, a: seq<Thread>, b: seq<Thread>)
    requires |a| == |b|
    requires forall i :: 0 <= i < |a| ==> weight(a[i]) == weight(b[i])
    ensures Sum(weight, a) == Sum(weight, b)
  {
    if a != [] { SumSame(weight, a[1..], b[1..]); }
  }

  lemma {:induction false} SumZero(weight: Thread -> nat, threads: seq<Thread>)
    ensures Sum(weight, threads) == 0 <==> forall i :: 0 <= i < |threads| ==> weight(threads[i]) == 0
  {
    if threads != [] {
      SumZero(weight, threads[1..]);
      if Sum(weight, threads) == 0 {
        forall i | 0 <= i < |threads| ensures weight(threads[i]) == 0 {
          if i > 0 { assert threads[i] == threads[1..][i - 1]; }
        }
      } else if Sum(weight, threads[1..]) != 0 {
        var i :| 0 <= i < |threads[1..]| && weight(threads[1..][i]) != 0;
        assert threads[1..][i] == threads[i + 1];
      }
    }
  }

  /** Checks a thread has taken and not yet reported. */
  function Held(th: Thread): nat
  {
    match th
    case AtLock(nNow, _) => nNow
    case Running(vChecks, _, _) => |vChecks|
    case _ => 0
  }

  function IsIdle(th: Thread): nat { if th == Asleep || th == Woken then 1 else 0 }

  /** Threads that have registered in nTotal. */
  function IsRegistered(th: Thread): nat
  {
    if th == Outside || (th.AtLock? && th.nNow == 0) then 0 else 1
  }

  /** Checks a thread has taken and not yet looked at. */
  function Remaining(th: Thread): multiset<Check>
  {
    if th.Running? && th.next <= |th.vChecks| then multiset(th.vChecks[th.next..]) else multiset{}
  }

  function AllRemaining(threads: seq<Thread>): multiset<Check>
  {
    if threads == [] then multiset{} else Remaining(threads[0]) + AllRemaining(threads[1..])
  }

  lemma MultisetShift<T>(r: multiset<T>, a: multiset<T>, b: multiset<T>, c: multiset<T>, d: multiset<T>)
    requires a + b == c + d
    ensures (r + a) + b == (r + c) + d
  {
    assert (r + a) + b == r + (a + b);
    assert (r + c) + d == r + (c + d);
  }

  lemma {:induction false} AllRemainingUpdate(threads: seq<Thread>, t: nat, v: Thread)
    requires t < |threads|
    ensures AllRemaining(threads[t := v]) + Remaining(threads[t]) == AllRemaining(threads) + Remaining(v)
  {
    var rest, rest' := threads[1..], threads[t := v][1..];
    if t == 0 {
      assert rest' == rest;
    } else {
      AllRemainingUpdate(rest, t - 1, v);
      assert rest' == rest[t - 1 := v];
      MultisetShift(Remaining(threads[0]), AllRemaining(rest'), Remaining(threads[t]),
                    AllRemaining(rest), Remaining(v));
    }
  }

  lemma {:induction false} AllRemainingSame(a: seq<Thread>, b: seq<Thread>)
    requires |a| == |b|
    requires forall i :: 0 <= i < |a| ==> Remaining(a[i]) == Remaining(b[i])
    ensures AllRemaining(a) == AllRemaining(b)
  {
    if a != [] { AllRemainingSame(a[1..], b[1..]); }
  }

  // ----- The invariant -----

  predicate AllPass(checks: seq<Check>)
  {
    forall i :: 0 <= i < |checks| ==> checks[i].passes
  }

  /** What a thread will still report about its batch. */
  predicate WillPass(th: Thread)
  {
    match th
    case AtLock(_, fOk) => fOk
    case Running(vChecks, next, fOk) => fOk && next <= |vChecks| && AllPass(vChecks[next..])
    case _ => true
  }

  /** No failure has been seen by a thread so far. */
  predicate NoFailureYet(th: Thread)
  {
    (th.AtLock? || th.Running?) ==> th.fOk
  }

  predicate ThreadOk(th: Thread)
  {
    match th
    case AtLock(nNow, fOk) => nNow == 0 ==> fOk
    case Running(vChecks, next, _) => 0 < |vChecks| && next <= |vChecks|
    case _ => true
  }

  predicate Counters(s: State)
  {
    && |s.threads| > 0
    && (forall t :: 0 <= t < |s.threads| ==> ThreadOk(s.threads[t]))
    && s.nTodo == |s.queue| + Sum(Held, s.threads)
    && s.nIdle == Sum(IsIdle, s.threads)
    && s.nTotal == Sum(IsRegistered, s.threads)
  }

  /** The verdict of the round is already determined by what is still open. */
  predicate Verdict(s: State)
  {
    AllPass(s.added) <==>
      (s.fAllOk && AllPass(s.queue) && forall t :: 0 <= t < |s.threads| ==> WillPass(s.threads[t]))
  }

  predicate Clean(s: State)
  {
    s.fAllOk && forall t :: 0 <= t < |s.threads| ==> NoFailureYet(s.threads[t])
  }

  function Accounted(s: State): multiset<Check>
  {
    multiset(s.executed) + multiset(s.queue) + AllRemaining(s.threads)
  }

  /** No check is run twice, and none is dropped while nothing has failed. */
  predicate Conserved(s: State)
  {
    Accounted(s) <= multiset(s.added) && (Clean(s) ==> Accounted(s) == multiset(s.added))
  }

  /** A sleeping master has nothing to take, and there is work whose report will wake it. */
  predicate NoLostWakeup(s: State)
  {
    |s.threads| > 0 && s.threads[MASTER] == Asleep ==> s.queue == [] && s.nTodo > 0
  }

  /** A finished `Wait` answered the conjunction of exactly the checks added for it. */
  predicate RoundOk(r: Round)
  {
    && (r.verdict <==> AllPass(r.added))
    && multiset(r.executed) <= multiset(r.added)
    && (r.verdict ==> multiset(r.executed) == multiset(r.added))
  }

  predicate Core(s: State)
  {
    && Counters(s)
    && Verdict(s)
    && Conserved(s)
    && NoLostWakeup(s)
    && forall k :: 0 <= k < |s.history| ==> RoundOk(s.history[k])
  }

  predicate Inv(s: State)
  {
    Core(s) && forall t :: 0 <= t < |s.threads| ==> s.threads[t] != Inside
  }

  lemma CountersUpdate(s: State, s': State, t: nat, v: Thread)
    requires Counters(s) && t < |s.threads| && s'.threads == s.threads[t := v] && ThreadOk(v)
    requires s'.nTodo - |s'.queue| - Held(v) == s.nTodo - |s.queue| - Held(s.threads[t])
    requires s'.nIdle - IsIdle(v) == s.nIdle - IsIdle(s.threads[t])
    requires s'.nTotal - IsRegistered(v) == s.nTotal - IsRegistered(s.threads[t])
    ensures Counters(s')
  {
    SumUpdate(Held, s.threads, t, v);
    SumUpdate(IsIdle, s.threads, t, v);
    SumUpdate(IsRegistered, s.threads, t, v);
  }

  /** Replacing one thread by one that will report the same keeps the verdict open to the same answer. */
  lemma VerdictUpdate(s: State, s': State, t: nat, v: Thread)
    requires t < |s.threads| && s'.threads == s.threads[t := v] && Verdict(s)
    requires s'.added == s.added
    requires (s.fAllOk && AllPass(s.queue) && WillPass(s.threads[t])) ==
             (s'.fAllOk && AllPass(s'.queue) && WillPass(v))
    ensures Verdict(s')
  {
    assert s'.threads[t] == v;
    assert forall i :: 0 <= i < |s.threads| && i != t ==> s'.threads[i] == s.threads[i];
    assert (forall i :: 0 <= i < |s.threads| ==> WillPass(s.threads[i])) <==>
           WillPass(s.threads[t]) && forall i :: 0 <= i < |s.threads| && i != t ==> WillPass(s.threads[i]);
    assert (forall i :: 0 <= i < |s'.threads| ==> WillPass(s'.threads[i])) <==>
           WillPass(v) && forall i :: 0 <= i < |s.threads| && i != t ==> WillPass(s.threads[i]);
  }

  lemma CleanUpdate(s: State, s': State, t: nat, v: Thread)
    requires t < |s.threads| && s'.threads == s.threads[t := v]
    requires s'.fAllOk && NoFailureYet(v) ==> s.fAllOk && NoFailureYet(s.threads[t])
    ensures Clean(s') ==> Clean(s)
  {
    if Clean(s') {
      assert s'.threads[t] == v;
      forall i | 0 <= i < |s.threads| ensures NoFailureYet(s.threads[i]) {
        if i != t { assert s'.threads[i] == s.threads[i]; }
      }
    }
  }

  /** The checks a thread and the shared fields account for together. */
  function Share(s: State, th: Thread): multiset<Check>
  {
    multiset(s.executed) + multiset(s.queue) + Remaining(th)
  }

  lemma MultisetExchange<T>(e: multiset<T>, e': multiset<T>, a: multiset<T>, a': multiset<T>, r: multiset<T>,
                            r': multiset<T>)
    requires a' + r == a + r'
    ensures e' + r' <= e + r ==> e' + a' <= e + a
    ensures e' + r' == e + r ==> e' + a' == e + a
  {
    forall x ensures (e' + r')[x] <= (e + r)[x] ==> (e' + a')[x] <= (e + a)[x] {
      assert (a' + r)[x] == (a + r')[x];
    }
    if e' + r' == e + r {
      forall x ensures (e' + a')[x] == (e + a)[x] {
        assert (a' + r)[x] == (a + r')[x];
        assert (e' + r')[x] == (e + r)[x];
      }
    }
  }

  lemma ConservedUpdate(s: State, s': State, t: nat, v: Thread)
    requires Conserved(s) && t < |s.threads| && s'.threads == s.threads[t := v] && s'.added == s.added
    requires s'.fAllOk && NoFailureYet(v) ==> s.fAllOk && NoFailureYet(s.threads[t])
    requires Share(s', v) <= Share(s, s.threads[t])
    requires s'.fAllOk && NoFailureYet(v) ==> Share(s', v) == Share(s, s.threads[t])
    ensures Conserved(s')
  {
    AllRemainingUpdate(s.threads, t, v);
    CleanUpdate(s, s', t, v);
    MultisetExchange(multiset(s.executed) + multiset(s.queue), multiset(s'.executed) + multiset(s'.queue),
                     AllRemaining(s.threads), AllRemaining(s'.threads), Remaining(s.threads[t]), Remaining(v));
    if Clean(s') { assert NoFailureYet(s'.threads[t]); }
  }

  /** A change of the shared fields and of one thread that balances keeps the invariant. */
  lemma UpdateKeeps(s: State, s': State, t: nat, v: Thread)
    requires Core(s) && t < |s.threads| && s'.threads == s.threads[t := v] && ThreadOk(v)
    requires s'.added == s.added && s'.history == s.history
    requires s'.nTodo - |s'.queue| - Held(v) == s.nTodo - |s.queue| - Held(s.threads[t])
    requires s'.nIdle - IsIdle(v) == s.nIdle - IsIdle(s.threads[t])
    requires s'.nTotal - IsRegistered(v) == s.nTotal - IsRegistered(s.threads[t])
    requires (s.fAllOk && AllPass(s.queue) && WillPass(s.threads[t])) ==
             (s'.fAllOk && AllPass(s'.queue) && WillPass(v))
    requires s'.fAllOk && NoFailureYet(v) ==> s.fAllOk && NoFailureYet(s.threads[t])
    requires Share(s', v) <= Share(s, s.threads[t])
    requires s'.fAllOk && NoFailureYet(v) ==> Share(s', v) == Share(s, s.threads[t])
    requires NoLostWakeup(s')
    ensures Core(s')
  {
    CountersUpdate(s, s', t, v);
    VerdictUpdate(s, s', t, v);
    ConservedUpdate(s, s', t, v);
  }

  /** Mutual exclusion: `t` and no other thread is in a critical section. */
  predicate OnlyInside(s: State, t: nat)
  {
    t < |s.threads| && forall i :: 0 <= i < |s.threads| ==> (s.threads[i] == Inside <==> i == t)
  }

  lemma EnterKeeps(s: State, t: nat)
    requires Inv(s) && Enabled(s, Enter(t))
    ensures Inv(Next(s, Enter(t)))
  {
    UpdateKeeps(s, Next(s, Enter(t)), t, AtLock(0, true));
  }

  lemma SpuriousWakeKeeps(s: State, t: nat)
    requires Inv(s) && Enabled(s, SpuriousWake(t))
    ensures Inv(Next(s, SpuriousWake(t)))
  {
    UpdateKeeps(s, Next(s, SpuriousWake(t)), t, Woken);
  }

  lemma ResumeKeeps(s: State, t: nat)
    requires Inv(s) && t < |s.threads| && s.threads[t] == Woken
    ensures Core(Resume(s, t)) && OnlyInside(Resume(s, t), t)
  {
    UpdateKeeps(s, Resume(s, t), t, Inside);
  }

  /** The report that brings nTodo to zero also wakes a sleeping master. */
  lemma CleanUpAndNotifyKeeps(s: State, t: nat)
    requires Inv(s) && t < |s.threads| && s.threads[t].AtLock? && t != MASTER
    requires CleanUp(s, t).threads != s.threads[t := Inside]
    ensures Core(CleanUp(s, t))
  {
    var woken := s.(threads := s.threads[MASTER := Woken]);
    UpdateKeeps(s, woken, MASTER, Woken);
    assert CleanUp(s, t).threads == woken.threads[t := Inside];
    UpdateKeeps(woken, CleanUp(s, t), t, Inside);
  }

  lemma CleanUpKeeps(s: State, t: nat)
    requires Inv(s) && t < |s.threads| && s.threads[t].AtLock?
    ensures Core(CleanUp(s, t)) && OnlyInside(CleanUp(s, t), t)
  {
    var s' := CleanUp(s, t);
    var mid := s'.(threads := s.threads[t := Inside]);
    assert ThreadOk(s.threads[t]);
    SumUpdate(Held, s.threads, t, Inside);
    if s'.threads == mid.threads {
      UpdateKeeps(s, mid, t, Inside);
    } else {
      CleanUpAndNotifyKeeps(s, t);
    }
  }

  lemma AllPassSplit(a: seq<Check>, b: seq<Check>)
    ensures AllPass(a + b) <==> AllPass(a) && AllPass(b)
  {
    if AllPass(a + b) {
      forall i | 0 <= i < |a| ensures a[i].passes { assert (a + b)[i] == a[i]; }
      forall i | 0 <= i < |b| ensures b[i].passes { assert (a + b)[|a| + i] == b[i]; }
    }
  }

  lemma {:induction false} TakeBackKeepsChecks(queue: seq<Check>, n: nat)
    requires n <= |queue|
    ensures multiset(TakeBack(queue, n)) + multiset(queue[..|queue| - n]) == multiset(queue)
    ensures AllPass(queue) <==> AllPass(queue[..|queue| - n]) && AllPass(TakeBack(queue, n))
    decreases n
  {
    if n == 0 {
      assert queue[..|queue| - n] == queue;
    } else {
      var last := |queue| - 1;
      var init := queue[..last];
      TakeBackKeepsChecks(init, n - 1);
      assert queue == init + [queue[last]];
      assert TakeBack(queue, n) == [queue[last]] + TakeBack(init, n - 1);
      assert queue[..|queue| - n] == init[..|init| - (n - 1)];
      AllPassSplit(init, [queue[last]]);
      AllPassSplit([queue[last]], TakeBack(init, n - 1));
    }
  }

  lemma TakeBatchKeeps(s: State, t: nat)
    requires Core(s) && t < |s.threads| && s.threads[t] == Inside && s.queue != []
    ensures Core(Proceed(s, t))
  {
    BatchLengthInRange(s);
    var n := BatchLength(s);
    var batch := TakeBack(s.queue, n);
    TakeBackKeepsChecks(s.queue, n);
    TakenShare(s, Proceed(s, t), batch);
    UpdateKeeps(s, Proceed(s, t), t, Running(batch, 0, s.fAllOk));
  }

  lemma TakenShare(s: State, s': State, batch: seq<Check>)
    requires s'.executed == s.executed && multiset(batch) + multiset(s'.queue) == multiset(s.queue)
    requires AllPass(s.queue) <==> AllPass(s'.queue) && AllPass(batch)
    ensures Share(s', Running(batch, 0, s.fAllOk)) == Share(s, Inside)
    ensures WillPass(Running(batch, 0, s.fAllOk)) == (s.fAllOk && AllPass(batch)) && WillPass(Inside)
  {
    assert batch[0..] == batch;
  }

  lemma SleepKeeps(s: State, t: nat)
    requires Core(s) && t < |s.threads| && s.threads[t] == Inside && s.queue == []
    requires !(t == MASTER && s.nTodo == 0)
    ensures Core(Proceed(s, t))
  {
    UpdateKeeps(s, Proceed(s, t), t, Asleep);
  }

  /** With nothing left to do, no thread holds a batch, so nothing can leak into the next round. */
  lemma NothingHeld(s: State)
    requires Counters(s) && s.nTodo == 0
    ensures s.queue == []
    ensures forall t :: 0 <= t < |s.threads| ==>
      && Held(s.threads[t]) == 0 && WillPass(s.threads[t]) && NoFailureYet(s.threads[t])
      && Remaining(s.threads[t]) == multiset{}
    ensures AllRemaining(s.threads) == multiset{}
  {
    SumZero(Held, s.threads);
    forall t | 0 <= t < |s.threads|
      ensures Held(s.threads[t]) == 0 && WillPass(s.threads[t]) && NoFailureYet(s.threads[t])
      ensures Remaining(s.threads[t]) == multiset{}
    {
      assert ThreadOk(s.threads[t]);
    }
    AllRemainingNone(s.threads);
  }

  lemma {:induction false} AllRemainingNone(threads: seq<Thread>)
    requires forall t :: 0 <= t < |threads| ==> Remaining(threads[t]) == multiset{}
    ensures AllRemaining(threads) == multiset{}
  {
    if threads != [] { AllRemainingNone(threads[1..]); }
  }

  lemma ReturnKeeps(s: State)
    requires Core(s) && s.threads[MASTER] == Inside && s.queue == [] && s.nTodo == 0
    ensures Core(Proceed(s, MASTER))
  {
    var s' := Proceed(s, MASTER);
    NothingHeld(s);
    assert Clean(s) <==> s.fAllOk;
    CountersUpdate(s, s', MASTER, Outside);
    NothingHeld(s');
  }

  lemma ProceedKeeps(s: State, t: nat)
    requires Core(s) && OnlyInside(s, t)
    ensures Inv(Proceed(s, t))
  {
    if s.queue != [] {
      BatchLengthInRange(s);
      TakeBatchKeeps(s, t);
    } else if t == MASTER && s.nTodo == 0 {
      ReturnKeeps(s);
    } else {
      SleepKeeps(s, t);
    }
  }

  lemma FinishBatchKeeps(s: State, t: nat)
    requires Core(s) && Enabled(s, Execute(t)) && s.threads[t].next >= |s.threads[t].vChecks|
    ensures Core(ExecuteOne(s, t))
  {
    var Running(vChecks, next, fOk) := s.threads[t];
    assert ThreadOk(s.threads[t]);
    assert vChecks[next..] == [];
    UpdateKeeps(s, ExecuteOne(s, t), t, AtLock(|vChecks|, fOk));
  }

  lemma RunOneKeeps(s: State, t: nat)
    requires Core(s) && Enabled(s, Execute(t)) && s.threads[t].next < |s.threads[t].vChecks|
    ensures Core(ExecuteOne(s, t))
  {
    var Running(vChecks, next, fOk) := s.threads[t];
    var s' := ExecuteOne(s, t);
    assert ThreadOk(s.threads[t]);
    assert s'.threads == s.threads[t := Running(vChecks, next + 1, fOk && vChecks[next].passes)];
    ProgressKeeps(s, s', t, vChecks, next, fOk);
  }

  lemma ProgressKeeps(s: State, s': State, t: nat, vChecks: seq<Check>, next: nat, fOk: bool)
    requires Core(s) && t < |s.threads| && next < |vChecks| && s.threads[t] == Running(vChecks, next, fOk)
    requires s' == s.(threads := s'.threads, executed := s'.executed)
    requires s'.threads == s.threads[t := Running(vChecks, next + 1, fOk && vChecks[next].passes)]
    requires s'.executed == if fOk then s.executed + [vChecks[next]] else s.executed
    ensures Core(s')
  {
    WillPassStep(vChecks, next, fOk);
    RemainingStep(s, s', vChecks, next, fOk);
    UpdateKeeps(s, s', t, Running(vChecks, next + 1, fOk && vChecks[next].passes));
  }

  lemma WillPassStep(vChecks: seq<Check>, next: nat, fOk: bool)
    requires next < |vChecks|
    ensures WillPass(Running(vChecks, next + 1, fOk && vChecks[next].passes)) == WillPass(Running(vChecks, next, fOk))
  {
    assert vChecks[next..] == [vChecks[next]] + vChecks[next + 1..];
    AllPassSplit([vChecks[next]], vChecks[next + 1..]);
  }

  lemma RemainingStep(s: State, s': State, vChecks: seq<Check>, next: nat, fOk: bool)
    requires next < |vChecks|
    requires s'.queue == s.queue
    requires s'.executed == if fOk then s.executed + [vChecks[next]] else s.executed
    ensures Share(s', Running(vChecks, next + 1, fOk && vChecks[next].passes)) <= Share(s, Running(vChecks, next, fOk))
    ensures fOk ==>
      Share(s', Running(vChecks, next + 1, fOk && vChecks[next].passes)) ==
        Share(s, Running(vChecks, next, fOk))
  {
    assert vChecks[next..] == [vChecks[next]] + vChecks[next + 1..];
    assert multiset(vChecks[next..]) == multiset{vChecks[next]} + multiset(vChecks[next + 1..]);
  }

  lemma ExecuteKeeps(s: State, t: nat)
    requires Inv(s) && Enabled(s, Execute(t))
    ensures Inv(Next(s, Execute(t)))
  {
    if s.threads[t].next >= |s.threads[t].vChecks| {
      FinishBatchKeeps(s, t);
    } else {
      RunOneKeeps(s, t);
    }
    assert forall i :: 0 <= i < |s.threads| && i != t ==> ExecuteOne(s, t).threads[i] == s.threads[i];
  }

  lemma AcquireKeeps(s: State, t: nat)
    requires Inv(s) && Enabled(s, Acquire(t))
    ensures Inv(Next(s, Acquire(t)))
  {
    if s.threads[t] == Woken {
      ResumeKeeps(s, t);
      ProceedKeeps(Resume(s, t), t);
    } else {
      CleanUpKeeps(s, t);
      ProceedKeeps(CleanUp(s, t), t);
    }
  }

  /** Notifying only releases sleeping workers. */
  lemma WakeReleases(s: State, count: nat, notified: set<nat>)
    requires MayNotify(s, count, notified)
    ensures forall i :: 0 <= i < |s.threads| ==>
      var th, th' := s.threads[i], Wake(s.threads, notified)[i];
      th' == th || (i > 0 && th == Asleep && th' == Woken)
  {
    forall i | 0 <= i < |s.threads|
      ensures Wake(s.threads, notified)[i] == s.threads[i] ||
              (i > 0 && s.threads[i] == Asleep && Wake(s.threads, notified)[i] == Woken)
    {
      if i in notified { assert i in SleepingWorkers(s); }
    }
  }

  lemma WakeKeepsSums(s: State, woken: seq<Thread>)
    requires |woken| == |s.threads|
    requires forall i :: 0 <= i < |woken| ==>
      woken[i] == s.threads[i] || (s.threads[i] == Asleep && woken[i] == Woken)
    ensures Sum(Held, woken) == Sum(Held, s.threads)
    ensures Sum(IsIdle, woken) == Sum(IsIdle, s.threads)
    ensures Sum(IsRegistered, woken) == Sum(IsRegistered, s.threads)
    ensures AllRemaining(woken) == AllRemaining(s.threads)
  {
    SumSame(Held, s.threads, woken);
    SumSame(IsIdle, s.threads, woken);
    SumSame(IsRegistered, s.threads, woken);
    AllRemainingSame(s.threads, woken);
  }

  lemma AddKeepsVerdict(s: State, vChecks: seq<Check>, woken: seq<Thread>)
    requires Verdict(s) && Conserved(s) && |woken| == |s.threads| && AllRemaining(woken) == AllRemaining(s.threads)
    requires forall i :: 0 <= i < |woken| ==>
      woken[i] == s.threads[i] || (s.threads[i] == Asleep && woken[i] == Woken)
    ensures var s' := s.(queue := s.queue + vChecks, nTodo := s.nTodo + |vChecks|, threads := woken,
                         added := s.added + vChecks);
            Verdict(s') && Conserved(s')
  {
    var s' := s.(queue := s.queue + vChecks, nTodo := s.nTodo + |vChecks|, threads := woken,
                 added := s.added + vChecks);
    AllPassSplit(s.added, vChecks);
    AllPassSplit(s.queue, vChecks);
    assert forall i :: 0 <= i < |woken| ==> WillPass(woken[i]) == WillPass(s.threads[i]);
    assert forall i :: 0 <= i < |woken| ==> NoFailureYet(woken[i]) == NoFailureYet(s.threads[i]);
    assert Clean(s') <==> Clean(s);
    var e, q, n, r := multiset(s.executed), multiset(s.queue), multiset(vChecks), AllRemaining(s.threads);
    assert e + (q + n) + r == (e + q + r) + n;
  }

  lemma AddKeeps(s: State, vChecks: seq<Check>, notified: set<nat>)
    requires Inv(s) && Enabled(s, Add(vChecks, notified))
    ensures Inv(Next(s, Add(vChecks, notified)))
  {
    var woken := Wake(s.threads, notified);
    WakeReleases(s, |vChecks|, notified);
    WakeKeepsSums(s, woken);
    AddKeepsVerdict(s, vChecks, woken);
  }

  /** Every step of every thread keeps the invariant. */
  lemma StepKeeps(s: State, step: Step)
    requires Inv(s) && Enabled(s, step)
    ensures Inv(Next(s, step))
  {
    match step
    case Add(vChecks, notified) => AddKeeps(s, vChecks, notified);
    case Enter(t) => EnterKeeps(s, t);
    case Acquire(t) => AcquireKeeps(s, t);
    case Execute(t) => ExecuteKeeps(s, t);
    case SpuriousWake(t) => SpuriousWakeKeeps(s, t);
  }

  lemma InitHolds(s: State)
    requires Init(s)
    ensures Inv(s)
  {
    SumZero(Held, s.threads);
    SumZero(IsIdle, s.threads);
    SumZero(IsRegistered, s.threads);
    AllRemainingNone(s.threads);
  }

  lemma {:induction false} RunKeeps(s: State, steps: seq<Step>)
    requires Inv(s) && CanRun(s, steps)
    ensures Inv(Run(s, steps))
    decreases |steps|
  {
    if steps != [] {
      StepKeeps(s, steps[0]);
      RunKeeps(Next(s, steps[0]), steps[1..]);
    }
  }

  // ----- Workers wake up, and take limited batches -----

  predicate IsAwake(s: State, t: nat)
  {
    0 < t < |s.threads| && s.threads[t] != Outside && s.threads[t] != Asleep
  }

  /** Queued work and a worker in its loop mean that some worker is not asleep. */
  ghost predicate WorkIsNoticed(s: State)
  {
    s.queue != [] && (exists t: nat :: 0 < t < |s.threads| && s.threads[t] != Outside) ==> exists t :: IsAwake(s, t)
  }

  predicate BatchCapped(nBatchSize: nat, th: Thread)
  {
    th.Running? ==> |th.vChecks| <= 1 || |th.vChecks| <= nBatchSize
  }

  /** No batch is larger than the limit, or one check if that is larger. */
  predicate BatchesCapped(s: State)
  {
    forall t :: 0 <= t < |s.threads| ==> BatchCapped(s.nBatchSize, s.threads[t])
  }

  lemma NoticedOnAdd(s: State, vChecks: seq<Check>, notified: set<nat>)
    requires Inv(s) && WorkIsNoticed(s) && Enabled(s, Add(vChecks, notified))
    ensures WorkIsNoticed(Next(s, Add(vChecks, notified)))
  {
    var s' := Next(s, Add(vChecks, notified));
    WakeReleases(s, |vChecks|, notified);
    if s'.queue != [] && exists t: nat :: 0 < t < |s.threads| && s'.threads[t] != Outside {
      var t: nat :| 0 < t < |s.threads| && s'.threads[t] != Outside;
      assert s.threads[t] != Outside;
      if vChecks == [] {
        assert s'.queue == s.queue;
        var w :| IsAwake(s, w);
        assert IsAwake(s', w);
      } else if SleepingWorkers(s) == {} {
        assert t !in SleepingWorkers(s);
        assert IsAwake(s', t);
      } else {
        SomeNotified(s, |vChecks|, notified);
        var w :| w in notified && w in SleepingWorkers(s);
        assert IsAwake(s', w);
      }
    }
  }

  lemma SomeNotified(s: State, count: nat, notified: set<nat>)
    requires MayNotify(s, count, notified) && count > 0 && SleepingWorkers(s) != {}
    ensures exists w :: w in notified && w in SleepingWorkers(s)
  {
    var w :| w in SleepingWorkers(s);
    assert count > 1 ==> w in notified;
  }

  /** A critical section of one thread leaves the other workers as they were. */
  lemma OthersStay(s: State, t: nat, w: nat)
    requires Enabled(s, Acquire(t)) && 0 < w < |s.threads| && w != t
    ensures Next(s, Acquire(t)).threads[w] == s.threads[w]
  {
    var mid := if s.threads[t] == Woken then Resume(s, t) else CleanUp(s, t);
    assert mid.threads[w] == s.threads[w];
    if mid.queue != [] { BatchLengthInRange(mid); }
  }

  /** With work left, the thread itself has taken a batch. */
  lemma TakesOrEmpty(s: State, t: nat)
    requires Inv(s) && Enabled(s, Acquire(t))
    ensures var s' := Next(s, Acquire(t)); s'.queue != [] ==> s.queue != [] && s'.threads[t].Running?
  {
    var mid := if s.threads[t] == Woken then Resume(s, t) else CleanUp(s, t);
    if mid.queue != [] { BatchLengthInRange(mid); }
  }

  lemma NoticedOnAcquire(s: State, t: nat)
    requires Inv(s) && WorkIsNoticed(s) && Enabled(s, Acquire(t))
    ensures WorkIsNoticed(Next(s, Acquire(t)))
  {
    var s' := Next(s, Acquire(t));
    TakesOrEmpty(s, t);
    if s'.queue != [] {
      if t != MASTER {
        assert IsAwake(s', t);
      } else if exists w: nat :: 0 < w < |s'.threads| && s'.threads[w] != Outside {
        var w: nat :| 0 < w < |s'.threads| && s'.threads[w] != Outside;
        OthersStay(s, t, w);
        var a :| IsAwake(s, a);
        OthersStay(s, t, a);
        assert IsAwake(s', a);
      }
    }
  }

  /** The steps that change one thread only, and not to sleep. */
  lemma NoticedOnUpdate(s: State, s': State, t: nat, v: Thread)
    requires WorkIsNoticed(s) && t < |s.threads| && s'.threads == s.threads[t := v] && s'.queue == s.queue
    requires v != Outside && v != Asleep
    ensures WorkIsNoticed(s')
  {
    if t > 0 {
      assert IsAwake(s', t);
    } else if s'.queue != [] && exists w: nat :: 0 < w < |s'.threads| && s'.threads[w] != Outside {
      var w: nat :| 0 < w < |s'.threads| && s'.threads[w] != Outside;
      assert s.threads[w] != Outside;
      var a :| IsAwake(s, a);
      assert IsAwake(s', a);
    }
  }

  lemma StepNotices(s: State, step: Step)
    requires Inv(s) && WorkIsNoticed(s) && Enabled(s, step)
    ensures WorkIsNoticed(Next(s, step))
  {
    match step
    case Add(vChecks, notified) => NoticedOnAdd(s, vChecks, notified);
    case Enter(t) => NoticedOnUpdate(s, Next(s, step), t, AtLock(0, true));
    case Acquire(t) => NoticedOnAcquire(s, t);
    case Execute(t) => NoticedOnUpdate(s, Next(s, step), t, Next(s, step).threads[t]);
    case SpuriousWake(t) => NoticedOnUpdate(s, Next(s, step), t, Woken);
  }

  lemma StepCaps(s: State, step: Step)
    requires Inv(s) && BatchesCapped(s) && Enabled(s, step)
    ensures BatchesCapped(Next(s, step)) && Next(s, step).nBatchSize == s.nBatchSize
  {
    var s' := Next(s, step);
    match step
    case Add(vChecks, notified) => WakeReleases(s, |vChecks|, notified);
    case Acquire(t) =>
      var mid := if s.threads[t] == Woken then Resume(s, t) else CleanUp(s, t);
      if mid.queue != [] { BatchLengthInRange(mid); }
    case _ =>
  }

  lemma {:induction false} RunNotices(s: State, steps: seq<Step>)
    requires Inv(s) && WorkIsNoticed(s) && BatchesCapped(s) && CanRun(s, steps)
    ensures WorkIsNoticed(Run(s, steps)) && BatchesCapped(Run(s, steps)) && Run(s, steps).nBatchSize == s.nBatchSize
    decreases |steps|
  {
    if steps != [] {
      StepKeeps(s, steps[0]);
      StepNotices(s, steps[0]);
      StepCaps(s, steps[0]);
      RunNotices(Next(s, steps[0]), steps[1..]);
    }
  }

  // ----- Main results -----

  /** In every run, queued work with a worker in its loop means that some worker is not asleep. */
  lemma WorkersWakeUp(s: State, steps: seq<Step>, t: nat)
    requires Init(s) && CanRun(s, steps) && Run(s, steps).queue != []
    requires 0 < t < |s.threads| && Run(s, steps).threads[t] != Outside
    ensures exists w :: IsAwake(Run(s, steps), w)
  {
    InitHolds(s);
    RunNotices(s, steps);
  }

  /** In every run, no thread holds a batch larger than the limit, or one check if that is larger. */
  lemma BatchesAreCapped(s: State, steps: seq<Step>, t: nat)
    requires Init(s) && CanRun(s, steps) && t < |s.threads| && Run(s, steps).threads[t].Running?
    ensures var n := |Run(s, steps).threads[t].vChecks|; 1 <= n && (n == 1 || n <= s.nBatchSize)
  {
    InitHolds(s);
    RunKeeps(s, steps);
    RunNotices(s, steps);
    assert ThreadOk(Run(s, steps).threads[t]) && BatchCapped(s.nBatchSize, Run(s, steps).threads[t]);
  }

  /**
    In every run of any number of threads, every `Wait` that has returned answered the
    conjunction of exactly the checks added since the previous one: no check was run
    twice, a positive answer means all of them were run, and no result of one round
    reached another.
   */
  lemma EveryWaitIsExact(s: State, steps: seq<Step>, k: nat)
    requires Init(s) && CanRun(s, steps) && k < |Run(s, steps).history|
    ensures RoundOk(Run(s, steps).history[k])
  {
    InitHolds(s);
    RunKeeps(s, steps);
  }

  /** nTodo counts the queued checks and those in unreported batches, and the divisor of the batch share is positive. */
  lemma CountersAreExact(s: State, steps: seq<Step>)
    requires Init(s) && CanRun(s, steps)
    ensures var r := Run(s, steps);
      && r.nTodo == |r.queue| + Sum(Held, r.threads)
      && r.nTotal + r.nIdle + 1 > 0
      && (r.nTodo == 0 ==> forall t :: 0 <= t < |r.threads| ==> !r.threads[t].Running?)
  {
    InitHolds(s);
    RunKeeps(s, steps);
    var r := Run(s, steps);
    if r.nTodo == 0 { NothingHeld(r); }
  }

  /** A master that sleeps unsignalled faces an empty queue while some worker still owes a report. */
  lemma NoWakeupIsLost(s: State, steps: seq<Step>)
    requires Init(s) && CanRun(s, steps) && Run(s, steps).threads[MASTER] == Asleep
    ensures var r := Run(s, steps);
      r.queue == [] && exists t :: 0 < t < |r.threads| && Held(r.threads[t]) > 0
  {
    InitHolds(s);
    RunKeeps(s, steps);
    var r := Run(s, steps);
    SumZero(Held, r.threads);
  }

  // ----- Progress of Wait -----

  /** The steps a running system takes by itself: neither the master's next call nor a spurious wake-up. */
  predicate IsInternal(s: State, step: Step)
  {
    Enabled(s, step) && (step.Acquire? || step.Execute?)
  }

  /** How much a thread can still do before it sleeps or leaves. */
  function Rank(th: Thread): nat
  {
    match th
    case Outside => 0
    case Asleep => 0
    case Woken => 1
    case AtLock(_, _) => 2
    case Inside => 1
    case Running(vChecks, next, _) => 3 + if next <= |vChecks| then |vChecks| - next else 0
  }

  /** Bounds the internal steps left. */
  function Measure(s: State): nat
  {
    4 * |s.queue| + Sum(Rank, s.threads)
  }

  lemma ProceedDecreases(s: State, t: nat)
    requires t < |s.threads| && s.threads[t] == Inside
    ensures Measure(Proceed(s, t)) < Measure(s)
  {
    SumUpdate(Rank, s.threads, t, Asleep);
    SumUpdate(Rank, s.threads, t, Outside);
    if s.queue != [] {
      BatchLengthInRange(s);
      var n := BatchLength(s);
      SumUpdate(Rank, s.threads, t, Running(TakeBack(s.queue, n), 0, s.fAllOk));
    }
  }

  lemma CleanUpDecreases(s: State, t: nat)
    requires t < |s.threads| && s.threads[t].AtLock?
    ensures Measure(CleanUp(s, t)) <= Measure(s)
  {
    SumUpdate(Rank, s.threads, t, Inside);
    if t != MASTER {
      SumUpdate(Rank, s.threads[t := Inside], MASTER, Woken);
    }
  }

  /** Each internal step uses up some of the measure, so `Wait` cannot go on for ever. */
  lemma InternalStepDecreases(s: State, step: Step)
    requires Inv(s) && IsInternal(s, step)
    ensures Measure(Next(s, step)) < Measure(s)
  {
    var t := step.t;
    if step.Execute? {
      assert ThreadOk(s.threads[t]);
      SumUpdate(Rank, s.threads, t, Next(s, step).threads[t]);
    } else if s.threads[t] == Woken {
      SumUpdate(Rank, s.threads, t, Inside);
      ProceedDecreases(Resume(s, t), t);
    } else {
      CleanUpDecreases(s, t);
      ProceedDecreases(CleanUp(s, t), t);
    }
  }

  /** While the master is in `Wait`, some internal step is possible: the protocol does not deadlock. */
  lemma WaitIsNeverStuck(s: State)
    requires Inv(s) && s.threads[MASTER] != Outside
    ensures exists step :: IsInternal(s, step)
  {
    if s.threads[MASTER] == Asleep {
      SumZero(Held, s.threads);
      var t :| 0 <= t < |s.threads| && Held(s.threads[t]) != 0;
      assert IsInternal(s, if s.threads[t].Running? then Execute(t) else Acquire(t));
    } else if s.threads[MASTER].Running? {
      assert IsInternal(s, Execute(MASTER));
    } else {
      assert IsInternal(s, Acquire(MASTER));
    }
  }

  predicate AllInternal(s: State, steps: seq<Step>)
    decreases |steps|
  {
    steps == [] || (IsInternal(s, steps[0]) && AllInternal(Next(s, steps[0]), steps[1..]))
  }

  /**
    Whatever the scheduler does, a `Wait` in progress returns: left alone, the threads take
    at most Measure(s) steps, and when none of them can move the master is out of `Wait`.
   */
  lemma {:induction false} WaitReturns(s: State, steps: seq<Step>)
    requires Inv(s) && AllInternal(s, steps)
    ensures CanRun(s, steps) && |steps| <= Measure(s)
    ensures (forall step :: !IsInternal(Run(s, steps), step)) ==> Run(s, steps).threads[MASTER] == Outside
    decreases |steps|
  {
    if steps == [] {
      if s.threads[MASTER] != Outside { WaitIsNeverStuck(s); }
    } else {
      StepKeeps(s, steps[0]);
      InternalStepDecreases(s, steps[0]);
      WaitReturns(Next(s, steps[0]), steps[1..]);
    }
  }
}
