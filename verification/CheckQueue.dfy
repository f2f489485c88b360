/**
 The parallel check queue (`CCheckQueue` in src/checkqueue.h) as a protocol: one
 master and any number of workers, one mutex, two condition variables. A step is
 what a thread does in one critical section, or the execution of one check.
 */
module CheckQueue {
  import opened Basics

  /** A verification to perform, and what performing it returns. */
  datatype Check = Check(id: nat, valid: bool)

  /** Where a thread is in `Loop`. A working thread took `size` checks, has `rest` left to run and
      `fOk` as its result so far. A thread that was notified still has to reacquire the mutex. */
  datatype Thread = Outside | Asleep | Notified | Working(rest: seq<Check>, size: nat, fOk: bool)

  /** One completed `Wait`: the checks added since the one before, and what it returned. */
  datatype Verdict = Verdict(checks: seq<Check>, result: bool)

  /** Thread 0 is the master. `added` and `verdicts` record history and steer nothing. */
  datatype State = State(
    queue: seq<Check>,
    nIdle: int,
    nTotal: int,
    fAllOk: bool,
    nTodo: int,
    threads: seq<Thread>,
    added: seq<Check>,
    verdicts: seq<Verdict>)

  const MASTER := 0

  /** `Add` names the sleeping worker that `notify_one` picks, if there is one to pick. */
  datatype Event =
    | Add(checks: seq<Check>, picked: Option<nat>)
    | Enter(thread: nat)
    | Wake(thread: nat)
    | Execute(thread: nat)
    | Finish(thread: nat)

  predicate Initial(s: State) {
    && s.queue == [] && s.nIdle == 0 && s.nTotal == 0 && s.fAllOk && s.nTodo == 0
    && |s.threads| > 0 && (forall i :: 0 <= i < |s.threads| ==> s.threads[i] == Outside)
    && s.added == [] && s.verdicts == []
  }

  // ----- steps -----

  function Min(a: int, b: int): int {
    if a < b then a else b
  }

  /** How many checks a thread takes: at least one, at most a batch. */
  function BatchSize(s: State, batchSize: nat): (n: nat)
    requires s.nTotal >= 0 && s.nIdle >= 0 && s.queue != []
    ensures 1 <= n <= |s.queue|
    ensures n > 1 ==> n <= batchSize && n * (s.nTotal + s.nIdle + 1) <= |s.queue|
  {
    Max(1, Min(batchSize, |s.queue| / (s.nTotal + s.nIdle + 1)))
  }

  /** The inner `while (queue.empty())` and what follows it, by a thread that holds the mutex. */
  function LoopBody(s: State, t: nat, batchSize: nat): State
    requires t < |s.threads| && s.nTotal >= 0 && s.nIdle >= 0
  {
    if s.queue == [] then
      if t == MASTER && s.nTodo == 0 then
        s.(nTotal := s.nTotal - 1, fAllOk := true, threads := s.threads[t := Outside],
           added := [], verdicts := s.verdicts + [Verdict(s.added, s.fAllOk)])
      else
        s.(nIdle := s.nIdle + 1, threads := s.threads[t := Asleep])
    else
      var size := BatchSize(s, batchSize);
      var left := |s.queue| - size;
      s.(queue := s.queue[..left], threads := s.threads[t := Working(Reversed(s.queue[left..]), size, s.fAllOk)])
  }

  predicate AsleepWorker(s: State, i: nat) {
    0 < i < |s.threads| && s.threads[i] == Asleep
  }

  function NotifyAll(threads: seq<Thread>): (r: seq<Thread>)
    ensures |r| == |threads|
  {
    seq(|threads|, i requires 0 <= i < |threads| => if i > 0 && threads[i] == Asleep then Notified else threads[i])
  }

  ghost predicate Enabled(s: State, e: Event) {
    match e
    case Add(checks, picked) =>
      && |s.threads| > 0 && s.threads[MASTER] == Outside
      && (picked.Some? ==> AsleepWorker(s, picked.value))
      && (picked.None? && |checks| == 1 ==> forall i :: !AsleepWorker(s, i))
    case Enter(t) => t < |s.threads| && s.threads[t] == Outside
    case Wake(t) => t < |s.threads| && (s.threads[t] == Notified || s.threads[t] == Asleep)
    case Execute(t) => t < |s.threads| && s.threads[t].Working? && s.threads[t].rest != []
    case Finish(t) => t < |s.threads| && s.threads[t].Working? && s.threads[t].rest == []
  }

  /** The clean-up of a finished batch; the last one to finish tells a sleeping master. */
  function CleanUp(s: State, t: nat): State
    requires t < |s.threads| && s.threads[t].Working?
  {
    var nTodo := s.nTodo - s.threads[t].size;
    var s := s.(fAllOk := s.fAllOk && s.threads[t].fOk, nTodo := nTodo, threads := s.threads[t := Notified]);
    if nTodo == 0 && t != MASTER && s.threads[MASTER] == Asleep
    then s.(threads := s.threads[MASTER := Notified])
    else s
  }

  function ExecuteOne(w: Thread): Thread
    requires w.Working? && w.rest != []
  {
    w.(rest := w.rest[1..], fOk := w.fOk && w.rest[0].valid)
  }

  /** What `LoopBody` divides by is positive. */
  predicate Safe(s: State, e: Event) {
    match e
    case Enter(_) => s.nTotal >= -1 && s.nIdle >= 0
    case Wake(_) => s.nTotal >= 0 && s.nIdle >= 1
    case Finish(_) => s.nTotal >= 0 && s.nIdle >= 0
    case _ => true
  }

  ghost function Step(s: State, e: Event, batchSize: nat): State
    requires Enabled(s, e) && Safe(s, e)
  {
    match e
    case Add(checks, picked) =>
      s.(queue := s.queue + checks, nTodo := s.nTodo + |checks|, added := s.added + checks,
         threads := if |checks| == 1 && picked.Some? then s.threads[picked.value := Notified]
                    else if |checks| > 1 then NotifyAll(s.threads) else s.threads)
    case Enter(t) => LoopBody(s.(nTotal := s.nTotal + 1), t, batchSize)
    case Wake(t) => LoopBody(s.(nIdle := s.nIdle - 1), t, batchSize)
    case Execute(t) => s.(threads := s.threads[t := ExecuteOne(s.threads[t])])
    case Finish(t) => LoopBody(CleanUp(s, t), t, batchSize)
  }

  // ----- sums over the threads -----

  function Held(w: Thread): nat {
    if w.Working? then w.size else 0
  }

  function IdleOne(w: Thread): nat {
    if w.Asleep? || w.Notified? then 1 else 0
  }

  function InsideOne(w: Thread): nat {
    if w.Outside? then 0 else 1
  }

  /** How much a thread may still do while the master waits: see `Measure`. */
  function Effort(w: Thread): nat {
    match w
    case Asleep => 0
    case Outside => 1
    case Notified => 1
    case Working(rest, _, _) => 2 + |rest|
  }

  function Sum(f: Thread -> nat, threads: seq<Thread>): nat {
    if threads == [] then 0 else f(threads[0]) + Sum(f, threads[1..])
  }

  lemma {:induction false} SumUpdate(f: Thread -> nat, threads: seq<Thread>, t: nat, w: Thread)
    requires t < |threads|
    ensures Sum(f, threads[t := w]) == Sum(f, threads) - f(threads[t]) + f(w)
  {
    if t == 0 {
      assert threads[t := w][1..] == threads[1..];
    } else {
      assert threads[t := w][1..] == threads[1..][t - 1 := w];
      SumUpdate(f, threads[1..], t - 1, w);
    }
  }

  lemma {:induction false} SumPointwise(f: Thread -> nat, a: seq<Thread>, b: seq<Thread>)
    requires |a| == |b| && forall i :: 0 <= i < |a| ==> f(a[i]) == f(b[i])
    ensures Sum(f, a) == Sum(f, b)
  {
    if a != [] {
      SumPointwise(f, a[1..], b[1..]);
    }
  }

  lemma {:induction false} SumAtLeast(f: Thread -> nat, threads: seq<Thread>, t: nat)
    requires t < |threads|
    ensures Sum(f, threads) >= f(threads[t])
  {
    if t > 0 {
      SumAtLeast(f, threads[1..], t - 1);
    }
  }

  lemma {:induction false} SumPositive(f: Thread -> nat, threads: seq<Thread>) returns (t: nat)
    requires Sum(f, threads) > 0
    ensures t < |threads| && f(threads[t]) > 0
  {
    if f(threads[0]) > 0 {
      t := 0;
    } else {
      t := SumPositive(f, threads[1..]);
      t := t + 1;
    }
  }

  // ----- the invariant -----

  predicate AllValid(checks: seq<Check>) {
    forall i :: 0 <= i < |checks| ==> checks[i].valid
  }

  /** Nothing a thread holds can spoil the result any more. */
  predicate Clean(w: Thread) {
    w.Working? ==> w.fOk && AllValid(w.rest)
  }

  /** Whether everything added so far is, or will turn out, valid. */
  predicate Promising(s: State) {
    s.fAllOk && AllValid(s.queue) && forall i :: 0 <= i < |s.threads| ==> Clean(s.threads[i])
  }

  predicate Counts(s: State) {
    && |s.threads| > 0
    && s.nTodo == |s.queue| + Sum(Held, s.threads)
    && s.nIdle == Sum(IdleOne, s.threads)
    && s.nTotal == Sum(InsideOne, s.threads)
    && (forall i :: 0 <= i < |s.threads| && s.threads[i].Working? ==> s.threads[i].size >= 1)
  }

  /** A master asleep has been told nothing, and there is nothing left to tell it but the last finish. */
  predicate NoLostWakeup(s: State) {
    |s.threads| > 0 && s.threads[MASTER] == Asleep ==> s.queue == [] && s.nTodo > 0
  }

  predicate VerdictsRight(s: State) {
    forall i :: 0 <= i < |s.verdicts| ==> s.verdicts[i].result == AllValid(s.verdicts[i].checks)
  }

  predicate Inv(s: State) {
    && Counts(s)
    && (AllValid(s.added) <==> Promising(s))
    && NoLostWakeup(s)
    && VerdictsRight(s)
  }

  // ----- every step keeps it -----

  lemma AllValidConcat(a: seq<Check>, b: seq<Check>)
    ensures AllValid(a + b) <==> AllValid(a) && AllValid(b)
  {
    if AllValid(a + b) {
      assert forall i :: 0 <= i < |a| ==> a[i] == (a + b)[i];
      assert forall i :: 0 <= i < |b| ==> b[i] == (a + b)[|a| + i];
    }
  }

  lemma {:induction false} ReverseKeeps(s: seq<Check>)
    ensures |Reversed(s)| == |s| && multiset(Reversed(s)) == multiset(s)
    ensures AllValid(Reversed(s)) <==> AllValid(s)
  {
    if s != [] {
      var n := |s| - 1;
      ReverseKeeps(s[..n]);
      assert s == s[..n] + [s[n]];
      AllValidConcat(s[..n], [s[n]]);
      AllValidConcat([s[n]], Reversed(s[..n]));
    }
  }

  /** Changing one thread changes `Promising` only through that thread. */
  lemma PromisingUpdate(s: State, t: nat, w: Thread)
    requires t < |s.threads| && Clean(s.threads[t])
    ensures Promising(s.(threads := s.threads[t := w])) <==> Promising(s) && Clean(w)
  {
    var s' := s.(threads := s.threads[t := w]);
    assert s'.threads[t] == w;
    if Promising(s') {
      forall i | 0 <= i < |s.threads|
        ensures Clean(s.threads[i])
      {
        assert i != t ==> s.threads[i] == s'.threads[i];
      }
    }
  }

  /** What holds when thread `t` has the mutex and is about to look at the queue: the invariant, but
      with `t` itself counted as inside and not idle, and free to leave the master's sleep. */
  ghost predicate Ready(s: State, t: nat) {
    && t < |s.threads| && !s.threads[t].Working?
    && s.nTodo == |s.queue| + Sum(Held, s.threads)
    && s.nIdle == Sum(IdleOne, s.threads) - IdleOne(s.threads[t])
    && s.nTotal == Sum(InsideOne, s.threads) - InsideOne(s.threads[t]) + 1
    && (forall i :: 0 <= i < |s.threads| && s.threads[i].Working? ==> s.threads[i].size >= 1)
    && (AllValid(s.added) <==> Promising(s))
    && (t != MASTER ==> NoLostWakeup(s))
    && VerdictsRight(s)
    && s.nIdle >= 0 && s.nTotal >= 0
  }

  lemma SumsUpdate(threads: seq<Thread>, t: nat, w: Thread)
    requires t < |threads|
    ensures Sum(Held, threads[t := w]) == Sum(Held, threads) - Held(threads[t]) + Held(w)
    ensures Sum(IdleOne, threads[t := w]) == Sum(IdleOne, threads) - IdleOne(threads[t]) + IdleOne(w)
    ensures Sum(InsideOne, threads[t := w]) == Sum(InsideOne, threads) - InsideOne(threads[t]) + InsideOne(w)
  {
    SumUpdate(Held, threads, t, w);
    SumUpdate(IdleOne, threads, t, w);
    SumUpdate(InsideOne, threads, t, w);
  }

  /** The master returns: nobody holds a batch, so `fAllOk` is the whole truth. */
  lemma ReturnKeeps(s: State, batchSize: nat)
    requires Ready(s, MASTER) && s.queue == [] && s.nTodo == 0
    ensures Inv(LoopBody(s, MASTER, batchSize))
  {
    var s' := LoopBody(s, MASTER, batchSize);
    SumsUpdate(s.threads, MASTER, Outside);
    forall i | 0 <= i < |s.threads|
      ensures !s.threads[i].Working?
    {
      SumAtLeast(Held, s.threads, i);
    }
    assert AllValid(s.added) == s.fAllOk;
    forall i | 0 <= i < |s'.verdicts|
      ensures s'.verdicts[i].result == AllValid(s'.verdicts[i].checks)
    {
      assert i < |s.verdicts| ==> s'.verdicts[i] == s.verdicts[i];
    }
  }

  lemma SleepKeeps(s: State, t: nat, batchSize: nat)
    requires Ready(s, t) && s.queue == [] && !(t == MASTER && s.nTodo == 0)
    ensures Inv(LoopBody(s, t, batchSize))
  {
    SumsUpdate(s.threads, t, Asleep);
    PromisingUpdate(s, t, Asleep);
    assert Promising(LoopBody(s, t, batchSize)) <==> Promising(s.(threads := s.threads[t := Asleep]));
  }

  lemma TakeKeeps(s: State, t: nat, batchSize: nat)
    requires Ready(s, t) && s.queue != []
    ensures Inv(LoopBody(s, t, batchSize))
  {
    var s' := LoopBody(s, t, batchSize);
    var left := |s.queue| - BatchSize(s, batchSize);
    var w := s'.threads[t];
    SumsUpdate(s.threads, t, w);
    PromisingUpdate(s, t, w);
    assert s.queue == s.queue[..left] + s.queue[left..];
    AllValidConcat(s.queue[..left], s.queue[left..]);
    ReverseKeeps(s.queue[left..]);
    var u := s.(threads := s'.threads);
    assert Promising(s') <==> Promising(u) by {
      if Promising(s') {
        assert Clean(s'.threads[t]);
      }
    }
  }

  lemma LoopBodyKeeps(s: State, t: nat, batchSize: nat)
    requires Ready(s, t)
    ensures Inv(LoopBody(s, t, batchSize))
  {
    if s.queue != [] {
      TakeKeeps(s, t, batchSize);
    } else if t == MASTER && s.nTodo == 0 {
      ReturnKeeps(s, batchSize);
    } else {
      SleepKeeps(s, t, batchSize);
    }
  }

  lemma AddKeeps(s: State, checks: seq<Check>, picked: Option<nat>, batchSize: nat)
    requires Inv(s) && Enabled(s, Add(checks, picked))
    ensures Inv(Step(s, Add(checks, picked), batchSize))
  {
    var s' := Step(s, Add(checks, picked), batchSize);
    AllValidConcat(s.queue, checks);
    AllValidConcat(s.added, checks);
    SumPointwise(Held, s.threads, s'.threads);
    SumPointwise(IdleOne, s.threads, s'.threads);
    SumPointwise(InsideOne, s.threads, s'.threads);
    assert forall i :: 0 <= i < |s.threads| ==> (Clean(s.threads[i]) <==> Clean(s'.threads[i]));
    assert Promising(s') <==> Promising(s) && AllValid(checks) by {
      if Promising(s') {
        assert forall i :: 0 <= i < |s.threads| ==> Clean(s'.threads[i]);
      }
    }
  }

  lemma ExecuteKeeps(s: State, t: nat, batchSize: nat)
    requires Inv(s) && Enabled(s, Execute(t))
    ensures Inv(Step(s, Execute(t), batchSize))
  {
    var w := s.threads[t];
    var s' := Step(s, Execute(t), batchSize);
    SumsUpdate(s.threads, t, ExecuteOne(w));
    assert w.rest == [w.rest[0]] + w.rest[1..];
    AllValidConcat([w.rest[0]], w.rest[1..]);
    assert Clean(ExecuteOne(w)) <==> Clean(w);
    assert forall i :: 0 <= i < |s.threads| ==> (Clean(s'.threads[i]) <==> Clean(s.threads[i]));
    assert Promising(s') <==> Promising(s);
  }

  /** Clean-up moves a batch's result into `fAllOk` and loses nothing. */
  lemma CleanUpPromising(s: State, t: nat)
    requires t < |s.threads| && s.threads[t].Working? && s.threads[t].rest == []
    ensures Promising(CleanUp(s, t)) <==> Promising(s)
  {
    var s' := CleanUp(s, t);
    assert forall i :: 0 <= i < |s.threads| && i != t ==> (Clean(s'.threads[i]) <==> Clean(s.threads[i]));
    assert Clean(s'.threads[t]);
    if Promising(s') {
      assert forall i :: 0 <= i < |s.threads| ==> Clean(s'.threads[i]);
      assert Clean(s.threads[t]);
    }
  }

  lemma CleanUpSums(s: State, t: nat)
    requires t < |s.threads| && s.threads[t].Working?
    ensures Sum(Held, CleanUp(s, t).threads) == Sum(Held, s.threads) - s.threads[t].size
    ensures Sum(IdleOne, CleanUp(s, t).threads) == Sum(IdleOne, s.threads) + 1
    ensures Sum(InsideOne, CleanUp(s, t).threads) == Sum(InsideOne, s.threads)
    ensures s.threads[t].rest == [] ==> Sum(Effort, CleanUp(s, t).threads) <= Sum(Effort, s.threads)
  {
    var threads := s.threads[t := Notified];
    SumsUpdate(s.threads, t, Notified);
    SumsUpdate(threads, MASTER, Notified);
    SumUpdate(Effort, s.threads, t, Notified);
    SumUpdate(Effort, threads, MASTER, Notified);
  }

  lemma FinishReady(s: State, t: nat)
    requires Inv(s) && Enabled(s, Finish(t))
    ensures Ready(CleanUp(s, t), t)
  {
    hide Promising, AllValid, VerdictsRight;
    CleanUpPromising(s, t);
    CleanUpSums(s, t);
    VerdictsAfterCleanUp(s, t);
  }

  lemma VerdictsAfterCleanUp(s: State, t: nat)
    requires t < |s.threads| && s.threads[t].Working? && VerdictsRight(s)
    ensures VerdictsRight(CleanUp(s, t))
  {
  }

  lemma CountsMakeSafe(s: State, e: Event)
    requires Counts(s) && Enabled(s, e)
    ensures Safe(s, e)
  {
    match e
    case Wake(t) => SumAtLeast(IdleOne, s.threads, t);
    case _ =>
  }

  /** The invariant is inductive, for any number of workers and any batch size. */
  lemma StepKeeps(s: State, e: Event, batchSize: nat)
    requires Inv(s) && Enabled(s, e)
    ensures Safe(s, e) && Inv(Step(s, e, batchSize))
  {
    hide AllValid, Clean, Sum, LoopBody;
    CountsMakeSafe(s, e);
    match e
    case Add(checks, picked) => AddKeeps(s, checks, picked, batchSize);
    case Enter(t) => LoopBodyKeeps(s.(nTotal := s.nTotal + 1), t, batchSize);
    case Wake(t) =>
      SumAtLeast(IdleOne, s.threads, t);
      LoopBodyKeeps(s.(nIdle := s.nIdle - 1), t, batchSize);
    case Execute(t) => ExecuteKeeps(s, t, batchSize);
    case Finish(t) =>
      FinishReady(s, t);
      LoopBodyKeeps(CleanUp(s, t), t, batchSize);
  }

  // ----- whole runs -----

  ghost predicate Next(s: State, e: Event, s': State, batchSize: nat) {
    Enabled(s, e) && Safe(s, e) && s' == Step(s, e, batchSize)
  }

  ghost predicate IsRun(run: seq<State>, events: seq<Event>, batchSize: nat) {
    && |run| == |events| + 1
    && (forall i :: 0 <= i < |events| ==> Next(run[i], events[i], run[i + 1], batchSize))
  }

  lemma {:induction false} RunKeeps(run: seq<State>, events: seq<Event>, batchSize: nat, k: nat)
    requires IsRun(run, events, batchSize) && Inv(run[0]) && k < |run|
    ensures Inv(run[k])
  {
    if k > 0 {
      RunKeeps(run, events, batchSize, k - 1);
      assert Next(run[k - 1], events[k - 1], run[k], batchSize);
      StepKeeps(run[k - 1], events[k - 1], batchSize);
    }
  }

  lemma InitialInv(s: State)
    requires Initial(s)
    ensures Inv(s)
  {
    SumOutside(Held, s.threads);
    SumOutside(IdleOne, s.threads);
    SumOutside(InsideOne, s.threads);
  }

  lemma {:induction false} SumOutside(f: Thread -> nat, threads: seq<Thread>)
    requires f(Outside) == 0 && forall i :: 0 <= i < |threads| ==> threads[i] == Outside
    ensures Sum(f, threads) == 0
  {
    if threads != [] {
      SumOutside(f, threads[1..]);
    }
  }

  /** In every interleaving, every `Wait` has returned true exactly when all the checks added since
      the previous `Wait` evaluate to true. */
  lemma EveryWaitIsRight(run: seq<State>, events: seq<Event>, batchSize: nat, k: nat, i: nat)
    requires IsRun(run, events, batchSize) && Initial(run[0]) && k < |run|
    requires i < |run[k].verdicts|
    ensures run[k].verdicts[i].result <==>
            forall j :: 0 <= j < |run[k].verdicts[i].checks| ==> run[k].verdicts[i].checks[j].valid
  {
    InitialInv(run[0]);
    RunKeeps(run, events, batchSize, k);
    assert run[k].verdicts[i].result == AllValid(run[k].verdicts[i].checks);
  }

  /** In every interleaving, `nTodo` is the queued checks plus those in unfinished batches, and the
      two thread counters are exact. */
  lemma CountersAreExact(run: seq<State>, events: seq<Event>, batchSize: nat, k: nat)
    requires IsRun(run, events, batchSize) && Initial(run[0]) && k < |run|
    ensures run[k].nTodo == |run[k].queue| + Sum(Held, run[k].threads)
    ensures run[k].nIdle == Sum(IdleOne, run[k].threads)
    ensures run[k].nTotal == Sum(InsideOne, run[k].threads)
  {
    InitialInv(run[0]);
    RunKeeps(run, events, batchSize, k);
  }

  /** In every interleaving, whatever a thread is to do next can be done: nothing is divided by 0. */
  lemma RunIsSafe(run: seq<State>, events: seq<Event>, batchSize: nat, e: Event)
    requires IsRun(run, events, batchSize) && Initial(run[0]) && Enabled(run[|events|], e)
    ensures Safe(run[|events|], e)
  {
    InitialInv(run[0]);
    RunKeeps(run, events, batchSize, |events|);
    CountsMakeSafe(run[|events|], e);
  }

  // ----- the master is never left waiting -----

  predicate MasterWaits(s: State) {
    |s.threads| > 0 && s.threads[MASTER] != Outside
  }

  /** A step that is not a wake-up out of nowhere, which condition variables allow at any time. */
  predicate Productive(s: State, e: Event) {
    match e
    case Add(_, _) => false
    case Wake(t) => t < |s.threads| && s.threads[t] == Notified
    case _ => true
  }

  /** A master asleep and not notified means that some worker still holds a batch. */
  lemma SleepingMasterHasAWorker(s: State) returns (t: nat)
    requires Inv(s) && s.threads[MASTER] == Asleep
    ensures 0 < t < |s.threads| && s.threads[t].Working?
  {
    t := SumPositive(Held, s.threads);
  }

  /** So while the master waits there is always a thread that can go on by itself. */
  lemma NeverStuck(s: State) returns (e: Event)
    requires Inv(s) && MasterWaits(s)
    ensures Enabled(s, e) && Productive(s, e)
  {
    var t := MASTER;
    if s.threads[MASTER] == Asleep {
      t := SleepingMasterHasAWorker(s);
    }
    if s.threads[t].Working? {
      e := if s.threads[t].rest == [] then Finish(t) else Execute(t);
    } else {
      e := Wake(t);
    }
  }

  /** Bounds the number of productive steps before the master returns. */
  function Measure(s: State): nat {
    3 * |s.queue| + Sum(Effort, s.threads)
  }

  lemma LoopBodyMeasure(s: State, t: nat, batchSize: nat)
    requires t < |s.threads| && s.nTotal >= 0 && s.nIdle >= 0 && Effort(s.threads[t]) >= 1
    requires !(s.queue == [] && t == MASTER && s.nTodo == 0)
    ensures Measure(LoopBody(s, t, batchSize)) < Measure(s)
  {
    var s' := LoopBody(s, t, batchSize);
    SumUpdate(Effort, s.threads, t, s'.threads[t]);
    if s.queue != [] {
      ReverseKeeps(s.queue[|s.queue| - BatchSize(s, batchSize)..]);
    }
  }

  /** A thread that slept, woken for nothing, takes work or goes back to sleep. */
  lemma LoopBodyNoGrowth(s: State, t: nat, batchSize: nat)
    requires t < |s.threads| && s.nTotal >= 0 && s.nIdle >= 0 && s.threads[t] == Asleep
    requires !(s.queue == [] && t == MASTER && s.nTodo == 0)
    ensures Measure(LoopBody(s, t, batchSize)) <= Measure(s)
  {
    var s' := LoopBody(s, t, batchSize);
    SumUpdate(Effort, s.threads, t, s'.threads[t]);
    if s.queue != [] {
      ReverseKeeps(s.queue[|s.queue| - BatchSize(s, batchSize)..]);
    }
  }

  /** While the master waits, every productive step brings its return closer, and no step, not even
      a wake-up out of nowhere, takes it further away. */
  lemma StepMeasure(s: State, e: Event, s': State, batchSize: nat)
    requires Inv(s) && MasterWaits(s) && Next(s, e, s', batchSize) && MasterWaits(s')
    ensures Measure(s') + (if Productive(s, e) then 1 else 0) <= Measure(s)
  {
    hide Promising, AllValid, VerdictsRight, Sum, BatchSize, Reversed;
    match e
    case Enter(t) =>
      LoopBodyMeasure(s.(nTotal := s.nTotal + 1), t, batchSize);
    case Wake(t) =>
      if s.threads[t] == Notified {
        LoopBodyMeasure(s.(nIdle := s.nIdle - 1), t, batchSize);
      } else {
        LoopBodyNoGrowth(s.(nIdle := s.nIdle - 1), t, batchSize);
      }
    case Execute(t) =>
      SumUpdate(Effort, s.threads, t, ExecuteOne(s.threads[t]));
    case Finish(t) =>
      CleanUpSums(s, t);
      LoopBodyMeasure(CleanUp(s, t), t, batchSize);
  }

  /** How many of the first `k` steps of a run are productive. */
  ghost function ProductiveSteps(run: seq<State>, events: seq<Event>, k: nat): nat
    requires k <= |events| < |run|
  {
    if k == 0 then 0 else ProductiveSteps(run, events, k - 1) + if Productive(run[k - 1], events[k - 1]) then 1 else 0
  }

  lemma {:induction false} MeasureFalls(run: seq<State>, events: seq<Event>, batchSize: nat, k: nat)
    requires IsRun(run, events, batchSize) && Inv(run[0]) && k <= |events|
    requires forall i :: 0 <= i < |run| ==> MasterWaits(run[i])
    ensures ProductiveSteps(run, events, k) + Measure(run[k]) <= Measure(run[0])
  {
    hide Inv, Enabled, Step, Safe, Measure, Productive, MasterWaits, Counts;
    if k > 0 {
      MeasureFalls(run, events, batchSize, k - 1);
      RunKeeps(run, events, batchSize, k - 1);
      assert Next(run[k - 1], events[k - 1], run[k], batchSize);
      StepMeasure(run[k - 1], events[k - 1], run[k], batchSize);
    }
  }

  /** However the threads are scheduled, and however often one wakes up out of nowhere, a pool whose
      master waits makes at most `Measure` productive steps; by `NeverStuck` there is one to make until
      the master is out. */
  lemma WaitReturns(run: seq<State>, events: seq<Event>, batchSize: nat)
    requires IsRun(run, events, batchSize) && Inv(run[0])
    requires forall i :: 0 <= i < |run| ==> MasterWaits(run[i])
    ensures ProductiveSteps(run, events, |events|) <= Measure(run[0])
  {
    MeasureFalls(run, events, batchSize, |events|);
  }

  /** A run without an end. */
  ghost predicate Unending(run: nat -> State, events: nat -> Event, batchSize: nat) {
    forall i: nat :: Next(run(i), events(i), run(i + 1), batchSize)
  }

  /** A thread that has something to do, whatever the others do: it holds a batch, or it was notified. */
  predicate Busy(s: State, t: nat) {
    t < |s.threads| && (s.threads[t].Working? || s.threads[t] == Notified)
  }

  predicate Acts(e: Event, t: nat) {
    match e
    case Add(_, _) => false
    case Enter(u) => u == t
    case Wake(u) => u == t
    case Execute(u) => u == t
    case Finish(u) => u == t
  }

  ghost predicate BusyFrom(run: nat -> State, t: nat, n: nat) {
    forall i: nat :: n <= i ==> Busy(run(i), t)
  }

  ghost predicate ActsFrom(events: nat -> Event, t: nat, n: nat) {
    exists i: nat :: n <= i && Acts(events(i), t)
  }

  /** What is asked of the scheduler: a thread that has something to do from some moment on gets to do
      something. */
  ghost predicate WeaklyFair(run: nat -> State, events: nat -> Event) {
    forall t: nat, n: nat :: BusyFrom(run, t, n) ==> ActsFrom(events, t, n)
  }

  /** The master is out, or a step helps, at some moment from `n` on. */
  ghost predicate HelpFrom(run: nat -> State, events: nat -> Event, n: nat) {
    exists i: nat :: n <= i && (!MasterWaits(run(i)) || Productive(run(i), events(i)))
  }

  lemma {:induction false} UnendingKeeps(run: nat -> State, events: nat -> Event, batchSize: nat, k: nat)
    requires Unending(run, events, batchSize) && Inv(run(0))
    ensures Inv(run(k))
  {
    if k > 0 {
      UnendingKeeps(run, events, batchSize, k - 1);
      assert Next(run(k - 1), events(k - 1), run(k - 1 + 1), batchSize);
      StepKeeps(run(k - 1), events(k - 1), batchSize);
    }
  }

  /** Up to a later moment the master got out, or the measure did not grow. */
  lemma {:induction false} OutOrNoGrowth(run: nat -> State, events: nat -> Event, batchSize: nat, n: nat, i: nat) returns (k: nat)
    requires Unending(run, events, batchSize) && Inv(run(0)) && n <= i
    ensures n <= k <= i && (!MasterWaits(run(k)) || (k == i && Measure(run(i)) <= Measure(run(n))))
    decreases i - n
  {
    hide Inv, Enabled, Step, Safe, Measure, Productive, MasterWaits;
    k := n;
    if n < i && MasterWaits(run(n)) {
      UnendingKeeps(run, events, batchSize, n);
      assert Next(run(n), events(n), run(n + 1), batchSize);
      if MasterWaits(run(n + 1)) {
        StepMeasure(run(n), events(n), run(n + 1), batchSize);
        k := OutOrNoGrowth(run, events, batchSize, n + 1, i);
      } else {
        k := n + 1;
      }
    }
  }

  /** If help always comes, the master gets out. */
  lemma {:induction false} HelpGetsOut(run: nat -> State, events: nat -> Event, batchSize: nat, n: nat) returns (k: nat)
    requires Unending(run, events, batchSize) && Inv(run(0)) && forall m: nat :: HelpFrom(run, events, m)
    ensures n <= k && !MasterWaits(run(k))
    decreases Measure(run(n))
  {
    hide Inv, Enabled, Step, Safe, Measure, Productive, MasterWaits;
    assert HelpFrom(run, events, n);
    var i: nat :| n <= i && (!MasterWaits(run(i)) || Productive(run(i), events(i)));
    k := OutOrNoGrowth(run, events, batchSize, n, i);
    if MasterWaits(run(k)) {
      UnendingKeeps(run, events, batchSize, i);
      assert Next(run(i), events(i), run(i + 1), batchSize);
      if MasterWaits(run(i + 1)) {
        StepMeasure(run(i), events(i), run(i + 1), batchSize);
        k := HelpGetsOut(run, events, batchSize, i + 1);
      } else {
        k := i + 1;
      }
    }
  }

  /** While the master waits there is a thread that has something to do. */
  lemma SomeoneIsBusy(s: State) returns (t: nat)
    requires Inv(s) && MasterWaits(s)
    ensures Busy(s, t)
  {
    t := MASTER;
    if s.threads[MASTER] == Asleep {
      t := SleepingMasterHasAWorker(s);
    }
  }

  /** It keeps having something to do until it acts, and then what it does helps. */
  lemma BusyStays(s: State, e: Event, s': State, batchSize: nat, t: nat)
    requires Next(s, e, s', batchSize) && Busy(s, t)
    ensures Acts(e, t) ==> Productive(s, e)
    ensures !Acts(e, t) ==> Busy(s', t)
  {
    hide BatchSize, Reversed;
  }

  lemma {:induction false} BusyOnAndOn(run: nat -> State, events: nat -> Event, batchSize: nat, t: nat, n: nat, i: nat)
    requires Unending(run, events, batchSize) && Busy(run(n), t) && n <= i
    requires forall k: nat :: n <= k ==> !Productive(run(k), events(k))
    ensures Busy(run(i), t)
    decreases i - n
  {
    hide Next, Busy, Productive;
    if n < i {
      BusyOnAndOn(run, events, batchSize, t, n, i - 1);
      assert Next(run(i - 1), events(i - 1), run(i - 1 + 1), batchSize);
      BusyStays(run(i - 1), events(i - 1), run(i), batchSize, t);
    }
  }

  /** A fair scheduler makes help come. */
  lemma FairnessHelps(run: nat -> State, events: nat -> Event, batchSize: nat, n: nat)
    requires Unending(run, events, batchSize) && Inv(run(0)) && WeaklyFair(run, events)
    ensures HelpFrom(run, events, n)
  {
    hide Inv, Busy, Productive, Next, MasterWaits, Acts;
    UnendingKeeps(run, events, batchSize, n);
    if !HelpFrom(run, events, n) {
      assert MasterWaits(run(n));
      var t := SomeoneIsBusy(run(n));
      NoHelpNoAct(run, events, batchSize, t, n);
    }
  }

  /** A busy thread that is treated fairly does help. */
  lemma NoHelpNoAct(run: nat -> State, events: nat -> Event, batchSize: nat, t: nat, n: nat)
    requires Unending(run, events, batchSize) && WeaklyFair(run, events) && Busy(run(n), t)
    ensures exists k: nat :: n <= k && Productive(run(k), events(k))
  {
    hide Busy, Productive, Next, Acts;
    if forall k: nat :: n <= k ==> !Productive(run(k), events(k)) {
      forall i: nat | n <= i
        ensures Busy(run(i), t)
      {
        BusyOnAndOn(run, events, batchSize, t, n, i);
      }
      assert BusyFrom(run, t, n);
      var i: nat :| n <= i && Acts(events(i), t);
      assert Next(run(i), events(i), run(i + 1), batchSize);
      BusyStays(run(i), events(i), run(i + 1), batchSize, t);
      assert false;
    }
  }

  /** `Wait` returns: in every unending run under a scheduler that lets every thread with something to do
      do something, and however often threads wake up out of nowhere, after any moment there comes one
      at which the master is not waiting. */
  lemma WaitAlwaysReturns(run: nat -> State, events: nat -> Event, batchSize: nat, n: nat) returns (k: nat)
    requires Unending(run, events, batchSize) && Inv(run(0)) && WeaklyFair(run, events)
    ensures n <= k && !MasterWaits(run(k))
  {
    hide Inv, MasterWaits, HelpFrom, Next;
    forall m: nat
      ensures HelpFrom(run, events, m)
    {
      FairnessHelps(run, events, batchSize, m);
    }
    k := HelpGetsOut(run, events, batchSize, n);
  }
}
