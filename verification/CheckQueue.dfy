/**
 The parallel check queue: one master and any number of workers share a stack of
 checks under one mutex and two condition variables (src/checkqueue.h).

 Every critical section of the loop is one atomic step, so a run is a sequence of
 steps of any threads in any order. A thread blocked on a condition variable may
 be woken by a notification or by nothing at all.
 */
module CheckQueue {
  import opened Options
  import opened Arithmetic

  /** One verification; `passes` is what its operator() returns. */
  datatype Check = Check(id: nat, passes: bool)

  /** Where a thread is: outside Loop, blocked on its condition variable, notified but
      not yet holding the mutex again, or executing a batch without the mutex. */
  datatype Phase = Out | Waiting | Woken | Working(taken: nat, todo: seq<Check>, ok: bool)

  /** `added` records the checks added since the last return of Wait, `ret` what it returned. */
  datatype State = State(
    queue: seq<Check>, nIdle: int, nTotal: int, fAllOk: bool, nTodo: int, nBatchSize: nat,
    threads: seq<Phase>, added: seq<Check>, ret: Option<bool>)

  /** `Add` names the worker that notify_one picks, if the batch has one check. */
  datatype Step =
    | Enter(i: nat) | RunCheck(i: nat) | Finish(i: nat) | Reacquire(i: nat) | Spurious(i: nat)
    | Add(checks: seq<Check>, chosen: nat)

  const MASTER := 0

  predicate AllPass(checks: seq<Check>) {
    forall c | c in checks :: c.passes
  }

  function Init(workers: nat, batchSize: nat): State {
    State([], 0, 0, true, 0, batchSize, seq(workers + 1, _ => Out), [], None)
  }

  /** How many checks a thread takes: a share of the queue, at least one, at most nBatchSize. */
  function BatchSize(s: State): nat
    requires s.queue != [] && s.nTotal + s.nIdle + 1 > 0
  {
    var share := |s.queue| / (s.nTotal + s.nIdle + 1);
    var capped := if s.nBatchSize < share then s.nBatchSize else share;
    if 1 < capped then capped else 1
  }

  /** The part of Loop after the clean-up, run by thread i while it holds the mutex. */
  function LoopTop(s: State, i: nat): State
    requires i < |s.threads| && s.nTotal + s.nIdle + 1 > 0
  {
    if s.queue == [] then
      if i == MASTER && s.nTodo == 0 then
        s.(nTotal := s.nTotal - 1, fAllOk := true, threads := s.threads[i := Out], added := [], ret := Some(s.fAllOk))
      else
        s.(nIdle := s.nIdle + 1, threads := s.threads[i := Waiting])
    else
      var n := BatchSize(s);
      assert n <= |s.queue| by { ShareFits(s); }
      var batch := seq(n, k requires 0 <= k < n => s.queue[|s.queue| - 1 - k]);
      s.(queue := s.queue[..|s.queue| - n], threads := s.threads[i := Working(n, batch, s.fAllOk)])
  }

  lemma ShareFits(s: State)
    requires s.queue != [] && s.nTotal + s.nIdle + 1 > 0
    ensures 1 <= BatchSize(s) <= |s.queue|
  {
    var d := s.nTotal + s.nIdle + 1;
    assert |s.queue| / d * d <= |s.queue|;
    assert |s.queue| / d <= |s.queue| / d * d;
  }

  function NotifyMaster(s: State): State
    requires |s.threads| > 0
  {
    if s.threads[MASTER] == Waiting then s.(threads := s.threads[MASTER := Woken]) else s
  }

  function NotifyAllWorkers(ts: seq<Phase>): (r: seq<Phase>)
  {
    seq(|ts|, i requires 0 <= i < |ts| => if i != MASTER && ts[i] == Waiting then Woken else ts[i])
  }

  /** Only the master adds, between two calls of Wait; notify_one picks a waiting worker if there is one. */
  predicate Enabled(s: State, step: Step) {
    match step
    case Enter(i) => i < |s.threads| && s.threads[i] == Out
    case RunCheck(i) => i < |s.threads| && s.threads[i].Working? && s.threads[i].todo != []
    case Finish(i) => i < |s.threads| && s.threads[i].Working? && s.threads[i].todo == []
    case Reacquire(i) => i < |s.threads| && s.threads[i] == Woken
    case Spurious(i) => i < |s.threads| && s.threads[i] == Waiting
    case Add(checks, chosen) =>
      |s.threads| > 0 && s.threads[MASTER] == Out &&
      (|checks| == 1 && (exists w :: 0 < w < |s.threads| && s.threads[w] == Waiting) ==>
         0 < chosen < |s.threads| && s.threads[chosen] == Waiting)
  }

  ghost predicate Counted(s: State) {
    && |s.threads| > 0
    && s.nTodo == |s.queue| + Sum(s.threads, Held)
    && s.nIdle == Sum(s.threads, Idle)
    && s.nTotal == Sum(s.threads, InLoop)
    && forall i | 0 <= i < |s.threads| && s.threads[i].Working? ::
         1 <= s.threads[i].taken && |s.threads[i].todo| <= s.threads[i].taken
  }

  function Apply(s: State, step: Step): State
    requires Counted(s) && Enabled(s, step)
  {
    match step
    case Enter(i) => LoopTop(s.(nTotal := s.nTotal + 1), i)
    case RunCheck(i) =>
      var t := s.threads[i];
      s.(threads := s.threads[i := t.(todo := t.todo[1..], ok := t.ok && t.todo[0].passes)])
    case Finish(i) =>
      var t := s.threads[i];
      var s1 := s.(fAllOk := s.fAllOk && t.ok, nTodo := s.nTodo - t.taken);
      LoopTop(if s1.nTodo == 0 && i != MASTER then NotifyMaster(s1) else s1, i)
    case Reacquire(i) =>
      SumUpdate(s.threads, i, Out, Idle);
      LoopTop(s.(nIdle := s.nIdle - 1), i)
    case Spurious(i) => s.(threads := s.threads[i := Woken])
    case Add(checks, chosen) =>
      var s1 := s.(queue := s.queue + checks, nTodo := s.nTodo + |checks|, added := s.added + checks);
      if |checks| == 1 then
        if chosen < |s.threads| && chosen != MASTER && s.threads[chosen] == Waiting
        then s1.(threads := s1.threads[chosen := Woken]) else s1
      else if |checks| > 1 then s1.(threads := NotifyAllWorkers(s1.threads))
      else s1
  }

  // ---------- counting over threads ----------

  function Held(p: Phase): nat { if p.Working? then p.taken else 0 }
  function Idle(p: Phase): nat { if p == Waiting || p == Woken then 1 else 0 }
  function InLoop(p: Phase): nat { if p == Out then 0 else 1 }
  function Pending(p: Phase): nat { if p.Working? then |p.todo| else 0 }
  function IsWoken(p: Phase): nat { if p == Woken then 1 else 0 }

  function Sum(ts: seq<Phase>, f: Phase -> nat): nat {
    if ts == [] then 0 else f(ts[0]) + Sum(ts[1..], f)
  }

  lemma {:induction false} SumUpdate(ts: seq<Phase>, i: nat, p: Phase, f: Phase -> nat)
    requires i < |ts|
    ensures Sum(ts[i := p], f) == Sum(ts, f) - f(ts[i]) + f(p)
    ensures Sum(ts, f) >= f(ts[i])
  {
    if i == 0 {
      assert ts[i := p][1..] == ts[1..];
    } else {
      assert ts[i := p][1..] == ts[1..][i - 1 := p];
      SumUpdate(ts[1..], i - 1, p, f);
    }
  }

  lemma {:induction false} SumSame(ts: seq<Phase>, us: seq<Phase>, f: Phase -> nat)
    requires |ts| == |us| && forall i | 0 <= i < |ts| :: f(ts[i]) == f(us[i])
    ensures Sum(ts, f) == Sum(us, f)
  {
    if ts != [] {
      SumSame(ts[1..], us[1..], f);
    }
  }

  lemma {:induction false} SumZero(ts: seq<Phase>, f: Phase -> nat)
    ensures Sum(ts, f) == 0 <==> forall i | 0 <= i < |ts| :: f(ts[i]) == 0
  {
    if ts != [] {
      SumZero(ts[1..], f);
      assert forall i | 0 < i < |ts| :: ts[i] == ts[1..][i - 1];
    }
  }

  lemma {:induction false} SumAtMost(ts: seq<Phase>, f: Phase -> nat, g: Phase -> nat)
    requires forall p :: f(p) <= g(p)
    ensures Sum(ts, f) <= Sum(ts, g)
  {
    if ts != [] {
      SumAtMost(ts[1..], f, g);
    }
  }

  // ---------- the invariant ----------

  /** The conjunction of everything added is what is still to be conjoined. */
  ghost predicate Verdict(s: State) {
    AllPass(s.added) <==>
    (s.fAllOk && AllPass(s.queue) &&
     forall i | 0 <= i < |s.threads| && s.threads[i].Working? :: s.threads[i].ok && AllPass(s.threads[i].todo))
  }

  ghost predicate Inv(s: State) {
    && Counted(s)
    && Verdict(s)
    && s.nTodo <= |s.added|
    && (s.threads[MASTER] == Waiting ==> s.queue == [] && s.nTodo > 0)
  }

  /** A controller's constructor asserts this before it is used (src/checkqueue.h:183-190). */
  predicate IsIdle(s: State) {
    s.nTotal == s.nIdle && s.nTodo == 0 && s.fAllOk
  }

  lemma InitInv(workers: nat, batchSize: nat)
    ensures Inv(Init(workers, batchSize))
  {
    var s := Init(workers, batchSize);
    SumZero(s.threads, Held);
    SumZero(s.threads, Idle);
    SumZero(s.threads, InLoop);
  }

  /** LoopTop of a thread that currently counts as being in the loop, but neither idle nor holding a batch. */
  lemma LoopTopInv(s: State, i: nat)
    requires i < |s.threads|
    requires s.nTodo == |s.queue| + Sum(s.threads[i := Out], Held)
    requires s.nIdle == Sum(s.threads[i := Out], Idle)
    requires s.nTotal == Sum(s.threads[i := Out], InLoop) + 1
    requires forall j | 0 <= j < |s.threads| && s.threads[j].Working? :: 1 <= s.threads[j].taken && |s.threads[j].todo| <= s.threads[j].taken
    requires Verdict(s.(threads := s.threads[i := Out])) && s.nTodo <= |s.added|
    requires i != MASTER && s.threads[MASTER] == Waiting ==> s.queue == [] && s.nTodo > 0
    ensures Inv(LoopTop(s, i))
    ensures LoopTop(s, i).threads[i] == Out ==> i == MASTER && LoopTop(s, i).ret == Some(AllPass(s.added)) && IsIdle(LoopTop(s, i))
  {
    hide Sum, BatchSize;
    var o := s.threads[i := Out];
    var s' := LoopTop(s, i);
    assert s'.threads == o[i := s'.threads[i]];
    SumUpdate(o, i, s'.threads[i], Held);
    SumUpdate(o, i, s'.threads[i], Idle);
    SumUpdate(o, i, s'.threads[i], InLoop);
    SumZero(o, Held);
    if s.queue == [] {
      assert forall j | 0 <= j < |o| :: o[j].Working? <==> s'.threads[j].Working?;
      if i == MASTER && s.nTodo == 0 {
        NobodyHolds(o);
        assert AllPass(s.added) == s.fAllOk;
      }
    } else {
      ShareFits(s);
      TakenVerdict(s, i);
    }
  }

  lemma NobodyHolds(ts: seq<Phase>)
    requires Sum(ts, Held) == 0
    requires forall j | 0 <= j < |ts| && ts[j].Working? :: 1 <= ts[j].taken
    ensures forall j | 0 <= j < |ts| :: !ts[j].Working?
    ensures Sum(ts, Idle) == Sum(ts, InLoop)
  {
    SumZero(ts, Held);
    forall j | 0 <= j < |ts| ensures !ts[j].Working? {
      assert Held(ts[j]) == 0;
    }
    SumSame(ts, ts, Idle);
    InLoopIsIdle(ts);
  }

  lemma {:induction false} InLoopIsIdle(ts: seq<Phase>)
    requires forall j | 0 <= j < |ts| :: !ts[j].Working?
    ensures Sum(ts, Idle) == Sum(ts, InLoop)
  {
    if ts != [] {
      InLoopIsIdle(ts[1..]);
    }
  }

  lemma TakenVerdict(s: State, i: nat)
    requires i < |s.threads| && s.queue != [] && s.nTotal + s.nIdle + 1 > 0
    requires Verdict(s.(threads := s.threads[i := Out]))
    ensures Verdict(LoopTop(s, i))
  {
    ShareFits(s);
    var o := s.threads[i := Out];
    var s' := LoopTop(s, i);
    var n := BatchSize(s);
    var batch := s'.threads[i].todo;
    assert forall c | c in s.queue :: c in s'.queue || c in batch by {
      forall c | c in s.queue ensures c in s'.queue || c in batch {
        var k :| 0 <= k < |s.queue| && s.queue[k] == c;
        if k < |s.queue| - n {
          assert s'.queue[k] == c;
        } else {
          assert batch[|s.queue| - 1 - k] == c;
        }
      }
    }
    assert AllPass(s.queue) <==> AllPass(s'.queue) && AllPass(batch);
    assert forall j | 0 <= j < |o| && j != i :: o[j] == s'.threads[j];
    assert s'.threads[i].Working? && !o[i].Working?;
  }

  lemma StepInv(s: State, step: Step)
    requires Inv(s) && Enabled(s, step)
    ensures Inv(Apply(s, step))
    ensures Apply(s, step).nBatchSize == s.nBatchSize && |Apply(s, step).threads| == |s.threads|
    ensures Returns(s, step) ==> Apply(s, step).ret == Some(AllPass(s.added)) && IsIdle(Apply(s, step))
  {
    match step
    case Enter(i) => EnterInv(s, i);
    case RunCheck(i) => RunCheckInv(s, i);
    case Finish(i) => FinishInv(s, i);
    case Reacquire(i) => ReacquireInv(s, i);
    case Spurious(i) => SamePhasesInv(s, Apply(s, step).threads);
    case Add(checks, chosen) => AddInv(s, checks, chosen);
  }

  lemma EnterInv(s: State, i: nat)
    requires Inv(s) && Enabled(s, Enter(i))
    ensures Inv(Apply(s, Enter(i)))
    ensures Returns(s, Enter(i)) ==> Apply(s, Enter(i)).ret == Some(AllPass(s.added)) && IsIdle(Apply(s, Enter(i)))
  {
    assert s.threads[i := Out] == s.threads;
    LoopTopInv(s.(nTotal := s.nTotal + 1), i);
  }

  lemma ReacquireInv(s: State, i: nat)
    requires Inv(s) && Enabled(s, Reacquire(i))
    ensures Inv(Apply(s, Reacquire(i)))
    ensures Returns(s, Reacquire(i)) ==> Apply(s, Reacquire(i)).ret == Some(AllPass(s.added)) && IsIdle(Apply(s, Reacquire(i)))
  {
    SumUpdate(s.threads, i, Out, Held);
    SumUpdate(s.threads, i, Out, Idle);
    SumUpdate(s.threads, i, Out, InLoop);
    assert forall j | 0 <= j < |s.threads| && j != i :: s.threads[i := Out][j] == s.threads[j];
    LoopTopInv(s.(nIdle := s.nIdle - 1), i);
  }

  /** Moving threads between Waiting and Woken changes nothing that is counted. */
  lemma SamePhasesInv(s: State, ts: seq<Phase>)
    requires Inv(s) && |ts| == |s.threads|
    requires forall j | 0 <= j < |ts| :: ts[j] == s.threads[j] || (s.threads[j] == Waiting && ts[j] == Woken)
    ensures Inv(s.(threads := ts))
  {
    SumSame(s.threads, ts, Held);
    SumSame(s.threads, ts, Idle);
    SumSame(s.threads, ts, InLoop);
  }

  lemma RunCheckInv(s: State, i: nat)
    requires Inv(s) && Enabled(s, RunCheck(i))
    ensures Inv(Apply(s, RunCheck(i)))
  {
    var t, ts := s.threads[i], Apply(s, RunCheck(i)).threads;
    SumUpdate(s.threads, i, ts[i], Held);
    SumUpdate(s.threads, i, ts[i], Idle);
    SumUpdate(s.threads, i, ts[i], InLoop);
    assert t.todo == [t.todo[0]] + t.todo[1..];
    assert AllPass(t.todo) <==> t.todo[0].passes && AllPass(t.todo[1..]);
    assert ts[i].ok && AllPass(ts[i].todo) <==> t.ok && AllPass(t.todo);
    assert forall j | 0 <= j < |ts| && j != i :: ts[j] == s.threads[j];
  }

  /** What the clean-up of a finished batch leaves for LoopTop, before the master is notified. */
  lemma CleanUp(s: State, i: nat, s1: State)
    requires Inv(s) && Enabled(s, Finish(i))
    requires s1 == s.(fAllOk := s.fAllOk && s.threads[i].ok, nTodo := s.nTodo - s.threads[i].taken)
    ensures s1.nTodo == |s1.queue| + Sum(s.threads[i := Out], Held)
    ensures s1.nIdle == Sum(s.threads[i := Out], Idle)
    ensures s1.nTotal == Sum(s.threads[i := Out], InLoop) + 1
    ensures Verdict(s1.(threads := s.threads[i := Out]))
  {
    var o := s.threads[i := Out];
    SumUpdate(s.threads, i, Out, Held);
    SumUpdate(s.threads, i, Out, Idle);
    SumUpdate(s.threads, i, Out, InLoop);
    assert forall j | 0 <= j < |o| && j != i :: o[j] == s.threads[j];
    assert AllPass(s.threads[i].todo);
  }

  lemma FinishInv(s: State, i: nat)
    requires Inv(s) && Enabled(s, Finish(i))
    ensures Inv(Apply(s, Finish(i)))
    ensures Returns(s, Finish(i)) ==> Apply(s, Finish(i)).ret == Some(AllPass(s.added)) && IsIdle(Apply(s, Finish(i)))
  {
    hide Sum, BatchSize, AllPass;
    var s1 := s.(fAllOk := s.fAllOk && s.threads[i].ok, nTodo := s.nTodo - s.threads[i].taken);
    CleanUp(s, i, s1);
    if s1.nTodo == 0 && i != MASTER && s.threads[MASTER] == Waiting {
      NotifiedCleanUp(s, i, s1);
    } else {
      LoopTopInv(s1, i);
    }
  }

  lemma NotifiedCleanUp(s: State, i: nat, s1: State)
    requires Inv(s) && Enabled(s, Finish(i)) && i != MASTER && s.threads[MASTER] == Waiting
    requires s1 == s.(fAllOk := s.fAllOk && s.threads[i].ok, nTodo := s.nTodo - s.threads[i].taken)
    ensures Inv(LoopTop(NotifyMaster(s1), i))
  {
    CleanUp(s, i, s1);
    var o := s.threads[i := Out];
    var o2 := NotifyMaster(s1).threads[i := Out];
    assert o2 == o[MASTER := Woken];
    SumUpdate(o, MASTER, Woken, Held);
    SumUpdate(o, MASTER, Woken, Idle);
    SumUpdate(o, MASTER, Woken, InLoop);
    assert forall j | 0 <= j < |o| && j != MASTER :: o2[j] == o[j];
    LoopTopInv(NotifyMaster(s1), i);
  }

  lemma AddInv(s: State, checks: seq<Check>, chosen: nat)
    requires Inv(s) && Enabled(s, Add(checks, chosen))
    ensures Inv(Apply(s, Add(checks, chosen)))
  {
    var s1 := s.(queue := s.queue + checks, nTodo := s.nTodo + |checks|, added := s.added + checks);
    assert AllPass(s1.queue) <==> AllPass(s.queue) && AllPass(checks);
    assert AllPass(s1.added) <==> AllPass(s.added) && AllPass(checks);
    SamePhasesInv(s1, Apply(s, Add(checks, chosen)).threads);
  }

  // ---------- runs ----------

  predicate IsRun(s: State, steps: seq<Step>)
    requires Inv(s)
    decreases |steps|
  {
    steps == [] || (Enabled(s, steps[0]) && (StepInv(s, steps[0]); IsRun(Apply(s, steps[0]), steps[1..])))
  }

  function Run(s: State, steps: seq<Step>): State
    requires Inv(s) && IsRun(s, steps)
    decreases |steps|
  {
    if steps == [] then s else (StepInv(s, steps[0]); Run(Apply(s, steps[0]), steps[1..]))
  }

  ghost predicate Reachable(s: State) {
    exists workers: nat, batchSize: nat, steps: seq<Step> :: ReachedBy(s, workers, batchSize, steps)
  }

  ghost predicate ReachedBy(s: State, workers: nat, batchSize: nat, steps: seq<Step>) {
    InitInv(workers, batchSize);
    IsRun(Init(workers, batchSize), steps) && Run(Init(workers, batchSize), steps) == s
  }

  lemma {:induction false} RunInv(s: State, steps: seq<Step>)
    requires Inv(s) && IsRun(s, steps)
    ensures Inv(Run(s, steps))
    decreases |steps|
  {
    if steps != [] {
      StepInv(s, steps[0]);
      RunInv(Apply(s, steps[0]), steps[1..]);
    }
  }

  lemma ReachableInv(s: State)
    requires Reachable(s)
    ensures Inv(s)
  {
    var workers: nat, batchSize: nat, steps: seq<Step> :| ReachedBy(s, workers, batchSize, steps);
    InitInv(workers, batchSize);
    RunInv(Init(workers, batchSize), steps);
  }

  // ---------- what a caller relies on ----------

  /** The step in which the master's Wait returns. */
  predicate Returns(s: State, step: Step)
    requires Counted(s) && Enabled(s, step)
  {
    !step.Add? && step.i == MASTER && Apply(s, step).threads[MASTER] == Out
  }

  /** Wait returns exactly the conjunction of the checks added since its last return, in every
      run of any number of threads, and leaves the queue idle. */
  lemma WaitReturnsConjunction(s: State, step: Step)
    requires Reachable(s) && Inv(s) && Enabled(s, step) && Returns(s, step)
    ensures Apply(s, step).ret == Some(AllPass(s.added))
    ensures IsIdle(Apply(s, step)) && Apply(s, step).added == []
  {
    ReachableInv(s);
    StepInv(s, step);
  }

  /** nTodo counts the checks that are queued or in some thread's batch; the idle and total counts are exact. */
  lemma CountersExact(s: State)
    requires Reachable(s)
    ensures s.nTodo == |s.queue| + Sum(s.threads, Held)
    ensures s.nIdle == Sum(s.threads, Idle) && s.nTotal == Sum(s.threads, InLoop)
  {
    ReachableInv(s);
  }

  /** Before the first Add of a new controller, its constructor's assertion holds. */
  lemma IdleBeforeAdding(s: State)
    requires Reachable(s) && |s.threads| > 0 && s.added == [] && s.threads[MASTER] == Out
    ensures IsIdle(s)
  {
    ReachableInv(s);
    NobodyHolds(s.threads);
  }

  /** No wake-up is lost: a master blocked on its condition variable has a worker that still holds a batch. */
  lemma NoLostWakeup(s: State)
    requires Reachable(s) && |s.threads| > 0 && s.threads[MASTER] == Waiting
    ensures exists i :: 0 < i < |s.threads| && s.threads[i].Working?
  {
    ReachableInv(s);
    SumZero(s.threads, Held);
    var i :| 0 <= i < |s.threads| && Held(s.threads[i]) != 0;
    assert i != MASTER;
  }

  // ---------- how work is shared out ----------

  predicate Takes(step: Step, i: nat) {
    step == Enter(i) || step == Finish(i) || step == Reacquire(i)
  }

  /** What such a step has done before its thread looks at the queue. */
  ghost function Ready(s: State, step: Step, i: nat): State
    requires Counted(s) && Enabled(s, step) && Takes(step, i)
  {
    match step
    case Enter(_) => s.(nTotal := s.nTotal + 1)
    case Finish(_) =>
      var s1 := s.(fAllOk := s.fAllOk && s.threads[i].ok, nTodo := s.nTodo - s.threads[i].taken);
      if s1.nTodo == 0 && i != MASTER then NotifyMaster(s1) else s1
    case Reacquire(_) => s.(nIdle := s.nIdle - 1)
  }

  lemma ReadyIs(s: State, step: Step, i: nat)
    requires Counted(s) && Enabled(s, step) && Takes(step, i)
    ensures var s1 := Ready(s, step, i);
            && i < |s1.threads| == |s.threads| && s1.nTotal + s1.nIdle + 1 > 0 && Apply(s, step) == LoopTop(s1, i)
            && s1.queue == s.queue && s1.nBatchSize == s.nBatchSize && s1.threads[i] != Waiting
            && forall w | 0 < w < |s.threads| :: s1.threads[w] == s.threads[w]
    ensures var s1 := Ready(s, step, i); forall w | 0 <= w < |s.threads| && s1.threads[w].Working? :: s1.threads[w] == s.threads[w]
  {
    hide LoopTop;
    SumUpdate(s.threads, i, Out, Idle);
    SumUpdate(s.threads, i, Out, InLoop);
  }

  /** An even share of q checks among d, at least one and at most `cap`. */
  predicate EvenShare(n: nat, q: nat, d: int, cap: nat) {
    && (n == 1 || (n <= cap && n * d <= q))
    && (n >= cap || (n + 1) * d > q)
  }

  /** A batch is one check, or as many as go into an even share of the queue but not more than nBatchSize: all that is
      left, divided by the threads in the loop, the idle ones counted twice, plus one. Nothing else leaves the queue.
      After a failure no check of the batch will be run. */
  lemma FairShare(s: State, step: Step, i: nat)
    requires Inv(s) && Enabled(s, step) && Takes(step, i) && i < |s.threads| && Apply(s, step).threads[i].Working?
    ensures var s' := Apply(s, step);
            var n := s'.threads[i].taken;
            && EvenShare(n, |s'.queue| + n, s'.nTotal + s'.nIdle + 1, s'.nBatchSize)
            && s'.threads[i].ok == s'.fAllOk && |s'.threads[i].todo| == n && multiset(s.queue) == multiset(s'.queue) + multiset(s'.threads[i].todo)
  {
    ReadyIs(s, step, i);
    hide Apply, LoopTop, EvenShare;
    TakesShare(Ready(s, step, i), i);
  }

  lemma TakesShare(s: State, i: nat)
    requires i < |s.threads| && s.nTotal + s.nIdle + 1 > 0 && LoopTop(s, i).threads[i].Working?
    ensures var s' := LoopTop(s, i);
            var n := s'.threads[i].taken;
            && EvenShare(n, |s'.queue| + n, s'.nTotal + s'.nIdle + 1, s'.nBatchSize)
            && s'.threads[i].ok == s'.fAllOk && |s'.threads[i].todo| == n && multiset(s.queue) == multiset(s'.queue) + multiset(s'.threads[i].todo)
  {
    ShareFits(s);
    var n, q := BatchSize(s), |s.queue|;
    ShareOf(s);
    hide BatchSize, EvenShare;
    var batch := LoopTop(s, i).threads[i].todo;
    assert s.queue == s.queue[..q - n] + s.queue[q - n..];
    Turned(s.queue[q - n..], batch);
  }

  lemma ShareOf(s: State)
    requires s.queue != [] && s.nTotal + s.nIdle + 1 > 0
    ensures EvenShare(BatchSize(s), |s.queue|, s.nTotal + s.nIdle + 1, s.nBatchSize)
  {
    var n, q, d := BatchSize(s), |s.queue|, s.nTotal + s.nIdle + 1;
    var share := q / d;
    ShareTimes(q, d, share);
    if n <= share {
      MulMono(n, share, d);
    }
    if share <= n {
      MulMono(share + 1, n + 1, d);
    }
  }

  lemma ShareTimes(q: nat, d: int, share: nat)
    requires d > 0 && share == q / d
    ensures share * d <= q < (share + 1) * d
  {
  }

  lemma {:induction false} Turned(a: seq<Check>, b: seq<Check>)
    requires |a| == |b| && forall k | 0 <= k < |b| :: b[k] == a[|a| - 1 - k]
    ensures multiset(a) == multiset(b)
  {
    if a != [] {
      Turned(a[1..], b[..|b| - 1]);
      assert a == [a[0]] + a[1..] && b == b[..|b| - 1] + [b[|b| - 1]];
    }
  }

  /** No batch is larger than nBatchSize; and while checks are queued, the workers do not all sleep. */
  ghost predicate Shared(s: State) {
    && (forall i | 0 <= i < |s.threads| && s.threads[i].Working? :: s.threads[i].taken <= 1 || s.threads[i].taken <= s.nBatchSize)
    && (s.queue != [] ==> Awake(s.threads))
  }

  /** Some worker is about to look at the queue, or none is blocked. */
  ghost predicate Awake(ts: seq<Phase>) {
    || (exists w :: 0 < w < |ts| && (ts[w] == Woken || ts[w].Working?))
    || (forall w | 0 < w < |ts| :: ts[w] != Waiting)
  }

  lemma StepShared(s: State, step: Step)
    requires Inv(s) && Shared(s) && Enabled(s, step)
    ensures Shared(Apply(s, step))
  {
    match step
    case RunCheck(i) => RunShares(s, i);
    case Spurious(i) => SpuriousShared(s, i);
    case Add(checks, chosen) => AddShared(s, checks, chosen);
    case _ => TakeShared(s, step, step.i);
  }

  lemma TakeShared(s: State, step: Step, i: nat)
    requires Inv(s) && Shared(s) && Enabled(s, step) && Takes(step, i)
    ensures Shared(Apply(s, step))
  {
    ReadyIs(s, step, i);
    hide Apply, LoopTop;
    EnterShared(Ready(s, step, i), i);
  }

  lemma RunShares(s: State, i: nat)
    requires Inv(s) && Shared(s) && Enabled(s, RunCheck(i))
    ensures Shared(Apply(s, RunCheck(i)))
  {
    var s' := Apply(s, RunCheck(i));
    assert forall j | 0 <= j < |s.threads| && j != i :: s'.threads[j] == s.threads[j];
    if s.queue != [] && exists w :: 0 < w < |s.threads| && (s.threads[w] == Woken || s.threads[w].Working?) {
      var w :| 0 < w < |s.threads| && (s.threads[w] == Woken || s.threads[w].Working?);
      assert s'.threads[w] == Woken || s'.threads[w].Working?;
    }
  }

  lemma SpuriousShared(s: State, i: nat)
    requires Shared(s) && i < |s.threads| && s.threads[i] == Waiting
    ensures Shared(s.(threads := s.threads[i := Woken]))
  {
    var ts := s.threads[i := Woken];
    assert forall j | 0 <= j < |ts| && j != i :: ts[j] == s.threads[j];
    if s.queue != [] && exists w :: 0 < w < |s.threads| && (s.threads[w] == Woken || s.threads[w].Working?) {
      var w :| 0 < w < |s.threads| && (s.threads[w] == Woken || s.threads[w].Working?);
      assert ts[w] == s.threads[w];
    }
  }

  lemma AddShared(s: State, checks: seq<Check>, chosen: nat)
    requires Inv(s) && Shared(s) && Enabled(s, Add(checks, chosen))
    ensures Shared(Apply(s, Add(checks, chosen)))
  {
    var ts, ts' := s.threads, Apply(s, Add(checks, chosen)).threads;
    AddWakes(s, checks, chosen);
    if exists w :: 0 < w < |ts| && (ts[w] == Woken || ts[w].Working?) {
      var w :| 0 < w < |ts| && (ts[w] == Woken || ts[w].Working?);
      assert ts'[w] == ts[w];
    }
  }

  /** notify_one wakes the worker it picks if there is one to pick, notify_all wakes them all; nobody else moves. */
  lemma AddWakes(s: State, checks: seq<Check>, chosen: nat)
    requires Counted(s) && Enabled(s, Add(checks, chosen))
    ensures var ts, ts' := s.threads, Apply(s, Add(checks, chosen)).threads;
            && |ts'| == |ts| && (forall w | 0 <= w < |ts| :: ts'[w] == ts[w] || (w != MASTER && ts[w] == Waiting && ts'[w] == Woken))
            && (|checks| >= 2 ==> forall w | 0 < w < |ts| :: ts'[w] != Waiting)
            && (|checks| == 1 && (exists w :: 0 < w < |ts| && ts[w] == Waiting) ==> 0 < chosen < |ts| && ts' == ts[chosen := Woken])
            && (checks == [] ==> ts' == ts)
  {
  }

  /** LoopTop of a thread that is not blocked now: it takes a batch if there is anything to take. */
  lemma EnterShared(s: State, i: nat)
    requires i < |s.threads| && s.nTotal + s.nIdle + 1 > 0 && s.threads[i] != Waiting
    requires forall j | 0 <= j < |s.threads| && s.threads[j].Working? :: s.threads[j].taken <= 1 || s.threads[j].taken <= s.nBatchSize
    requires s.queue != [] ==> Awake(s.threads)
    ensures Shared(LoopTop(s, i))
  {
    var s' := LoopTop(s, i);
    assert forall j | 0 <= j < |s.threads| && j != i :: s'.threads[j] == s.threads[j];
    if s.queue != [] {
      ShareFits(s);
      if exists w :: 0 < w < |s.threads| && (s.threads[w] == Woken || s.threads[w].Working?) {
        var w :| 0 < w < |s.threads| && (s.threads[w] == Woken || s.threads[w].Working?);
        assert s'.threads[w].Working? || s'.threads[w] == Woken;
      }
    }
  }

  lemma {:induction false} RunShared(s: State, steps: seq<Step>)
    requires Inv(s) && Shared(s) && IsRun(s, steps)
    ensures Shared(Run(s, steps))
    decreases |steps|
  {
    if steps != [] {
      StepInv(s, steps[0]);
      StepShared(s, steps[0]);
      RunShared(Apply(s, steps[0]), steps[1..]);
    }
  }

  lemma ReachableShared(s: State)
    requires Reachable(s)
    ensures Shared(s)
  {
    var workers: nat, batchSize: nat, steps: seq<Step> :| ReachedBy(s, workers, batchSize, steps);
    InitInv(workers, batchSize);
    RunShared(Init(workers, batchSize), steps);
  }

  // ---------- Wait cannot be stuck ----------

  /** A step that needs no luck: not a spurious wake-up, not a new thread, not new work. */
  predicate Ordinary(step: Step) {
    step.RunCheck? || step.Finish? || step.Reacquire?
  }

  ghost predicate Smaller(s: State, s': State) {
    || s'.nTodo < s.nTodo
    || (s'.nTodo == s.nTodo && |s'.queue| < |s.queue|)
    || (s'.nTodo == s.nTodo && |s'.queue| == |s.queue| && Sum(s'.threads, Pending) < Sum(s.threads, Pending))
    || (s'.nTodo == s.nTodo && |s'.queue| == |s.queue| && Sum(s'.threads, Pending) == Sum(s.threads, Pending)
        && Sum(s'.threads, IsWoken) < Sum(s.threads, IsWoken))
  }

  lemma OrdinaryStepEnabled(s: State) returns (step: Step)
    requires Inv(s) && s.threads[MASTER] != Out
    ensures Ordinary(step) && Enabled(s, step)
  {
    if s.threads[MASTER] == Waiting {
      SumZero(s.threads, Held);
      var i :| 0 <= i < |s.threads| && Held(s.threads[i]) != 0;
      step := if s.threads[i].todo == [] then Finish(i) else RunCheck(i);
    } else if s.threads[MASTER] == Woken {
      step := Reacquire(MASTER);
    } else {
      step := if s.threads[MASTER].todo == [] then Finish(MASTER) else RunCheck(MASTER);
    }
  }

  lemma OrdinaryStepSmaller(s: State, step: Step)
    requires Inv(s) && Ordinary(step) && Enabled(s, step)
    ensures Returns(s, step) || Smaller(s, Apply(s, step))
  {
    var s' := Apply(s, step);
    match step
    case RunCheck(i) => SumUpdate(s.threads, i, s'.threads[i], Pending);
    case Finish(i) =>
    case Reacquire(i) =>
      SumUpdate(s.threads, i, s'.threads[i], Pending);
      SumUpdate(s.threads, i, s'.threads[i], IsWoken);
      if s.queue != [] {
        SumUpdate(s.threads, i, Out, Idle);
        ShareFits(s.(nIdle := s.nIdle - 1));
      }
    case _ =>
  }

  ghost predicate Ends(s: State, steps: seq<Step>)
    requires Inv(s)
  {
    && steps != [] && IsRun(s, steps[..|steps| - 1])
    && (RunInv(s, steps[..|steps| - 1]);
        var last := Run(s, steps[..|steps| - 1]);
        Enabled(last, steps[|steps| - 1]) && Returns(last, steps[|steps| - 1]))
    && forall k | 0 <= k < |steps| :: Ordinary(steps[k])
  }

  /** From every reachable state inside Wait, ordinary steps alone lead to its return: no step of a
      thread that is outside the loop, no spurious wake-up and no further work is needed.
      Every ordinary step that does not return is Smaller, so no schedule of them can run forever. */
  lemma WaitTerminates(s: State) returns (steps: seq<Step>)
    requires Inv(s) && s.threads[MASTER] != Out
    ensures Ends(s, steps)
    decreases s.nTodo, |s.queue|, Sum(s.threads, Pending), Sum(s.threads, IsWoken)
  {
    var step := OrdinaryStepEnabled(s);
    StepInv(s, step);
    if Returns(s, step) {
      steps := [step];
    } else {
      OrdinaryStepSmaller(s, step);
      var s' := Apply(s, step);
      MasterStays(s, step);
      var rest := WaitTerminates(s');
      steps := [step] + rest;
      assert steps[1..] == rest;
      assert steps[..|steps| - 1] == [step] + rest[..|rest| - 1];
      assert ([step] + rest[..|rest| - 1])[1..] == rest[..|rest| - 1];
    }
  }

  lemma MasterStays(s: State, step: Step)
    requires Inv(s) && s.threads[MASTER] != Out && Ordinary(step) && Enabled(s, step) && !Returns(s, step)
    ensures Apply(s, step).threads[MASTER] != Out
  {
  }
}
