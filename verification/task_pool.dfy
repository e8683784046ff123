/**
 What one call of `task_queue_set_worker_count` leaves behind: exactly as many worker threads as it was asked for, until
 the next such call. And what it waits for. All of this is about the states of a run, not about its steps.
 */
module TaskPool {
  import opened TaskProtocol
  import opened TaskResizes

  /** Threads that have been created and have not ended. */
  function LiveWorkers(s: State): set<Tid> {
    set t | t in s.workers && !s.workers[t].Exited?
  }

  ghost predicate AtMostOneResize(s: State) {
    forall t, u :: IsResize(s, t) && IsResize(s, u) ==> t == u
  }

  ghost predicate NoResize(s: State) {
    forall t :: !IsResize(s, t)
  }

  /** The pool is all there is; while a call joins, there is no pool, and what is left belongs to the old team. */
  ghost predicate PoolExact(s: State) {
    if JoiningCalls(s) == {} then LiveWorkers(s) == s.pool && (s.pool != {} ==> !s.done)
    else s.pool == {} && s.done && forall t :: t in JoiningCalls(s) ==> LiveWorkers(s) <= s.calls[t].1.team
  }

  predicate IsLive(s: State, t: Tid) {
    t in s.workers && !s.workers[t].Exited?
  }

  /** Threads come by starting a pool and go by ending. */
  predicate LiveAfter(s: State, e: Step, t: Tid) {
    match e
    case WorkerExit(u) => IsLive(s, t) && t != u
    case ResizeStart(_, recruits) => IsLive(s, t) || t in recruits
    case _ => IsLive(s, t)
  }

  lemma {:induction false} StepIsLive(s: State, e: Step, t: Tid)
    requires Enabled(s, e)
    ensures IsLive(Apply(s, e), t) <==> LiveAfter(s, e, t)
  {
    hide Broadcast, BusyCalls;
  }

  lemma {:induction false} StepLive(s: State, e: Step)
    requires Enabled(s, e)
    ensures LiveWorkers(Apply(s, e)) ==
      (match e
       case WorkerExit(t) => LiveWorkers(s) - {t}
       case ResizeStart(_, recruits) => LiveWorkers(s) + recruits
       case _ => LiveWorkers(s))
  {
    forall t ensures IsLive(Apply(s, e), t) <==> LiveAfter(s, e, t) {
      StepIsLive(s, e, t);
    }
    hide Apply, Enabled;
  }

  lemma {:induction false} StepJoining(s: State, e: Step)
    requires Enabled(s, e)
    ensures JoiningCalls(Apply(s, e)) ==
      (match e
       case ResizeStop(t) => JoiningCalls(s) + {t}
       case ResizeStart(t, _) => JoiningCalls(s) - {t}
       case _ => JoiningCalls(s))
  {
    hide Wake, WorkersIn, BusyWorkers;
  }

  /** A call joins the pool that it stopped. */
  lemma {:induction false} StepTeams(s: State, e: Step, t: Tid)
    requires Enabled(s, e) && t in JoiningCalls(Apply(s, e))
    ensures e == ResizeStop(t) || t in JoiningCalls(s)
    ensures Apply(s, e).calls[t].1.team == if e == ResizeStop(t) then s.pool else s.calls[t].1.team
  {
    hide Wake, WorkersIn, BusyWorkers;
  }

  lemma {:induction false} StepPoolExact(s: State, e: Step)
    requires Pools(s) && AtMostOneResize(s) && PoolExact(s) && Enabled(s, e)
    ensures PoolExact(Apply(s, e))
  {
    hide AtMostOneResize, PoolExact, Pools, Wake, Broadcast, BusyWorkers, BusyCalls;
    match e {
      case ResizeStop(t) => StopKeepsPool(s, t);
      case ResizeStart(t, recruits) => StartKeepsPool(s, t, recruits);
      case _ => OtherKeepsPool(s, e);
    }
  }

  lemma {:induction false} StopKeepsPool(s: State, t: Tid)
    requires Pools(s) && AtMostOneResize(s) && PoolExact(s) && Enabled(s, ResizeStop(t))
    ensures PoolExact(Apply(s, ResizeStop(t)))
  {
    StepLive(s, ResizeStop(t));
    StepJoining(s, ResizeStop(t));
    OnlyOneJoins(s, t);
    assert JoiningCalls(s) == {};
    StepTeams(s, ResizeStop(t), t);
  }

  lemma {:induction false} StartKeepsPool(s: State, t: Tid, recruits: set<Tid>)
    requires Pools(s) && AtMostOneResize(s) && PoolExact(s) && Enabled(s, ResizeStart(t, recruits))
    ensures PoolExact(Apply(s, ResizeStart(t, recruits)))
  {
    StepLive(s, ResizeStart(t, recruits));
    StepJoining(s, ResizeStart(t, recruits));
    OnlyOneJoins(s, t);
    if s.calls[t].1.Joining? {
      assert t in JoiningCalls(s);
      assert LiveWorkers(s) == {};
    }
  }

  lemma {:induction false} OtherKeepsPool(s: State, e: Step)
    requires PoolExact(s) && Enabled(s, e) && !e.ResizeStop? && !e.ResizeStart?
    ensures PoolExact(Apply(s, e))
  {
    StepLive(s, e);
    StepJoining(s, e);
    forall t | t in JoiningCalls(s) ensures Apply(s, e).calls[t].1.team == s.calls[t].1.team {
      StepTeams(s, e, t);
    }
    PoolAfter(s, e);
    hide LiveWorkers, JoiningCalls;
    DoneStays(s, e);
    hide Apply;
  }

  /** A thread ends only after `threads_done` is set, which only a resize changes. */
  lemma {:induction false} DoneStays(s: State, e: Step)
    requires Enabled(s, e) && !e.ResizeStop? && !e.ResizeStart?
    ensures Apply(s, e).done == s.done
    ensures e.WorkerExit? ==> s.done && e.t in LiveWorkers(s)
  {}

  lemma {:induction false} OnlyOneJoins(s: State, t: Tid)
    requires Pools(s) && AtMostOneResize(s) && IsResize(s, t)
    ensures JoiningCalls(s) <= {t}
  {
    forall u | u in JoiningCalls(s) ensures u == t {
      assert IsResize(s, u);
    }
  }

  lemma {:induction false} InvPools(s: State)
    requires Inv(s)
    ensures Pools(s)
  {}

  lemma {:induction false} RunKeepsPool(states: seq<State>, steps: seq<Step>, i: nat)
    requires IsRun(states, steps) && i < |states|
    requires forall m :: 0 <= m < i ==> AtMostOneResize(states[m])
    ensures PoolExact(states[i])
  {
    hide Enabled, Apply, Inv, AtMostOneResize;
    if i > 0 {
      RunKeepsPool(states, steps, i - 1);
      RunKeepsInv(states, steps, i - 1);
      InvPools(states[i - 1]);
      StepPoolExact(states[i - 1], steps[i - 1]);
    }
  }

  /** The call returns: its pool has as many threads as it was asked for. */
  lemma {:induction false} PoolAtReturn(states: seq<State>, steps: seq<Step>, k: nat, t: Tid)
    requires IsRun(states, steps) && k < |steps|
    requires forall m :: 0 <= m <= k ==> AtMostOneResize(states[m])
    requires IsResize(states[k], t) && t !in states[k + 1].calls
    ensures |states[k + 1].pool| == states[k].calls[t].0.count
  {
    RunKeepsPool(states, steps, k);
    RunKeepsInv(states, steps, k);
    PoolAtStart(states[k], steps[k], t);
  }

  lemma {:induction false} PoolAtStart(s: State, e: Step, t: Tid)
    requires Inv(s) && PoolExact(s) && AtMostOneResize(s) && Enabled(s, e)
    requires IsResize(s, t) && t !in Apply(s, e).calls
    ensures |Apply(s, e).pool| == s.calls[t].0.count
  {
    OnlyOneJoins(s, t);
    EndsByStarting(s, e, t);
    var recruits := e.recruits;
    assert s.pool == {} by {
      if s.calls[t].1.Joining? {
        assert t in JoiningCalls(s);
      }
    }
    assert Apply(s, e).pool == recruits;
  }

  lemma {:induction false} EndsByStarting(s: State, e: Step, t: Tid)
    requires Enabled(s, e) && IsResize(s, t) && t !in Apply(s, e).calls
    ensures e.ResizeStart? && e.t == t
  {
    StepResizes(s, e, t);
  }

  /**
   When resizes do not overlap: from the return of one until the next one begins, the threads that exist are exactly
   those of the pool, and they are as many as the resize was asked for.
   */
  lemma {:induction false} WorkersAfterResize(states: seq<State>, steps: seq<Step>, k: nat, t: Tid, j: nat)
    requires IsRun(states, steps) && k < j < |states|
    requires forall m :: 0 <= m < j ==> AtMostOneResize(states[m])
    requires IsResize(states[k], t) && t !in states[k + 1].calls
    requires forall m :: k < m <= j ==> NoResize(states[m])
    ensures LiveWorkers(states[j]) == states[j].pool
    ensures |LiveWorkers(states[j])| == states[k].calls[t].0.count
  {
    hide PoolExact, Inv, Enabled, Apply, NoResize;
    RunKeepsPool(states, steps, j);
    RunKeepsInv(states, steps, j);
    QuietPool(states[j]);
    PoolAtReturn(states, steps, k, t);
    PoolStays(states, steps, k + 1, j);
  }

  lemma {:induction false} QuietPool(s: State)
    requires Inv(s) && PoolExact(s) && NoResize(s)
    ensures LiveWorkers(s) == s.pool
  {
    NobodyJoins(s);
  }

  lemma {:induction false} PoolStays(states: seq<State>, steps: seq<Step>, i: nat, j: nat)
    requires IsRun(states, steps) && i <= j < |states|
    requires forall m :: i <= m <= j ==> NoResize(states[m])
    ensures states[j].pool == states[i].pool
    decreases j
  {
    if i < j {
      PoolStays(states, steps, i, j - 1);
      PoolKept(states[j - 1], steps[j - 1]);
    }
  }

  lemma {:induction false} PoolKept(s: State, e: Step)
    requires Enabled(s, e) && NoResize(s)
    ensures Apply(s, e).pool == s.pool
  {
    ByResizes(s, e);
    PoolAfter(s, e);
  }

  lemma {:induction false} ByResizes(s: State, e: Step)
    requires Enabled(s, e)
    ensures e.ResizeStop? || e.ResizeStart? ==> IsResize(s, e.t)
  {}

  lemma {:induction false} NobodyJoins(s: State)
    requires Pools(s) && NoResize(s)
    ensures JoiningCalls(s) == {}
  {
    forall u ensures u !in JoiningCalls(s) {
      assert !IsResize(s, u);
    }
  }

  // ----- what a resize waits for

  /** Every task submitted so far has returned. */
  ghost predicate AllFinished(s: State) {
    forall id: TaskId :: id in s.finished <==> id < s.submitted
  }

  ghost predicate FinishedIn(states: seq<State>, k: nat, j: nat) {
    exists i :: k < i <= j && i < |states| && AllFinished(states[i])
  }

  /** A call that joins has seen all tasks finished since it began. */
  lemma {:induction false} JoinsAfterWaiting(states: seq<State>, steps: seq<Step>, k: nat, j: nat, t: Tid)
    requires IsRun(states, steps) && k < j < |states| && t !in states[k].calls
    requires forall m :: k < m <= j ==> IsResize(states[m], t)
    ensures IsResize(states[j], t)
    ensures states[j].calls[t].1.Joining? ==> FinishedIn(states, k, j - 1)
  {
    StepResizes(states[j - 1], steps[j - 1], t);
    if states[j].calls[t].1.Joining? {
      assert j - 1 > k;
      JoinsAfterWaiting(states, steps, k, j - 1, t);
      if steps[j - 1] == ResizeStop(t) {
        SeenFinished(states, steps, j - 1);
        assert AllFinished(states[j - 1]);
      } else {
        var i :| k < i <= j - 2 && i < |states| && AllFinished(states[i]);
      }
    }
  }

  lemma {:induction false} SeenFinished(states: seq<State>, steps: seq<Step>, i: nat)
    requires IsRun(states, steps) && i < |steps|
    requires steps[i].ResizeStop? || (steps[i].ResizeStart? && InPhase(states[i], steps[i].t, Looking))
    ensures AllFinished(states[i])
  {
    forall id: TaskId ensures id in states[i].finished <==> id < states[i].submitted {
      WaitMeansFinished(states, steps, i, id);
    }
  }

  /** Between its beginning and its return a resize sees a moment at which all tasks submitted so far have returned. */
  lemma {:induction false} ResizeWaits(states: seq<State>, steps: seq<Step>, k: nat, j: nat, t: Tid)
    requires IsRun(states, steps) && k < j < |steps|
    requires t !in states[k].calls && t !in states[j + 1].calls
    requires forall m :: k < m <= j ==> IsResize(states[m], t)
    ensures FinishedIn(states, k, j)
  {
    StepResizes(states[j], steps[j], t);
    JoinsAfterWaiting(states, steps, k, j, t);
    if states[j].calls[t].1.Joining? {
      var i :| k < i <= j - 1 && i < |states| && AllFinished(states[i]);
    } else {
      SeenFinished(states, steps, j);
      assert AllFinished(states[j]);
    }
  }

  // ----- one thread at a time

  /** What worker `t` does next, as its loop says; a sleeper may wake up for no reason. */
  function WorkerMoves(s: State, t: Tid): set<Step>
    requires t in s.workers
  {
    match s.workers[t]
    case Ready => if s.done then {WorkerExit(t)} else if s.g.queue == [] then {WorkerSleep(t)} else {WorkerTake(t)}
    case Busy(_) => {WorkerFinish(t)}
    case Asleep => {WorkerSpurious(t)}
    case Exited => {}
  }

  predicate OfWorker(e: Step, t: Tid) {
    && (e.WorkerTake? || e.WorkerFinish? || e.WorkerSleep? || e.WorkerExit? || e.WorkerSpurious?)
    && e.t == t
  }

  /** A worker can always do that, and nothing else. */
  lemma {:induction false} WorkerDoesOneThing(s: State, t: Tid, e: Step)
    requires Inv(s) && t in s.workers && OfWorker(e, t)
    ensures Enabled(s, e) <==> e in WorkerMoves(s, t)
  {
    if s.workers[t].Busy? {
      assert t in BusyWorkers(s);
    }
  }

  /** The waiting loop has ended, and there are no workers to stop, or they have ended. */
  predicate MayStart(s: State, t: Tid)
    requires t in s.calls
  {
    s.calls[t].0.Resize? &&
    match s.calls[t].1
    case Looking => s.g.outstanding == 0 && s.pool == {}
    case Joining(team) => forall w :: w in team ==> IsWorker(s, w, Exited)
    case _ => false
  }

  /** What call `t` does next, except for starting a pool. */
  function CallMoves(s: State, t: Tid): set<Step>
    requires t in s.calls
  {
    match s.calls[t].1
    case Looking =>
      if s.g.outstanding != 0 then
        if s.g.queue == [] then {CallSleep(t)} else {CallTake(t)}
      else if s.calls[t].0.WaitAll? then {CallReturn(t)}
      else if s.pool != {} then {ResizeStop(t)}
      else {}
    case Sleeping => {CallSpurious(t)}
    case Running(_) => {CallFinish(t)}
    case Joining(_) => {}
  }

  predicate OfCall(e: Step, t: Tid) {
    && (e.CallTake? || e.CallFinish? || e.CallSleep? || e.CallReturn? || e.CallSpurious? || e.ResizeStop?)
    && e.t == t
  }

  /** A call can always do that, and nothing else. */
  lemma {:induction false} CallDoesOneThing(s: State, t: Tid, e: Step)
    requires Inv(s) && t in s.calls && OfCall(e, t)
    ensures Enabled(s, e) <==> e in CallMoves(s, t)
  {
    if s.calls[t].1.Running? {
      assert t in BusyCalls(s);
    }
  }

  /** A pool is started with any new threads of the right number, exactly where the call has come that far. */
  lemma {:induction false} StartWhenDone(s: State, t: Tid, recruits: set<Tid>)
    requires t in s.calls
    ensures Enabled(s, ResizeStart(t, recruits)) <==>
      MayStart(s, t) && |recruits| == s.calls[t].0.count && forall w :: w in recruits ==> w !in s.workers
  {
    if s.calls[t].1.Joining? {
      var team := s.calls[t].1.team;
      forall w ensures w in team ==> (w in WorkersIn(s, Exited) <==> IsWorker(s, w, Exited)) {}
    }
  }

  /** Submitting never blocks. The signal may wake any number of sleepers, at least one if there is one. */
  lemma {:induction false} SubmitNeverBlocks(s: State, woken: set<Tid>)
    ensures Enabled(s, Submit(woken)) <==>
      && (forall t :: t in woken ==> IsWorker(s, t, Asleep))
      && (woken == {} ==> forall t :: !IsWorker(s, t, Asleep))
  {
    forall t ensures t in WorkersIn(s, Asleep) <==> IsWorker(s, t, Asleep) {}
  }

  /** New calls never block either: any thread that is in no call may begin one. */
  lemma {:induction false} CallNeverBlocks(s: State, t: Tid, call: Call)
    ensures Enabled(s, CallBegin(t, call)) <==> t !in s.calls
  {}
}
