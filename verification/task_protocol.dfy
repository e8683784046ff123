/**
 The task queue as a transition system. One step is one critical section (the code a
 thread runs while it holds the mutex), or the arrival of a call, or a spurious
 wakeup. Task bodies are opaque: they may submit, they never wait.

 Task number `k` is the `k`-th task ever submitted. Workers and calls are numbered
 independently. The mutex may change hands between "a task has finished" and "look at
 the queue again", so every run of the source is a run of this system.
 */
module TaskProtocol {
  import opened TaskQueue

  type Tid = nat
  type TaskId = nat

  /** A worker thread: about to look at the queue, waiting on task_wait_cv, inside a task, or gone. */
  datatype Worker = Ready | Asleep | Busy(id: TaskId) | Exited

  /** A call of `task_queue_wait_for_all`, or of `task_queue_set_worker_count`. */
  datatype Call = WaitAll | Resize(count: nat)

  /** Where a call is: about to look at the queue, waiting on tasks_done_cv, inside a task, or joining old workers. */
  datatype Phase = Looking | Sleeping | Running(id: TaskId) | Joining(team: set<Tid>)

  datatype State = State(
    g: Guarded<TaskId>,
    done: bool,                           // threads_done
    pool: set<Tid>,                       // threads, thread_count
    workers: map<Tid, Worker>,
    calls: map<Tid, (Call, Phase)>,       // calls that have not returned
    submitted: nat,                       // history: how many tasks were submitted,
    started: seq<TaskId>,                 //   which were started, in order,
    finished: set<TaskId>                 //   and which have returned
  )

  const INIT := State(Guarded([], 0), false, {}, map[], map[], 0, [], {})

  datatype Step =
    | Submit(woken: set<Tid>)
    | WorkerTake(t: Tid)
    | WorkerFinish(t: Tid)
    | WorkerSleep(t: Tid)
    | WorkerExit(t: Tid)
    | WorkerSpurious(t: Tid)
    | CallBegin(t: Tid, call: Call)
    | CallTake(t: Tid)
    | CallFinish(t: Tid)
    | CallSleep(t: Tid)
    | CallReturn(t: Tid)
    | CallSpurious(t: Tid)
    | ResizeStop(t: Tid)
    | ResizeStart(t: Tid, recruits: set<Tid>)

  // ----- views of a state

  function WorkersIn(s: State, w: Worker): set<Tid> {
    set t | t in s.workers && s.workers[t] == w
  }

  function BusyWorkers(s: State): set<Tid> {
    set t | t in s.workers && s.workers[t].Busy?
  }

  function BusyCalls(s: State): set<Tid> {
    set t | t in s.calls && s.calls[t].1.Running?
  }

  predicate IsWorker(s: State, t: Tid, w: Worker) {
    t in s.workers && s.workers[t] == w
  }

  predicate InPhase(s: State, t: Tid, p: Phase) {
    t in s.calls && s.calls[t].1 == p
  }

  // ----- steps

  predicate Enabled(s: State, e: Step) {
    match e
    // pthread_cond_signal wakes at least one sleeper when there is one
    case Submit(woken) => woken <= WorkersIn(s, Asleep) && (WorkersIn(s, Asleep) != {} ==> woken != {})
    case WorkerTake(t) => IsWorker(s, t, Ready) && !s.done && s.g.queue != []
    case WorkerSleep(t) => IsWorker(s, t, Ready) && !s.done && s.g.queue == []
    case WorkerExit(t) => IsWorker(s, t, Ready) && s.done
    case WorkerFinish(t) => t in BusyWorkers(s) && s.g.outstanding > 0
    case WorkerSpurious(t) => IsWorker(s, t, Asleep)
    case CallBegin(t, _) => t !in s.calls
    case CallTake(t) => InPhase(s, t, Looking) && s.g.outstanding != 0 && s.g.queue != []
    case CallSleep(t) => InPhase(s, t, Looking) && s.g.outstanding != 0 && s.g.queue == []
    case CallFinish(t) => t in BusyCalls(s) && s.g.outstanding > 0
    case CallReturn(t) => InPhase(s, t, Looking) && s.calls[t].0.WaitAll? && s.g.outstanding == 0
    case CallSpurious(t) => InPhase(s, t, Sleeping)
    case ResizeStop(t) =>
      InPhase(s, t, Looking) && s.calls[t].0.Resize? && s.g.outstanding == 0 && s.pool != {}
    case ResizeStart(t, recruits) =>
      && t in s.calls && s.calls[t].0.Resize? && |recruits| == s.calls[t].0.count
      && recruits !! s.workers.Keys
      && match s.calls[t].1
         case Looking => s.g.outstanding == 0 && s.pool == {}
         case Joining(team) => team <= WorkersIn(s, Exited)
         case _ => false
  }

  /** Everyone waiting on `tasks_done_cv` goes back to look at the queue. */
  function Broadcast(calls: map<Tid, (Call, Phase)>): (r: map<Tid, (Call, Phase)>) {
    map t | t in calls :: (calls[t].0, if calls[t].1.Sleeping? then Looking else calls[t].1)
  }

  /** Workers in `woken` stop waiting on `task_wait_cv`. */
  function Wake(workers: map<Tid, Worker>, woken: set<Tid>): map<Tid, Worker> {
    map t | t in workers :: if t in woken && workers[t].Asleep? then Ready else workers[t]
  }

  /** The locked half of execute_one_task_locked after task `id`. */
  function AfterTask(s: State, id: TaskId): State
    requires s.g.outstanding > 0
  {
    var g := Finished(s.g);
    s.(g := g, finished := s.finished + {id}, calls := if g.outstanding == 0 then Broadcast(s.calls) else s.calls)
  }

  /** The locked half of execute_one_task_locked before the task. */
  function BeforeTask(s: State): State
    requires s.g.queue != []
  {
    s.(g := Taken(s.g), started := s.started + [s.g.queue[0]])
  }

  function MoveWorker(s: State, t: Tid, w: Worker): State {
    s.(workers := s.workers[t := w])
  }

  function MoveCall(s: State, t: Tid, p: Phase): State
    requires t in s.calls
  {
    s.(calls := s.calls[t := (s.calls[t].0, p)])
  }

  function Apply(s: State, e: Step): State
    requires Enabled(s, e)
  {
    match e
    case Submit(woken) =>
      s.(g := Submitted(s.g, s.submitted), submitted := s.submitted + 1, workers := Wake(s.workers, woken))
    case WorkerTake(t) => MoveWorker(BeforeTask(s), t, Busy(s.g.queue[0]))
    case WorkerFinish(t) => MoveWorker(AfterTask(s, s.workers[t].id), t, Ready)
    case WorkerSleep(t) => MoveWorker(s, t, Asleep)
    case WorkerExit(t) => MoveWorker(s, t, Exited)
    case WorkerSpurious(t) => MoveWorker(s, t, Ready)
    case CallBegin(t, call) => s.(calls := s.calls[t := (call, Looking)])
    case CallTake(t) => MoveCall(BeforeTask(s), t, Running(s.g.queue[0]))
    case CallFinish(t) => MoveCall(AfterTask(s, s.calls[t].1.id), t, Looking)
    case CallSleep(t) => MoveCall(s, t, Sleeping)
    case CallReturn(t) => s.(calls := s.calls - {t})
    case CallSpurious(t) => MoveCall(s, t, Looking)
    case ResizeStop(t) =>
      MoveCall(s, t, Joining(s.pool)).(done := true, pool := {}, workers := Wake(s.workers, s.workers.Keys))
    case ResizeStart(t, recruits) =>
      var s1 := s.(calls := s.calls - {t});
      if recruits == {} then s1
      else s1.(done := false, pool := recruits, workers := s.workers + map w | w in recruits :: Ready)
  }

  // ----- invariants

  /** Started tasks followed by queued tasks are the submission order. */
  ghost predicate Fifo(s: State) {
    && |s.started| + |s.g.queue| == s.submitted
    && (forall i :: 0 <= i < |s.started| ==> s.started[i] == i)
    && (forall i :: 0 <= i < |s.g.queue| ==> s.g.queue[i] == |s.started| + i)
  }

  /** The counter is exact. */
  ghost predicate Counted(s: State) {
    && s.g.outstanding == |s.g.queue| + |BusyWorkers(s)| + |BusyCalls(s)|
    && |s.finished| + |BusyWorkers(s)| + |BusyCalls(s)| == |s.started|
  }

  /** A thread that can be inside a task: worker `t` or call `t`. */
  datatype Runner = ByWorker(t: Tid) | ByCall(t: Tid)

  predicate Runs(s: State, r: Runner, id: TaskId) {
    match r
    case ByWorker(t) => IsWorker(s, t, Busy(id))
    case ByCall(t) => InPhase(s, t, Running(id))
  }

  /** A task that runs was started, has not returned, and runs in one thread only. */
  ghost predicate RunsOnce(s: State) {
    && (forall id :: id in s.finished ==> id < |s.started|)
    && (forall r, id: TaskId :: Runs(s, r, id) ==> id < |s.started| && id !in s.finished)
    && (forall r, u, id: TaskId :: Runs(s, r, id) && Runs(s, u, id) ==> r == u)
  }

  /** No started task is forgotten. */
  ghost predicate Covered(s: State) {
    forall id: nat :: id < |s.started| ==> id in s.finished || exists r :: Runs(s, r, id)
  }

  ghost predicate Pools(s: State) {
    && s.pool <= s.workers.Keys
    && (forall t :: t in s.calls && s.calls[t].1.Joining? ==>
          s.calls[t].0.Resize? && s.calls[t].1.team <= s.workers.Keys)
  }

  /** If a worker sleeps, every queued task has an awake, idle worker of its own coming for it. */
  ghost predicate NoLostSignal(s: State) {
    && (WorkersIn(s, Asleep) != {} ==> |WorkersIn(s, Ready)| >= |s.g.queue|)
    && (s.done ==> WorkersIn(s, Asleep) == {} && BusyWorkers(s) == {})
  }

  /** Some thread will come back to the queue. */
  ghost predicate Alive(s: State) {
    || BusyWorkers(s) != {}
    || BusyCalls(s) != {}
    || (exists t :: InPhase(s, t, Looking))
    || (!s.done && WorkersIn(s, Ready) != {})
  }

  /** A sleeping call has work to wait for, and some thread will come back to the queue. */
  ghost predicate NoLostBroadcast(s: State) {
    (exists t :: InPhase(s, t, Sleeping)) ==> s.g.outstanding > 0 && Alive(s)
  }

  ghost predicate Inv(s: State) {
    Fifo(s) && Counted(s) && RunsOnce(s) && Covered(s) && Pools(s) && NoLostSignal(s) && NoLostBroadcast(s)
  }

  // ----- one step keeps the invariants

  lemma {:induction false} StepFifo(s: State, e: Step)
    requires Fifo(s) && Enabled(s, e)
    ensures Fifo(Apply(s, e))
  {}

  lemma {:induction false} StepPools(s: State, e: Step)
    requires Pools(s) && Enabled(s, e)
    ensures Pools(Apply(s, e))
  {}

  /** How each step moves threads between the busy sets. */
  lemma {:induction false} StepBusy(s: State, e: Step)
    requires Enabled(s, e)
    ensures BusyWorkers(Apply(s, e)) ==
      (match e
       case WorkerTake(t) => BusyWorkers(s) + {t}
       case WorkerFinish(t) => BusyWorkers(s) - {t}
       case _ => BusyWorkers(s))
    ensures BusyCalls(Apply(s, e)) ==
      (match e
       case CallTake(t) => BusyCalls(s) + {t}
       case CallFinish(t) => BusyCalls(s) - {t}
       case _ => BusyCalls(s))
    ensures e.WorkerTake? ==> e.t !in BusyWorkers(s)
    ensures e.CallTake? ==> e.t !in BusyCalls(s)
    ensures e.WorkerFinish? ==> e.t in BusyWorkers(s)
    ensures e.CallFinish? ==> e.t in BusyCalls(s)
  {}

  /** Taking a task adds one pair to the running relation, finishing removes it, nothing else touches it. */
  lemma {:induction false} StepRuns(s: State, e: Step, r: Runner, id: TaskId)
    requires Enabled(s, e)
    ensures Runs(Apply(s, e), r, id) <==>
      (match e
       case WorkerTake(t) => Runs(s, r, id) || (r == ByWorker(t) && id == s.g.queue[0])
       case CallTake(t) => Runs(s, r, id) || (r == ByCall(t) && id == s.g.queue[0])
       case WorkerFinish(t) => Runs(s, r, id) && r != ByWorker(t)
       case CallFinish(t) => Runs(s, r, id) && r != ByCall(t)
       case _ => Runs(s, r, id))
  {}

  /** What each step does to the counter, the queue and the history. */
  lemma {:induction false} StepCounts(s: State, e: Step)
    requires RunsOnce(s) && Enabled(s, e)
    ensures var s' := Apply(s, e);
      && s'.g.outstanding == s.g.outstanding
           + (match e case Submit(_) => 1 case WorkerFinish(_) => -1 case CallFinish(_) => -1 case _ => 0)
      && |s'.g.queue| == |s.g.queue|
           + (match e case Submit(_) => 1 case WorkerTake(_) => -1 case CallTake(_) => -1 case _ => 0)
      && |s'.started| == |s.started| + (match e case WorkerTake(_) => 1 case CallTake(_) => 1 case _ => 0)
      && |s'.finished| == |s.finished| + (match e case WorkerFinish(_) => 1 case CallFinish(_) => 1 case _ => 0)
  {
    FinishesOnce(s, e);
    hide BusyWorkers, BusyCalls, WorkersIn, Wake, Broadcast, RunsOnce;
  }

  lemma {:induction false} StepCounted(s: State, e: Step)
    requires Counted(s) && RunsOnce(s) && Enabled(s, e)
    ensures Counted(Apply(s, e))
  {
    hide Apply, Enabled, BusyWorkers, BusyCalls, RunsOnce;
    StepBusy(s, e);
    StepCounts(s, e);
  }

  /** A task that is about to return has not returned before. */
  lemma {:induction false} FinishesOnce(s: State, e: Step)
    requires RunsOnce(s) && Enabled(s, e)
    ensures e.WorkerFinish? ==> IsWorker(s, e.t, Busy(s.workers[e.t].id)) && s.workers[e.t].id !in s.finished
    ensures e.CallFinish? ==> InPhase(s, e.t, Running(s.calls[e.t].1.id)) && s.calls[e.t].1.id !in s.finished
  {
    if e.WorkerFinish? {
      assert Runs(s, ByWorker(e.t), s.workers[e.t].id);
    } else if e.CallFinish? {
      assert Runs(s, ByCall(e.t), s.calls[e.t].1.id);
    }
  }

  lemma {:induction false} StepRunsOnce(s: State, e: Step)
    requires RunsOnce(s) && Fifo(s) && Enabled(s, e)
    ensures RunsOnce(Apply(s, e))
  {
    var s' := Apply(s, e);
    forall r, id: TaskId ensures Runs(s', r, id) ==> id < |s'.started| && id !in s'.finished {
      StepRuns(s, e, r, id);
      match e {
        case WorkerFinish(t) => assert Runs(s, ByWorker(t), s.workers[t].id);
        case CallFinish(t) => assert Runs(s, ByCall(t), s.calls[t].1.id);
        case _ =>
      }
    }
    forall r, u, id: TaskId | Runs(Apply(s, e), r, id) && Runs(Apply(s, e), u, id) ensures r == u {
      StepRuns(s, e, r, id);
      StepRuns(s, e, u, id);
    }
    match e {
      case WorkerFinish(t) => assert Runs(s, ByWorker(t), s.workers[t].id);
      case CallFinish(t) => assert Runs(s, ByCall(t), s.calls[t].1.id);
      case _ =>
    }
  }

  lemma {:induction false} StepCovered(s: State, e: Step)
    requires Covered(s) && Fifo(s) && Enabled(s, e)
    ensures Covered(Apply(s, e))
  {
    var s' := Apply(s, e);
    forall id: nat | id < |s'.started| && id !in s'.finished ensures exists r :: Runs(s', r, id) {
      if id == |s.started| {
        var r := if e.WorkerTake? then ByWorker(e.t) else ByCall(e.t);
        StepRuns(s, e, r, id);
      } else {
        var r :| Runs(s, r, id);
        StepRuns(s, e, r, id);
      }
    }
  }

  lemma {:induction false} Subset<T>(a: set<T>, b: set<T>)
    requires a <= b
    ensures |a| <= |b|
  {
    assert b == a + (b - a);
  }

  /** Moving one worker to another state. */
  lemma {:induction false} MovedWorker(s: State, s': State, t: Tid, from: Worker, to: Worker, w: Worker)
    requires IsWorker(s, t, from) && s'.workers == s.workers[t := to]
    ensures WorkersIn(s', w) == if to == w then WorkersIn(s, w) + {t} else WorkersIn(s, w) - {t}
  {}

  /** Waking some workers. */
  lemma {:induction false} WokenWorkers(s: State, s': State, woken: set<Tid>)
    requires s'.workers == Wake(s.workers, woken)
    ensures WorkersIn(s', Ready) == WorkersIn(s, Ready) + woken * WorkersIn(s, Asleep)
    ensures WorkersIn(s', Asleep) == WorkersIn(s, Asleep) - woken
  {}

  /** New workers are awake. */
  lemma {:induction false} RecruitedWorkers(s: State, s': State, recruits: set<Tid>)
    requires recruits !! s.workers.Keys && s'.workers == s.workers + map w | w in recruits :: Ready
    ensures WorkersIn(s', Ready) == WorkersIn(s, Ready) + recruits && WorkersIn(s', Asleep) == WorkersIn(s, Asleep)
  {}

  lemma {:induction false} SameWorkers(s: State, s': State, w: Worker)
    requires s'.workers == s.workers
    ensures WorkersIn(s', w) == WorkersIn(s, w)
  {}

  /** What a step does to the map of workers. */
  lemma {:induction false} StepWorkers(s: State, e: Step)
    requires Enabled(s, e)
    ensures var ws, ws' := s.workers, Apply(s, e).workers;
      match e
      case Submit(woken) => ws' == Wake(ws, woken) && woken <= WorkersIn(s, Asleep)
      case WorkerTake(t) => IsWorker(s, t, Ready) && s.g.queue != [] && ws' == ws[t := Busy(s.g.queue[0])]
      case WorkerFinish(t) => t in ws && ws[t].Busy? && ws' == ws[t := Ready]
      case WorkerSleep(t) => IsWorker(s, t, Ready) && ws' == ws[t := Asleep]
      case WorkerExit(t) => IsWorker(s, t, Ready) && ws' == ws[t := Exited]
      case WorkerSpurious(t) => IsWorker(s, t, Asleep) && ws' == ws[t := Ready]
      case ResizeStop(t) => ws' == Wake(ws, ws.Keys)
      case ResizeStart(t, recruits) =>
        recruits !! ws.Keys && ws' == ws + map w | w in recruits :: Ready
      case _ => ws' == ws
  {
    hide Wake, WorkersIn, BusyCalls, Broadcast;
  }

  lemma {:induction false} AsleepAreWorkers(s: State)
    ensures s.workers.Keys * WorkersIn(s, Asleep) == WorkersIn(s, Asleep)
    ensures WorkersIn(s, Asleep) - s.workers.Keys == {}
  {}

  /** How each step changes the sets of awake, idle workers and of sleeping ones. */
  lemma {:induction false} StepReady(s: State, e: Step)
    requires Pools(s) && Enabled(s, e)
    ensures WorkersIn(Apply(s, e), Ready) ==
      (match e
       case Submit(woken) => WorkersIn(s, Ready) + woken
       case WorkerTake(t) => WorkersIn(s, Ready) - {t}
       case WorkerSleep(t) => WorkersIn(s, Ready) - {t}
       case WorkerExit(t) => WorkersIn(s, Ready) - {t}
       case WorkerFinish(t) => WorkersIn(s, Ready) + {t}
       case WorkerSpurious(t) => WorkersIn(s, Ready) + {t}
       case ResizeStop(t) => WorkersIn(s, Ready) + WorkersIn(s, Asleep)
       case ResizeStart(t, recruits) => WorkersIn(s, Ready) + recruits
       case _ => WorkersIn(s, Ready))
    ensures WorkersIn(Apply(s, e), Asleep) ==
      (match e
       case Submit(woken) => WorkersIn(s, Asleep) - woken
       case WorkerSleep(t) => WorkersIn(s, Asleep) + {t}
       case WorkerSpurious(t) => WorkersIn(s, Asleep) - {t}
       case ResizeStop(t) => {}
       case _ => WorkersIn(s, Asleep))
  {
    hide Apply, Enabled, Wake, WorkersIn, Pools;
    var s' := Apply(s, e);
    StepWorkers(s, e);
    match e {
      case Submit(woken) =>
        WokenWorkers(s, s', woken);
        assert woken * WorkersIn(s, Asleep) == woken;
      case WorkerTake(t) => Moved(s, s', t, Ready, Busy(s.g.queue[0]));
      case WorkerFinish(t) => Moved(s, s', t, s.workers[t], Ready);
      case WorkerSleep(t) => Moved(s, s', t, Ready, Asleep);
      case WorkerExit(t) => Moved(s, s', t, Ready, Exited);
      case WorkerSpurious(t) => Moved(s, s', t, Asleep, Ready);
      case ResizeStop(t) =>
        WokenWorkers(s, s', s.workers.Keys);
        AsleepAreWorkers(s);
      case ResizeStart(t, recruits) => RecruitedWorkers(s, s', recruits);
      case _ =>
        SameWorkers(s, s', Ready);
        SameWorkers(s, s', Asleep);
    }
  }

  lemma {:induction false} Moved(s: State, s': State, t: Tid, from: Worker, to: Worker)
    requires IsWorker(s, t, from) && s'.workers == s.workers[t := to]
    ensures WorkersIn(s', Ready) == if to == Ready then WorkersIn(s, Ready) + {t} else WorkersIn(s, Ready) - {t}
    ensures WorkersIn(s', Asleep) ==
      if to == Asleep then WorkersIn(s, Asleep) + {t}
      else if from == Asleep then WorkersIn(s, Asleep) - {t}
      else WorkersIn(s, Asleep)
  {
    MovedWorker(s, s', t, from, to, Ready);
    MovedWorker(s, s', t, from, to, Asleep);
    assert from != Asleep ==> t !in WorkersIn(s, Asleep);
  }

  lemma {:induction false} StepSignal(s: State, e: Step)
    requires Pools(s) && Counted(s) && NoLostSignal(s) && Enabled(s, e)
    ensures NoLostSignal(Apply(s, e))
  {
    var s' := Apply(s, e);
    StepReady(s, e);
    StepBusy(s, e);
    match e {
      case Submit(woken) =>
        if WorkersIn(s', Asleep) != {} {
          var t :| t in woken;
          assert t !in WorkersIn(s, Ready);
          Subset(WorkersIn(s, Ready) + {t}, WorkersIn(s', Ready));
        }
      case WorkerFinish(t) => assert t !in WorkersIn(s, Ready);
      case WorkerSpurious(t) => assert t !in WorkersIn(s, Ready);
      case ResizeStart(t, recruits) => Subset(WorkersIn(s, Ready), WorkersIn(s', Ready));
      case _ =>
    }
  }

  /** Nobody is left asleep by the step that finishes the last task. */
  lemma {:induction false} StillSleeping(s: State, e: Step, u: Tid)
    requires Enabled(s, e) && InPhase(Apply(s, e), u, Sleeping)
    ensures e == CallSleep(u) || InPhase(s, u, Sleeping)
    ensures Apply(s, e).g.outstanding > 0 || e == CallSleep(u) || s.g.outstanding == 0
  {
    hide Wake, WorkersIn, BusyWorkers, BusyCalls;
  }

  /** A call leaves the looking phase only by taking a task, sleeping, or ending its wait. */
  lemma {:induction false} StillLooking(s: State, e: Step, t: Tid)
    requires Enabled(s, e) && InPhase(s, t, Looking)
    requires s.g.outstanding != 0 && !e.CallTake? && !e.CallSleep?
    ensures InPhase(Apply(s, e), t, Looking)
  {
    hide Wake, WorkersIn, BusyWorkers, BusyCalls;
  }

  /** Work that is outstanding but not queued is inside some thread. */
  lemma {:induction false} SomeoneBusy(s: State)
    requires Counted(s) && s.g.outstanding > 0 && s.g.queue == []
    ensures BusyWorkers(s) != {} || BusyCalls(s) != {}
  {
    hide BusyWorkers, BusyCalls;
  }

  /** Who comes back after a step that starts a task, finishes one, or puts a thread to sleep. */
  lemma {:induction false} AliveAfterMove(s: State, e: Step)
    requires Counted(s) && Pools(s) && NoLostSignal(s) && Enabled(s, e)
    requires e.WorkerTake? || e.CallTake? || e.WorkerFinish? || e.CallFinish? || e.WorkerSleep? || e.CallSleep?
    requires s.g.outstanding > 0
    ensures Alive(Apply(s, e))
  {
    hide Wake, Broadcast, Counted, Pools;
    StepBusy(s, e);
    if e.WorkerSleep? || e.CallSleep? {
      SomeoneBusy(s);
    } else if e.WorkerFinish? {
      StepReady(s, e);
    } else if e.CallFinish? {
      assert InPhase(Apply(s, e), e.t, Looking);
    }
  }

  lemma {:induction false} StillAlive(s: State, e: Step)
    requires Pools(s) && Enabled(s, e) && Alive(s) && s.g.outstanding > 0
    requires !(e.WorkerTake? || e.CallTake? || e.WorkerFinish? || e.CallFinish? || e.WorkerSleep? || e.CallSleep?)
    ensures Alive(Apply(s, e))
  {
    StepBusy(s, e);
    StepReady(s, e);
    if t :| InPhase(s, t, Looking) {
      StillLooking(s, e, t);
    }
    hide WorkersIn, BusyWorkers, BusyCalls, Wake, Broadcast, Pools, InPhase;
  }

  lemma {:induction false} StepBroadcast(s: State, e: Step)
    requires Inv(s) && Enabled(s, e)
    ensures NoLostBroadcast(Apply(s, e))
  {
    hide Apply, Enabled, Fifo, RunsOnce, Covered;
    if u :| InPhase(Apply(s, e), u, Sleeping) {
      StillSleeping(s, e, u);
      if e == CallSleep(u) {
        SleeperHasWork(s, u);
        AliveAfterMove(s, e);
      } else {
        assert s.g.outstanding > 0 && Alive(s);
        if e.WorkerTake? || e.CallTake? || e.WorkerFinish? || e.CallFinish? || e.WorkerSleep? || e.CallSleep? {
          AliveAfterMove(s, e);
        } else {
          StillAlive(s, e);
        }
      }
    }
  }

  lemma {:induction false} SleeperHasWork(s: State, u: Tid)
    requires Enabled(s, CallSleep(u))
    ensures s.g.outstanding > 0 && Apply(s, CallSleep(u)).g.outstanding > 0
  {}

  lemma {:induction false} StepInv(s: State, e: Step)
    requires Inv(s) && Enabled(s, e)
    ensures Inv(Apply(s, e))
  {
    StepFifo(s, e);
    StepCounted(s, e);
    StepRunsOnce(s, e);
    StepCovered(s, e);
    StepPools(s, e);
    StepSignal(s, e);
    StepBroadcast(s, e);
  }

  // ----- runs

  ghost predicate IsRun(states: seq<State>, steps: seq<Step>) {
    IsRunFrom(INIT, states, steps)
  }

  ghost predicate IsRunFrom(start: State, states: seq<State>, steps: seq<Step>) {
    && |states| == |steps| + 1
    && states[0] == start
    && forall i :: 0 <= i < |steps| ==> Enabled(states[i], steps[i]) && states[i + 1] == Apply(states[i], steps[i])
  }

  lemma {:induction false} RunKeepsInv(states: seq<State>, steps: seq<Step>, i: nat)
    requires IsRun(states, steps) && i < |states|
    ensures Inv(states[i])
  {
    RunFromKeepsInv(INIT, states, steps, i);
  }

  lemma {:induction false} RunFromKeepsInv(start: State, states: seq<State>, steps: seq<Step>, i: nat)
    requires Inv(start) && IsRunFrom(start, states, steps) && i < |states|
    ensures Inv(states[i])
  {
    if i > 0 {
      RunFromKeepsInv(start, states, steps, i - 1);
      StepInv(states[i - 1], steps[i - 1]);
    }
  }

  /** First in, first out: what was started, then what is queued, is the order of submission. */
  lemma {:induction false} SubmissionOrder(states: seq<State>, steps: seq<Step>, i: nat)
    requires IsRun(states, steps) && i < |states|
    ensures states[i].started + states[i].g.queue == seq(states[i].submitted, k => k)
  {
    RunKeepsInv(states, steps, i);
  }

  predicate Starts(s: State, e: Step, id: TaskId) {
    (e.WorkerTake? || e.CallTake?) && s.g.queue != [] && s.g.queue[0] == id
  }

  predicate Ends(s: State, e: Step, id: TaskId) {
    || (e.WorkerFinish? && Runs(s, ByWorker(e.t), id))
    || (e.CallFinish? && Runs(s, ByCall(e.t), id))
  }

  lemma {:induction false} HistoryGrows(states: seq<State>, steps: seq<Step>, i: nat, j: nat)
    requires IsRun(states, steps) && i <= j < |states|
    ensures |states[i].started| <= |states[j].started| && states[i].finished <= states[j].finished
    decreases j
  {
    if i < j {
      HistoryGrows(states, steps, i, j - 1);
    }
  }

  /** In any run, a task is started by at most one step and returns in at most one step, later. */
  lemma {:induction false} EachTaskRunsOnce(states: seq<State>, steps: seq<Step>, i: nat, j: nat, id: TaskId)
    requires IsRun(states, steps) && i < |steps| && j < |steps|
    ensures Starts(states[i], steps[i], id) && Starts(states[j], steps[j], id) ==> i == j
    ensures Ends(states[i], steps[i], id) && Ends(states[j], steps[j], id) ==> i == j
    ensures Starts(states[i], steps[i], id) && Ends(states[j], steps[j], id) ==> i < j
  {
    if i < j {
      OnceBefore(states, steps, i, j, id);
    } else if j < i {
      OnceBefore(states, steps, j, i, id);
    } else {
      RunKeepsInv(states, steps, i);
    }
  }

  lemma {:induction false} OnceBefore(states: seq<State>, steps: seq<Step>, i: nat, j: nat, id: TaskId)
    requires IsRun(states, steps) && i < j < |steps|
    ensures !(Starts(states[i], steps[i], id) && Starts(states[j], steps[j], id))
    ensures !(Ends(states[i], steps[i], id) && Ends(states[j], steps[j], id))
    ensures !(Ends(states[i], steps[i], id) && Starts(states[j], steps[j], id))
  {
    RunKeepsInv(states, steps, i);
    RunKeepsInv(states, steps, j);
    HistoryGrows(states, steps, i + 1, j);
    if Ends(states[i], steps[i], id) {
      assert id in states[i + 1].finished;
    }
  }

  /**
   When `wait_for_all` returns, and when a resize has finished waiting, every task
   submitted so far has returned.
   */
  lemma {:induction false} WaitMeansFinished(states: seq<State>, steps: seq<Step>, i: nat, id: TaskId)
    requires IsRun(states, steps) && i < |steps|
    requires
      || steps[i].CallReturn?
      || steps[i].ResizeStop?
      || (steps[i].ResizeStart? && InPhase(states[i], steps[i].t, Looking))
    ensures id < states[i].submitted <==> id in states[i].finished
  {
    RunKeepsInv(states, steps, i);
    var s := states[i];
    assert BusyWorkers(s) == {} && BusyCalls(s) == {};
    forall r ensures !Runs(s, r, id) {
      assert r.t !in BusyWorkers(s) && r.t !in BusyCalls(s);
    }
  }

  /**
   No lost wakeup. With a live pool and a non-empty queue some worker is not asleep;
   and as long as any worker sleeps, at least one awake idle worker exists per queued task.
   Once `threads_done` is set, no worker is asleep or inside a task.
   */
  lemma {:induction false} NoWorkerOversleeps(states: seq<State>, steps: seq<Step>, i: nat)
    requires IsRun(states, steps) && i < |states|
    ensures var s := states[i];
      && (s.g.queue != [] && (exists t :: t in s.workers && !s.workers[t].Exited?) ==>
            exists t :: t in s.workers && (s.workers[t].Ready? || s.workers[t].Busy?))
      && (WorkersIn(s, Asleep) != {} ==> |WorkersIn(s, Ready)| >= |s.g.queue|)
      && (s.done ==> forall t :: t in s.workers ==> s.workers[t].Ready? || s.workers[t].Exited?)
  {
    RunKeepsInv(states, steps, i);
    var s := states[i];
    if t :| t in s.workers && !s.workers[t].Exited? {
      if s.workers[t].Asleep? && s.g.queue != [] {
        assert t in WorkersIn(s, Asleep);
        var u :| u in WorkersIn(s, Ready);
        assert s.workers[u].Ready?;
      }
    }
    forall t | t in s.workers && s.done ensures s.workers[t].Ready? || s.workers[t].Exited? {
      assert t !in WorkersIn(s, Asleep) && t !in BusyWorkers(s);
    }
  }

  // ----- progress

  /** A step some thread takes on its own: not a new submission, not a new call, not a spurious wakeup. */
  predicate Quiet(e: Step) {
    !e.Submit? && !e.CallBegin? && !e.WorkerSpurious? && !e.CallSpurious?
  }

  ghost predicate Settled(s: State) {
    forall e :: Enabled(s, e) ==> !Quiet(e)
  }

  lemma {:induction false} FreshWorkers(used: set<Tid>, n: nat) returns (recruits: set<Tid>)
    ensures |recruits| == n && recruits !! used
  {
    if n == 0 {
      recruits := {};
    } else {
      var rest := FreshWorkers(used, n - 1);
      var t := Above(used + rest);
      recruits := rest + {t};
    }
  }

  lemma {:induction false} Above(used: set<Tid>) returns (t: Tid)
    ensures forall u :: u in used ==> u < t
  {
    if used == {} {
      t := 0;
    } else {
      var u :| u in used;
      var v := Above(used - {u});
      t := if u < v then v else u + 1;
      forall w | w in used ensures w < t {
        if w != u {
          assert w in used - {u};
        }
      }
    }
  }

  /** Whenever a call of `wait_for_all` has not returned, some thread can take a step of its own. */
  lemma {:induction false} WaitingIsNeverStuck(s: State, t: Tid)
    requires Inv(s) && t in s.calls && !s.calls[t].1.Joining?
    ensures !Settled(s)
  {
    if s.calls[t].1.Looking? {
      LookingMoves(s, t);
    } else if s.calls[t].1.Running? {
      assert t in BusyCalls(s);
      BusyMoves(s);
    } else {
      assert InPhase(s, t, Sleeping);
      if u :| InPhase(s, u, Looking) {
        LookingMoves(s, u);
      } else if BusyWorkers(s) != {} || BusyCalls(s) != {} {
        BusyMoves(s);
      } else {
        var u :| u in WorkersIn(s, Ready);
        assert if s.g.queue == [] then Enabled(s, WorkerSleep(u)) else Enabled(s, WorkerTake(u));
      }
    }
  }

  lemma {:induction false} LookingMoves(s: State, t: Tid)
    requires InPhase(s, t, Looking)
    ensures exists e :: Enabled(s, e) && Quiet(e)
  {
    if s.g.outstanding != 0 {
      assert if s.g.queue == [] then Enabled(s, CallSleep(t)) else Enabled(s, CallTake(t));
    } else {
      match s.calls[t].0 {
        case WaitAll => assert Enabled(s, CallReturn(t));
        case Resize(n) =>
          if s.pool != {} {
            assert Enabled(s, ResizeStop(t));
          } else {
            var recruits := FreshWorkers(s.workers.Keys, n);
            assert Enabled(s, ResizeStart(t, recruits));
          }
      }
    }
  }

  lemma {:induction false} BusyMoves(s: State)
    requires Counted(s) && (BusyWorkers(s) != {} || BusyCalls(s) != {})
    ensures exists e :: Enabled(s, e) && Quiet(e)
  {
    if t :| t in BusyWorkers(s) {
      assert Enabled(s, WorkerFinish(t));
    } else {
      var t :| t in BusyCalls(s);
      assert Enabled(s, CallFinish(t));
    }
  }

  // ----- every quiet run ends

  function JoiningCalls(s: State): set<Tid> {
    set t | t in s.calls && s.calls[t].1.Joining?
  }

  function CallsIn(s: State, p: Phase): set<Tid> {
    set t | t in s.calls && s.calls[t].1 == p
  }

  function CallWork(s: State): int {
    2 * |s.calls.Keys| - |JoiningCalls(s)|
  }

  function TaskWork(s: State): nat {
    2 * |s.g.queue| + |BusyWorkers(s)| + |BusyCalls(s)|
  }

  function IdleWork(s: State): nat {
    2 * |WorkersIn(s, Ready)| + |WorkersIn(s, Asleep)| + 2 * |CallsIn(s, Looking)| + |CallsIn(s, Sleeping)|
  }

  ghost predicate Less(s': State, s: State) {
    || CallWork(s') < CallWork(s)
    || (CallWork(s') == CallWork(s) && TaskWork(s') < TaskWork(s))
    || (CallWork(s') == CallWork(s) && TaskWork(s') == TaskWork(s) && IdleWork(s') < IdleWork(s))
  }

  lemma {:induction false} StepCalls(s: State, e: Step)
    requires Enabled(s, e)
    ensures Apply(s, e).calls.Keys ==
      (match e
       case CallBegin(t, _) => s.calls.Keys + {t}
       case CallReturn(t) => s.calls.Keys - {t}
       case ResizeStart(t, _) => s.calls.Keys - {t}
       case _ => s.calls.Keys)
    ensures JoiningCalls(Apply(s, e)) ==
      (match e
       case ResizeStop(t) => JoiningCalls(s) + {t}
       case ResizeStart(t, _) => JoiningCalls(s) - {t}
       case _ => JoiningCalls(s))
  {}

  lemma {:induction false} CallWorkIsNat(s: State)
    ensures CallWork(s) >= 0
  {
    Subset(JoiningCalls(s), s.calls.Keys);
  }

  lemma {:induction false} CallWorkDecreases(s: State, e: Step)
    requires Inv(s) && Enabled(s, e) && (e.CallReturn? || e.ResizeStop? || e.ResizeStart?)
    ensures CallWork(Apply(s, e)) < CallWork(s)
  {
    StepCalls(s, e);
    assert e.ResizeStop? ==> e.t !in JoiningCalls(s);
  }

  lemma {:induction false} TaskWorkDecreases(s: State, e: Step)
    requires Inv(s) && Enabled(s, e) && (e.WorkerTake? || e.WorkerFinish? || e.CallTake? || e.CallFinish?)
    ensures CallWork(Apply(s, e)) == CallWork(s) && TaskWork(Apply(s, e)) < TaskWork(s)
  {
    StepCalls(s, e);
    StepBusy(s, e);
  }

  lemma {:induction false} WorkerSleepDecreases(s: State, t: Tid)
    requires Enabled(s, WorkerSleep(t))
    ensures var s' := Apply(s, WorkerSleep(t));
      CallWork(s') == CallWork(s) && TaskWork(s') == TaskWork(s) && IdleWork(s') < IdleWork(s)
  {
    var s' := Apply(s, WorkerSleep(t));
    StepBusy(s, WorkerSleep(t));
    assert t in WorkersIn(s, Ready) && t !in WorkersIn(s, Asleep);
    assert WorkersIn(s', Ready) == WorkersIn(s, Ready) - {t};
    assert WorkersIn(s', Asleep) == WorkersIn(s, Asleep) + {t};
  }

  lemma {:induction false} WorkerExitDecreases(s: State, t: Tid)
    requires Enabled(s, WorkerExit(t))
    ensures var s' := Apply(s, WorkerExit(t));
      CallWork(s') == CallWork(s) && TaskWork(s') == TaskWork(s) && IdleWork(s') < IdleWork(s)
  {
    var s' := Apply(s, WorkerExit(t));
    StepBusy(s, WorkerExit(t));
    assert t in WorkersIn(s, Ready);
    assert WorkersIn(s', Ready) == WorkersIn(s, Ready) - {t};
    assert WorkersIn(s', Asleep) == WorkersIn(s, Asleep);
  }

  lemma {:induction false} CallSleepDecreases(s: State, t: Tid)
    requires Enabled(s, CallSleep(t))
    ensures var s' := Apply(s, CallSleep(t));
      CallWork(s') == CallWork(s) && TaskWork(s') == TaskWork(s) && IdleWork(s') < IdleWork(s)
  {
    var s' := Apply(s, CallSleep(t));
    StepCalls(s, CallSleep(t));
    StepBusy(s, CallSleep(t));
    assert s'.workers == s.workers;
    assert t in CallsIn(s, Looking) && t !in CallsIn(s, Sleeping);
    assert CallsIn(s', Looking) == CallsIn(s, Looking) - {t};
    assert CallsIn(s', Sleeping) == CallsIn(s, Sleeping) + {t};
  }

  /** Every quiet step decreases a well-founded measure. */
  lemma {:induction false} QuietDecreases(s: State, e: Step)
    requires Inv(s) && Enabled(s, e) && Quiet(e)
    ensures Less(Apply(s, e), s)
  {
    if e.CallReturn? || e.ResizeStop? || e.ResizeStart? {
      CallWorkDecreases(s, e);
    } else if e.WorkerSleep? {
      WorkerSleepDecreases(s, e.t);
    } else if e.WorkerExit? {
      WorkerExitDecreases(s, e.t);
    } else if e.CallSleep? {
      CallSleepDecreases(s, e.t);
    } else {
      TaskWorkDecreases(s, e);
    }
  }

  ghost predicate QuietMove(run: nat -> State, act: nat -> Step, k: nat) {
    Enabled(run(k), act(k)) && Quiet(act(k)) && run(k + 1) == Apply(run(k), act(k))
  }

  /** Without new submissions, new calls and spurious wakeups, no infinite run exists. */
  lemma {:induction false} QuietRunsEnd(run: nat -> State, act: nat -> Step, i: nat)
    requires Inv(run(i))
    ensures exists k: nat :: !QuietMove(run, act, k)
    decreases CallWork(run(i)), TaskWork(run(i)), IdleWork(run(i))
  {
    if QuietMove(run, act, i) {
      QuietDecreases(run(i), act(i));
      StepInv(run(i), act(i));
      CallWorkIsNat(run(i));
      QuietRunsEnd(run, act, i + 1);
    }
  }

  /**
   Where a quiet run ends, every wait has returned: the calls left are resizes stuck in
   their join; and a live pool has finished every task.
   */
  lemma {:induction false} SettledMeansReturned(s: State)
    requires Inv(s) && Settled(s)
    ensures forall t :: t in s.calls ==> s.calls[t].1.Joining?
    ensures !s.done && (exists t :: t in s.workers && !s.workers[t].Exited?) ==>
      s.g == Guarded([], 0)
  {
    forall t | t in s.calls ensures s.calls[t].1.Joining? {
      if !s.calls[t].1.Joining? {
        WaitingIsNeverStuck(s, t);
      }
    }
    if BusyWorkers(s) != {} || BusyCalls(s) != {} {
      BusyMoves(s);
    }
    if t :| t in s.workers && !s.workers[t].Exited? && !s.done {
      if u :| u in WorkersIn(s, Ready) {
        assert if s.g.queue == [] then Enabled(s, WorkerSleep(u)) else Enabled(s, WorkerTake(u));
      }
      assert t in WorkersIn(s, Asleep) || t in BusyWorkers(s) || t in WorkersIn(s, Ready);
    }
  }
}
