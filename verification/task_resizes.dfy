/**
 Overlapping calls of `task_queue_set_worker_count`. While one call joins its old workers, another may clear
 `threads_done`; an old worker that had not looked yet then goes to sleep, and the join never ends. This is
 exactly what a positive count does to another resize that has to join.
 */
module TaskResizes {
  import opened TaskQueue
  import opened TaskProtocol

  // ----- when every call returns

  function Last(states: seq<State>): State
    requires states != []
  {
    states[|states| - 1]
  }

  /**
   A resize begins while no other is in progress; or all of them have count zero; or there is no pool, and one other
   that does not join.
   */
  ghost predicate BeginsSafely(s: State, e: Step) {
    e.CallBegin? && e.call.Resize? ==>
      || (forall t :: t in s.calls && s.calls[t].0.Resize? ==> s.calls[t].0.count == 0 && e.call.count == 0)
      || (s.pool == {} && forall t, u :: IsResize(s, t) && IsResize(s, u) ==> t == u && !s.calls[t].1.Joining?)
  }

  predicate IsResize(s: State, t: Tid) {
    t in s.calls && s.calls[t].0.Resize?
  }

  /** Resizes in progress at the same time have count zero. */
  ghost predicate ZeroCounts(s: State) {
    forall t, u :: IsResize(s, t) && IsResize(s, u) && t != u ==> s.calls[t].0.count == 0
  }

  /** No pool, no call that joins, and at most two resizes. */
  ghost predicate TwoWithoutPool(s: State) {
    && s.pool == {} && (forall t :: IsResize(s, t) ==> !s.calls[t].1.Joining?)
    && forall t, u, v :: IsResize(s, t) && IsResize(s, u) && IsResize(s, v) ==> t == u || t == v || u == v
  }

  /** While a call joins, `threads_done` stays set. */
  ghost predicate SafeResizes(s: State) {
    && (ZeroCounts(s) || TwoWithoutPool(s))
    && forall t :: t in s.calls && s.calls[t].1.Joining? ==> s.done
  }

  lemma {:induction false} StepSafe(s: State, e: Step)
    requires Pools(s) && SafeResizes(s) && Enabled(s, e) && BeginsSafely(s, e)
    ensures SafeResizes(Apply(s, e))
  {
    hide Wake, WorkersIn, BusyWorkers, BusyCalls;
    if e.CallBegin? && e.call.Resize? {
      NewResize(s, e);
    } else {
      OldResizes(s, e);
    }
    var s' := Apply(s, e);
    forall t | t in s'.calls && s'.calls[t].1.Joining? ensures s'.done {
      if t in s.calls && s.calls[t].1.Joining? {
        assert IsResize(s, t);
      }
    }
  }

  /** Resizes come by beginning and go by starting the new pool. */
  lemma {:induction false} StepResizes(s: State, e: Step, t: Tid)
    requires Enabled(s, e)
    ensures var s' := Apply(s, e);
      && (IsResize(s', t) <==>
            if e.CallBegin? && e.t == t then e.call.Resize? else IsResize(s, t) && !(e.ResizeStart? && e.t == t))
      && (IsResize(s', t) && IsResize(s, t) ==> s'.calls[t].0 == s.calls[t].0)
      && (IsResize(s', t) && s'.calls[t].1.Joining? ==> e == ResizeStop(t) || (IsResize(s, t) && s.calls[t].1.Joining?))
      && (IsResize(s', t) && !IsResize(s, t) ==> s'.calls[t].0 == e.call)
  {
    hide Wake, WorkersIn, BusyWorkers;
  }

  /**
   Without a new resize, zero counts stay zero, and of two resizes without a pool at most one is left if the pool
   starts.
   */
  lemma {:induction false} OldResizes(s: State, e: Step)
    requires Enabled(s, e) && !(e.CallBegin? && e.call.Resize?)
    ensures ZeroCounts(s) ==> ZeroCounts(Apply(s, e))
    ensures TwoWithoutPool(s) ==> ZeroCounts(Apply(s, e)) || TwoWithoutPool(Apply(s, e))
  {
    var s' := Apply(s, e);
    forall t ensures IsResize(s', t) ==> IsResize(s, t) && s'.calls[t].0 == s.calls[t].0
                                         && !(e.ResizeStart? && e.t == t)
                                         && (s'.calls[t].1.Joining? ==> e == ResizeStop(t) || s.calls[t].1.Joining?)
    {
      StepResizes(s, e, t);
    }
    PoolAfter(s, e);
    hide Apply, Enabled;
  }

  lemma {:induction false} PoolAfter(s: State, e: Step)
    requires Enabled(s, e)
    ensures e.ResizeStop? ==> s.pool != {}
    ensures !e.ResizeStart? && !e.ResizeStop? ==> Apply(s, e).pool == s.pool
    ensures e.ResizeStart? ==> IsResize(s, e.t)
  {}

  /** A new resize that begins safely. */
  lemma {:induction false} NewResize(s: State, e: Step)
    requires Enabled(s, e) && e.CallBegin? && e.call.Resize? && BeginsSafely(s, e) && SafeResizes(s)
    ensures ZeroCounts(Apply(s, e)) || TwoWithoutPool(Apply(s, e))
  {
    var s' := Apply(s, e);
    forall t ensures IsResize(s', t) <==> IsResize(s, t) || t == e.t {}
    forall t ensures IsResize(s', t) ==> s'.calls[t] == if t == e.t then (e.call, Looking) else s.calls[t] {}
    PoolAfter(s, e);
    hide Apply, Enabled;
  }

  lemma {:induction false} RunKeepsSafe(start: State, states: seq<State>, steps: seq<Step>, i: nat)
    requires Inv(start) && SafeResizes(start) && IsRunFrom(start, states, steps) && i < |states|
    requires forall k :: 0 <= k < i ==> BeginsSafely(states[k], steps[k])
    ensures SafeResizes(states[i])
  {
    if i > 0 {
      RunKeepsSafe(start, states, steps, i - 1);
      RunFromKeepsInv(start, states, steps, i - 1);
      StepSafe(states[i - 1], steps[i - 1]);
    }
  }

  /** Where a safe state is settled, no call is left. */
  lemma {:induction false} SafeMeansReturned(s: State)
    requires Inv(s) && SafeResizes(s) && Settled(s)
    ensures s.calls == map[]
  {
    SettledMeansReturned(s);
    forall t ensures t !in s.calls {
      if t in s.calls {
        var e := JoinEnds(s, t);
      }
    }
  }

  /** Once the old workers have ended, the join does. */
  lemma {:induction false} JoinEnds(s: State, t: Tid) returns (e: Step)
    requires Inv(s) && SafeResizes(s) && t in s.calls && s.calls[t].1.Joining?
    requires WorkersIn(s, Asleep) == {} && BusyWorkers(s) == {} && forall w: Tid :: !Enabled(s, WorkerExit(w))
    ensures Enabled(s, e) && Quiet(e)
  {
    var team := s.calls[t].1.team;
    forall w | w in team ensures w in WorkersIn(s, Exited) {
      assert w in s.workers.Keys;
      assert w !in WorkersIn(s, Asleep) && w !in BusyWorkers(s) && !Enabled(s, WorkerExit(w));
    }
    var recruits := FreshWorkers(s.workers.Keys, s.calls[t].0.count);
    e := ResizeStart(t, recruits);
  }

  /** When resizes overlap safely, every call returns: a settled state has no call left. */
  lemma {:induction false} AllCallsReturn(states: seq<State>, steps: seq<Step>)
    requires IsRun(states, steps)
    requires forall k :: 0 <= k < |steps| ==> BeginsSafely(states[k], steps[k])
    requires Settled(Last(states))
    ensures Last(states).calls == map[]
  {
    RunKeepsInv(states, steps, |steps|);
    RunKeepsSafe(INIT, states, steps, |steps|);
    SafeMeansReturned(Last(states));
  }

  // ----- when a call hangs

  /** A run, then a step. */
  lemma {:induction false} Extend(start: State, states: seq<State>, steps: seq<Step>, e: Step)
    requires IsRunFrom(start, states, steps) && Enabled(Last(states), e)
    ensures IsRunFrom(start, states + [Apply(Last(states), e)], steps + [e])
  {}

  /** A step, then a run. */
  lemma {:induction false} Prepend(start: State, e: Step, states: seq<State>, steps: seq<Step>)
    requires Enabled(start, e) && IsRunFrom(Apply(start, e), states, steps)
    ensures IsRunFrom(start, [start] + states, [e] + steps) && Last([start] + states) == Last(states)
  {
    var all, acts := [start] + states, [e] + steps;
    forall i | 0 <= i < |acts| ensures Enabled(all[i], acts[i]) && all[i + 1] == Apply(all[i], acts[i]) {
      if i > 0 {
        assert all[i] == states[i - 1] && acts[i] == steps[i - 1] && all[i + 1] == states[i];
      }
    }
  }

  /** A run, then another from where it ends. */
  lemma {:induction false} Append(start: State, s1: seq<State>, e1: seq<Step>, s2: seq<State>, e2: seq<Step>)
    requires IsRunFrom(start, s1, e1) && IsRunFrom(Last(s1), s2, e2)
    ensures IsRunFrom(start, s1 + s2[1..], e1 + e2) && Last(s1 + s2[1..]) == Last(s2)
  {
    var all, acts := s1 + s2[1..], e1 + e2;
    forall i | 0 <= i < |acts| ensures Enabled(all[i], acts[i]) && all[i + 1] == Apply(all[i], acts[i]) {
      if i < |e1| {
        assert all[i] == s1[i] && all[i + 1] == s1[i + 1];
      } else {
        assert all[i] == s2[i - |e1|] && all[i + 1] == s2[i - |e1| + 1];
      }
    }
  }

  predicate NoResizeBegins(steps: seq<Step>) {
    forall k :: 0 <= k < |steps| ==> !(steps[k].CallBegin? && steps[k].call.Resize?)
  }

  /** Everyone who is awake and idle goes to sleep; nothing else changes. */
  ghost predicate Slept(s: State, s': State) {
    && s'.g == s.g && s'.done == s.done && s'.calls == s.calls && s'.workers.Keys == s.workers.Keys
    && forall t :: t in s.workers ==> s'.workers[t] == if s.workers[t].Ready? then Asleep else s.workers[t]
  }

  lemma {:induction false} AllGoToSleep(s: State) returns (states: seq<State>, steps: seq<Step>)
    requires s.g.queue == [] && !s.done
    ensures IsRunFrom(s, states, steps) && NoResizeBegins(steps) && Slept(s, Last(states))
    decreases |WorkersIn(s, Ready)|
  {
    if t :| t in WorkersIn(s, Ready) {
      var s1 := Apply(s, WorkerSleep(t));
      assert WorkersIn(s1, Ready) == WorkersIn(s, Ready) - {t};
      var states1, steps1 := AllGoToSleep(s1);
      Prepend(s, WorkerSleep(t), states1, steps1);
      states, steps := [s] + states1, [WorkerSleep(t)] + steps1;
    } else {
      states, steps := [s], [];
      forall t | t in s.workers ensures !s.workers[t].Ready? {
        assert t !in WorkersIn(s, Ready);
      }
    }
  }

  /** No tasks, a live pool or none, and two resizes that have not looked yet. */
  ghost predicate TwoResizes(s: State, a: Tid, m: nat, b: Tid, n: nat) {
    && Inv(s) && a != b && s.calls == map[a := (Resize(m), Looking), b := (Resize(n), Looking)]
    && s.g == Guarded([], 0) && (s.pool != {} ==> !s.done)
    && forall t :: t in s.pool ==> s.workers[t].Ready? || s.workers[t].Asleep?
  }

  /** Call `q` joins `team`, one of whom sleeps, and nobody is left who could wake him. */
  ghost predicate Stranded(s: State, q: Tid, team: set<Tid>) {
    && s.g == Guarded([], 0) && s.calls.Keys == {q} && s.calls[q].0.Resize? && s.calls[q].1 == Joining(team)
    && (forall t :: t in s.workers ==> s.workers[t].Asleep? || s.workers[t].Exited?)
    && exists t :: t in team && IsWorker(s, t, Asleep)
  }

  lemma {:induction false} StrandedIsSettled(s: State, q: Tid, team: set<Tid>)
    requires Stranded(s, q, team)
    ensures Settled(s) && s.calls != map[]
  {
    var t :| t in team && IsWorker(s, t, Asleep);
    assert t !in WorkersIn(s, Exited) && q in s.calls;
    assert BusyWorkers(s) == {} && BusyCalls(s) == {};
  }

  /** The first call stops the pool; the second one, with a positive count, starts another. */
  lemma {:induction false} StopAndStart(s: State, q: Tid, m: nat, p: Tid, n: nat) returns (s2: State, steps: seq<Step>)
    requires TwoResizes(s, q, m, p, n) && n > 0 && s.pool != {}
    ensures |steps| == 2 && NoResizeBegins(steps) && Enabled(s, steps[0]) && Enabled(Apply(s, steps[0]), steps[1])
    ensures s2 == Apply(Apply(s, steps[0]), steps[1]) && s2.g == Guarded([], 0) && !s2.done
    ensures s2.calls.Keys == {q} && s2.calls[q] == (Resize(m), Joining(s.pool))
    ensures forall t :: t in s2.workers ==> s2.workers[t].Ready? || s2.workers[t].Exited?
    ensures forall t :: t in s.pool ==> IsWorker(s2, t, Ready)
  {
    assert BusyWorkers(s) == {};
    assert s.pool <= s.workers.Keys;
    assert Enabled(s, ResizeStop(q));
    var s1 := Apply(s, ResizeStop(q));
    var recruits := FreshWorkers(s1.workers.Keys, n);
    assert recruits != {};
    assert Enabled(s1, ResizeStart(p, recruits));
    s2 := Apply(s1, ResizeStart(p, recruits));
    steps := [ResizeStop(q), ResizeStart(p, recruits)];
    forall t | t in s2.workers ensures s2.workers[t].Ready? || s2.workers[t].Exited? {
      assert t in s.workers ==> t !in BusyWorkers(s);
    }
  }

  /** From there the old pool falls asleep, and the first call never returns. */
  lemma {:induction false} PositiveCountStrands(s: State, q: Tid, m: nat, p: Tid, n: nat)
    returns (states: seq<State>, steps: seq<Step>)
    requires TwoResizes(s, q, m, p, n) && n > 0 && s.pool != {}
    ensures IsRunFrom(s, states, steps) && NoResizeBegins(steps)
    ensures Settled(Last(states)) && Last(states).calls != map[]
  {
    var s2, first := StopAndStart(s, q, m, p, n);
    var s1 := Apply(s, first[0]);
    var rest, acts := AllGoToSleep(s2);
    Prepend(s1, first[1], rest, acts);
    Prepend(s, first[0], [s1] + rest, [first[1]] + acts);
    states, steps := [s] + ([s1] + rest), [first[0]] + ([first[1]] + acts);
    var t :| t in s.pool;
    assert IsWorker(s2, t, Ready) && IsWorker(Last(rest), t, Asleep);
    StrandedIsSettled(Last(rest), q, s.pool);
  }

  /**
   Two resizes that overlap without tasks both return, on every schedule and whatever else is submitted or waited for,
   exactly if there is no pool or both have count zero.
   */
  lemma {:induction false} ResizesReturnExactly(s: State, a: Tid, m: nat, b: Tid, n: nat)
    requires TwoResizes(s, a, m, b, n)
    ensures
      (forall states: seq<State>, steps: seq<Step> ::
         IsRunFrom(s, states, steps) && NoResizeBegins(steps) && Settled(Last(states)) ==> Last(states).calls == map[])
      <==> s.pool == {} || (m == 0 && n == 0)
  {
    if s.pool == {} || (m == 0 && n == 0) {
      HarmlessPair(s, a, m, b, n);
      hide TwoResizes;
      forall states: seq<State>, steps: seq<Step>
        | IsRunFrom(s, states, steps) && NoResizeBegins(steps) && Settled(Last(states))
        ensures Last(states).calls == map[]
      {
        RunFromKeepsInv(s, states, steps, |steps|);
        RunKeepsSafe(s, states, steps, |steps|);
        SafeMeansReturned(Last(states));
      }
    } else if n > 0 {
      var states, steps := PositiveCountStrands(s, a, m, b, n);
      assert IsRunFrom(s, states, steps);
    } else {
      Exchange(s, a, m, b, n);
      var states, steps := PositiveCountStrands(s, b, n, a, m);
      assert IsRunFrom(s, states, steps);
    }
  }

  lemma {:induction false} HarmlessPair(s: State, a: Tid, m: nat, b: Tid, n: nat)
    requires TwoResizes(s, a, m, b, n) && (s.pool == {} || (m == 0 && n == 0))
    ensures Inv(s) && SafeResizes(s)
  {}

  lemma {:induction false} Exchange(s: State, a: Tid, m: nat, b: Tid, n: nat)
    requires TwoResizes(s, a, m, b, n)
    ensures TwoResizes(s, b, n, a, m)
  {}

  // ----- such states are reached

  /** A pool of `size` workers, and two resizes on it. */
  lemma {:induction false} TwoResizesReached(size: nat, m: nat, n: nat) returns (states: seq<State>, steps: seq<Step>)
    requires size > 0
    ensures IsRun(states, steps) && TwoResizes(Last(states), 0, m, 1, n) && |Last(states).pool| == size
  {
    var recruits := FreshWorkers({}, size);
    var s1 := Apply(INIT, CallBegin(0, Resize(size)));
    assert Enabled(s1, ResizeStart(0, recruits)) && recruits != {};
    var s2 := Apply(s1, ResizeStart(0, recruits));
    assert s2.calls == map[];
    var s3 := Apply(s2, CallBegin(0, Resize(m)));
    var s4 := Apply(s3, CallBegin(1, Resize(n)));
    states, steps := [INIT], [];
    Extend(INIT, states, steps, CallBegin(0, Resize(size)));
    states, steps := states + [s1], steps + [CallBegin(0, Resize(size))];
    Extend(INIT, states, steps, ResizeStart(0, recruits));
    states, steps := states + [s2], steps + [ResizeStart(0, recruits)];
    Extend(INIT, states, steps, CallBegin(0, Resize(m)));
    states, steps := states + [s3], steps + [CallBegin(0, Resize(m))];
    Extend(INIT, states, steps, CallBegin(1, Resize(n)));
    states, steps := states + [s4], steps + [CallBegin(1, Resize(n))];
    assert IsRun(states, steps);
    RunKeepsInv(states, steps, |steps|);
  }

  /** For every pool size, two overlapping resizes of which one is positive can hang. */
  lemma {:induction false} OverlappingResizesCanHang(size: nat, m: nat, n: nat)
    returns (states: seq<State>, steps: seq<Step>)
    requires size > 0 && (m > 0 || n > 0)
    ensures IsRun(states, steps) && Settled(Last(states)) && Last(states).calls != map[]
  {
    var reach, acts := TwoResizesReached(size, m, n);
    var s := Last(reach);
    ResizesReturnExactly(s, 0, m, 1, n);
    var rest, moves :|
      IsRunFrom(s, rest, moves) && NoResizeBegins(moves) && Settled(Last(rest)) && Last(rest).calls != map[];
    Append(INIT, reach, acts, rest, moves);
    states, steps := reach + rest[1..], acts + moves;
  }
}
