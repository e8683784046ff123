/**
 The fields of `task_queue_t` that the mutex guards, and the three pieces of code
 that change them: the body of `task_queue_submit`, and the two halves of
 `execute_one_task_locked` before and after the task runs unlocked.
 */
module TaskQueue {
  import opened Bits
  import opened Ring

  /** What the guarded fields mean: the waiting tasks in order, and the counter. */
  datatype Guarded<T> = Guarded(queue: seq<T>, outstanding: nat)

  function Submitted<T>(g: Guarded<T>, task: T): Guarded<T> {
    Guarded(g.queue + [task], g.outstanding + 1)
  }

  function Taken<T>(g: Guarded<T>): Guarded<T>
    requires g.queue != []
  {
    Guarded(g.queue[1..], g.outstanding)
  }

  function Finished<T>(g: Guarded<T>): Guarded<T>
    requires g.outstanding > 0
  {
    Guarded(g.queue, g.outstanding - 1)
  }

  lemma {:induction false} DoubledFits(k: nat)
    requires Pow2(k) < 0x8000_0000
    ensures Pow2(k + 1) == 2 * Pow2(k) <= 0x8000_0000
  {
    Pow2Consts();
    if k >= 31 {
      Pow2Mono(31, k);
    }
    Pow2Mono(k + 1, 31);
  }

  class TaskQueue<Entry(0)> {
    var tasks: array<Entry>
    var taskHead: nat
    var taskCount: nat
    var tasksOutstanding: nat
    ghost var logCapacity: nat

    ghost predicate Valid()
      reads this, tasks
    {
      && taskCount <= tasks.Length
      && if tasks.Length == 0 then taskHead == 0
         else tasks.Length == Pow2(logCapacity) && tasks.Length <= 0x8000_0000 && taskHead < tasks.Length
    }

    ghost function Contents(): (s: seq<Entry>)
      reads this, tasks
      requires Valid()
      ensures |s| == taskCount
    {
      seq(taskCount, i requires 0 <= i < taskCount && Valid() reads this, tasks =>
        tasks[Slot(taskHead, i, tasks.Length)])
    }

    ghost function State(): Guarded<Entry>
      reads this, tasks
      requires Valid()
    {
      Guarded(Contents(), tasksOutstanding)
    }

    constructor ()
      ensures Valid() && State() == Guarded([], 0)
      ensures fresh(tasks)
    {
      tasks := new Entry[0];
      taskHead, taskCount, tasksOutstanding, logCapacity := 0, 0, 0, 0;
    }

    /** The growth branch of submit: contents keep their order, the head returns to slot 0. */
    method Grow()
      requires Valid() && taskCount == tasks.Length < 0x8000_0000
      modifies this
      ensures Valid() && fresh(tasks)
      ensures taskCount == old(taskCount) < tasks.Length
      ensures State() == old(State())
    {
      assert Pow2(4) == 16;
      hide And, Pow2;
      var newCapacity := if tasks.Length == 0 then 16 else tasks.Length * 2;
      if tasks.Length > 0 {
        DoubledFits(logCapacity);
      }
      var newTasks := new Entry[newCapacity];
      ghost var before := Contents();
      CopyTasks(newTasks);
      logCapacity := if tasks.Length == 0 then 4 else logCapacity + 1;
      tasks := newTasks;
      taskHead := 0;
      assert Contents() == before;
    }

    /** The loop that moves the entries. */
    method CopyTasks(newTasks: array<Entry>)
      requires Valid() && newTasks != tasks && taskCount <= newTasks.Length
      modifies newTasks
      ensures newTasks[..taskCount] == Contents()
    {
      hide And, Pow2;
      ghost var before := Contents();
      for i := 0 to taskCount
        invariant unchanged(this) && unchanged(tasks)
        invariant newTasks[..i] == before[..i]
      {
        MaskIsSlot(taskHead, i, logCapacity);
        newTasks[i] := tasks[And(taskHead + i, tasks.Length - 1)];
      }
    }

    /** The critical section of `task_queue_submit`. */
    method Submit(task: Entry)
      requires Valid()
      requires taskCount < 0x8000_0000 && tasksOutstanding < 0x1_0000_0000 - 1
      modifies this, tasks
      ensures Valid() && (tasks == old(tasks) || fresh(tasks))
      ensures State() == Submitted(old(State()), task)
    {
      if taskCount == tasks.Length {
        Grow();
      }
      Append(task);
    }

    /** The part of submit after growing: the task goes to the slot behind the last one. */
    method Append(task: Entry)
      requires Valid() && taskCount < tasks.Length && tasksOutstanding < 0x1_0000_0000 - 1
      modifies this`taskCount, this`tasksOutstanding, tasks
      ensures Valid() && State() == Submitted(old(State()), task)
    {
      hide And, Pow2;
      ghost var before := Contents();
      MaskIsSlot(taskHead, taskCount, logCapacity);
      var tail := And(taskHead + taskCount, tasks.Length - 1);
      tasks[tail] := task;
      taskCount := taskCount + 1;
      tasksOutstanding := tasksOutstanding + 1;
      assert Contents() == before + [task];
    }

    /** The locked half of `execute_one_task_locked` before the task runs. */
    method Take() returns (task: Entry)
      requires Valid() && taskCount > 0
      modifies this
      ensures Valid() && tasks == old(tasks)
      ensures task == old(State()).queue[0] && State() == Taken(old(State()))
    {
      ghost var before := Contents();
      MaskIsSlot(taskHead, 1, logCapacity);
      task := tasks[taskHead];
      taskHead := And(taskHead + 1, tasks.Length - 1);
      taskCount := taskCount - 1;
      assert Contents() == before[1..];
    }

    /** The locked half after the task returned; `broadcast` says whether `tasks_done_cv` is signalled. */
    method Finish() returns (broadcast: bool)
      requires Valid() && tasksOutstanding > 0
      modifies this
      ensures Valid() && tasks == old(tasks)
      ensures State() == Finished(old(State())) && (broadcast <==> State().outstanding == 0)
    {
      tasksOutstanding := tasksOutstanding - 1;
      broadcast := tasksOutstanding == 0;
    }
  }
}
