/** The Scheduler of common/scheduler.go over the array heap.  Each method is one
    critical section; its contract names the step of SchedulerModel it performs. */
module SchedulerClass {
  import opened TaskQueue
  import opened SchedulerModel

  datatype Outcome = Idle | NothingDue | Started(task: Task)

  lemma WithoutNext(all: seq<Task>, i: nat, id: string)
    requires i < |all|
    ensures Without(multiset(all[..i + 1]), id) ==
            Without(multiset(all[..i]), id) + (if all[i].id == id then multiset{} else multiset{all[i]})
  {
    assert all[..i + 1] == all[..i] + [all[i]];
  }

  /** A removal that shrinks the queue to `size` entries. */
  lemma RemovalCounts(s: State, id: string, s': State)
    requires s'.queue == Without(s.queue, id) && s'.taskMap == s.taskMap - {id}
    requires s'.inflight == s.inflight && s'.now == s.now && s'.stopped == s.stopped && s'.loop == s.loop
    requires s'.accepted == s.accepted && s'.finished == s.finished
    requires s'.dropped == s.dropped + |s.queue| - |s'.queue|
    ensures s' == AfterRemove(s, id)
  {
  }

  /** A completion that pushes the repeat task again. */
  lemma CompletionIs(s: State, t: Task, s': State)
    requires t.repeat && s'.queue == s.queue + multiset{Task(t.id, s.now + t.interval, true, t.interval)}
    requires s' == s.(inflight := s.inflight - multiset{t}, queue := s'.queue)
    ensures s' == AfterComplete(s, t)
  {
  }

  /** An iteration over an empty queue, over one with nothing due, or one that takes out a
      task that is due and no later than any other. */
  ghost predicate TookDue(now: int, before: multiset<Task>, outcome: Outcome, after: multiset<Task>) {
    match outcome
    case Idle => before == after == multiset{}
    case NothingDue => after == before != multiset{} && forall u :: u in after ==> u.nextTime > now
    case Started(t) => IsEarliest(t, before) && t.nextTime <= now && after == before - multiset{t}
  }

  lemma {:induction false} HasEarliest(queue: multiset<Task>)
    requires queue != multiset{}
    ensures exists t :: IsEarliest(t, queue)
    decreases |queue|
  {
    var t :| t in queue;
    var rest := queue - multiset{t};
    if rest == multiset{} {
      assert queue == multiset{t};
      assert IsEarliest(t, queue);
    } else {
      HasEarliest(rest);
      var first :| IsEarliest(first, rest);
      assert forall u :: u in queue ==> u == t || u in rest;
      assert IsEarliest(if t.nextTime <= first.nextTime then t else first, queue);
    }
  }

  /** In the step system it is one of three steps. */
  lemma IterationIs(s: State, outcome: Outcome, s': State)
    requires s.loop == Entering && TookDue(s.now, s.queue, outcome, s'.queue)
    requires s'.inflight == s.inflight + (if outcome.Started? then multiset{outcome.task} else multiset{})
    requires s' == s.(queue := s'.queue, inflight := s'.inflight, loop := Selecting)
    ensures Next(s, match outcome case Idle => Empty case NothingDue => NotDue case Started(t) => Dispatch(t), s')
  {
    if outcome.NothingDue? {
      HasEarliest(s.queue);
    }
  }

  class Scheduler {
    const tasks: TaskHeap
    var taskMap: map<string, Task>
    var cancelled: bool

    // What the step system also keeps track of: running workers and the counts.
    ghost var inflight: multiset<Task>
    ghost var accepted: int
    ghost var finished: int
    ghost var dropped: int

    ghost predicate Valid()
      reads this, tasks, tasks.data
    {
      tasks.Valid() && HeapOrder(tasks.Items())
    }

    /** The abstract state, given the clock and the run loop's position. */
    ghost function Abstract(now: int, loop: LoopPc): State
      requires Valid()
      reads this, tasks, tasks.data
    {
      State(multiset(tasks.Items()), taskMap, inflight, now, cancelled, loop, accepted, finished, dropped)
    }

    constructor ()
      ensures Valid() && fresh(tasks) && fresh(tasks.data)
      ensures Abstract(0, Selecting) == INITIAL
      ensures tasks.Items() == [] && taskMap == map[] && !cancelled && inflight == multiset{}
    {
      tasks := new TaskHeap();
      taskMap := map[];
      cancelled := false;
      inflight := multiset{};
      accepted, finished, dropped := 0, 0, 0;
    }

    method AddTask(task: Task, ghost now: int, ghost loop: LoopPc)
      requires Valid()
      modifies this, tasks, tasks.data
      ensures Valid() && (tasks.data == old(tasks.data) || fresh(tasks.data))
      ensures Abstract(now, loop) == AfterAdd(old(Abstract(now, loop)), task)
      ensures task.id in old(taskMap) ==>
                taskMap == old(taskMap) && multiset(tasks.Items()) == old(multiset(tasks.Items()))
      ensures task.id !in old(taskMap) ==>
                && taskMap == old(taskMap)[task.id := task]
                && multiset(tasks.Items()) == old(multiset(tasks.Items())) + multiset{task}
    {
      if task.id in taskMap {
        return;
      }
      taskMap := taskMap[task.id := task];
      tasks.HeapPush(task);
      accepted := accepted + 1;
    }

    /** RemoveTask's loop: a new slice with every entry whose id differs. */
    method OtherTasks(taskID: string) returns (kept: TaskHeap)
      requires tasks.Valid()
      ensures kept.Valid() && fresh(kept) && fresh(kept.data)
      ensures multiset(kept.Items()) == Without(multiset(tasks.Items()), taskID)
    {
      kept := new TaskHeap();
      ghost var all := tasks.Items();
      var i := 0;
      while i < tasks.len
        invariant 0 <= i <= tasks.len && kept.Valid() && fresh(kept) && fresh(kept.data)
        invariant multiset(kept.Items()) == Without(multiset(all[..i]), taskID)
      {
        var task := tasks.data[i];
        WithoutNext(all, i, taskID);
        if task.id != taskID {
          kept.Push(task);
        }
        i := i + 1;
      }
      assert all[..i] == all;
    }

    /** Takes over another slice and rebuilds the heap over it. */
    method Rebuild(kept: TaskHeap)
      requires kept != tasks && kept.Valid()
      modifies tasks, kept.data
      ensures Valid() && tasks.data == kept.data
      ensures multiset(tasks.Items()) == old(multiset(kept.Items()))
    {
      tasks.data, tasks.len := kept.data, kept.len;
      assert tasks.Items() == kept.Items();
      tasks.Init();
    }

    method DropTask(taskID: string)
      requires Valid()
      modifies tasks
      ensures Valid() && fresh(tasks.data)
      ensures multiset(tasks.Items()) == Without(old(multiset(tasks.Items())), taskID)
      ensures |old(multiset(tasks.Items()))| == old(tasks.len) && |multiset(tasks.Items())| == tasks.len
    {
      var kept := OtherTasks(taskID);
      Rebuild(kept);
    }

    method RemoveTask(taskID: string, ghost now: int, ghost loop: LoopPc)
      requires Valid()
      modifies this, tasks
      ensures Valid() && fresh(tasks.data)
      ensures Abstract(now, loop) == AfterRemove(old(Abstract(now, loop)), taskID)
      ensures taskMap == old(taskMap) - {taskID} && inflight == old(inflight)
      ensures forall t :: multiset(tasks.Items())[t] == if t.id == taskID then 0 else old(multiset(tasks.Items()))[t]
    {
      ghost var size := tasks.len;
      taskMap := taskMap - {taskID};
      DropTask(taskID);
      dropped := dropped + size - tasks.len;
      RemovalCounts(old(Abstract(now, loop)), taskID, Abstract(now, loop));
    }

    method Stop(ghost now: int, ghost loop: LoopPc)
      requires Valid()
      modifies this`cancelled
      ensures Valid() && Next(old(Abstract(now, loop)), SchedulerModel.Stop, Abstract(now, loop)) && cancelled
    {
      cancelled := true;
    }

    /** What the run loop does to the heap under the lock: takes out an earliest task if
        it is due, and otherwise leaves everything there. */
    method TakeDue(now: int) returns (outcome: Outcome)
      requires Valid()
      modifies tasks, tasks.data
      ensures Valid() && (tasks.data == old(tasks.data) || fresh(tasks.data))
      ensures TookDue(now, old(multiset(tasks.Items())), outcome, multiset(tasks.Items()))
    {
      if tasks.len == 0 {
        return Idle;
      }
      var task := tasks.HeapPop();
      if task.nextTime > now {
        ghost var rest := multiset(tasks.Items());
        tasks.HeapPush(task);
        assert rest + multiset{task} == old(multiset(tasks.Items()));
        return NothingDue;
      }
      return Started(task);
    }

    /** An iteration of the run loop past its select: a task that is taken starts to run. */
    method Iterate(now: int) returns (outcome: Outcome)
      requires Valid()
      modifies this, tasks, tasks.data
      ensures Valid() && (tasks.data == old(tasks.data) || fresh(tasks.data))
      ensures Next(old(Abstract(now, Entering)),
                   match outcome case Idle => Empty case NothingDue => NotDue case Started(t) => Dispatch(t),
                   Abstract(now, Selecting))
      ensures taskMap == old(taskMap) && cancelled == old(cancelled)
      ensures inflight == old(inflight) + (if outcome.Started? then multiset{outcome.task} else multiset{})
      ensures TookDue(now, old(multiset(tasks.Items())), outcome, multiset(tasks.Items()))
    {
      outcome := TakeDue(now);
      inflight := inflight + (if outcome.Started? then multiset{outcome.task} else multiset{});
      IterationIs(old(Abstract(now, Entering)), outcome, Abstract(now, Selecting));
    }

    /** The two outcomes of a finished execution. */
    method Reschedule(t: Task, now: int)
      requires Valid() && t in inflight && t.repeat
      modifies this`inflight, tasks, tasks.data
      ensures Valid() && (tasks.data == old(tasks.data) || fresh(tasks.data))
      ensures inflight == old(inflight) - multiset{t}
      ensures multiset(tasks.Items()) ==
              old(multiset(tasks.Items())) + multiset{Task(t.id, now + t.interval, true, t.interval)}
    {
      inflight := inflight - multiset{t};
      tasks.HeapPush(Rescheduled(t, now));
    }

    method Retire(t: Task, ghost now: int, ghost loop: LoopPc)
      requires Valid() && t in inflight && !t.repeat
      modifies this
      ensures Valid()
      ensures Abstract(now, loop) == AfterComplete(old(Abstract(now, loop)), t)
    {
      inflight := inflight - multiset{t};
      taskMap := taskMap - {t.id};
      finished := finished + 1;
    }

    /** A worker's critical section once `Execute` has returned. */
    method WorkerDone(t: Task, now: int, ghost loop: LoopPc)
      requires Valid() && t in inflight
      modifies this, tasks, tasks.data
      ensures Valid() && (tasks.data == old(tasks.data) || fresh(tasks.data))
      ensures Abstract(now, loop) == AfterComplete(old(Abstract(now, loop)), t)
      ensures inflight == old(inflight) - multiset{t}
      ensures t.repeat ==>
                && taskMap == old(taskMap)
                && multiset(tasks.Items()) ==
                   old(multiset(tasks.Items())) + multiset{Task(t.id, now + t.interval, true, t.interval)}
      ensures !t.repeat ==>
                && taskMap == old(taskMap) - {t.id}
                && multiset(tasks.Items()) == old(multiset(tasks.Items()))
    {
      if t.repeat {
        Reschedule(t, now);
        CompletionIs(old(Abstract(now, loop)), t, Abstract(now, loop));
      } else {
        Retire(t, now, loop);
      }
    }
  }
}
