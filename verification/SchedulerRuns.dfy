/** What whole runs of the scheduler guarantee: a due task waits for a bounded
    number of dispatches, and a stopped loop dispatches at most once more. */
module SchedulerRuns {
  import opened TaskQueue
  import opened SchedulerModel

  // ----- Bounded wait -----

  /** How many other queued tasks may be dispatched before `t`. */
  ghost function Ahead(queue: multiset<Task>, t: Task): nat
    requires t in queue
  {
    |NotAfter(queue, t.nextTime)| - 1
  }

  /** This step queues a task that may be dispatched before `t`. */
  predicate Overtakes(s: State, e: Event, t: Task) {
    match e
    case Add(u) => u.id !in s.taskMap && u.nextTime <= t.nextTime
    case Complete(u) => u.repeat && s.now + u.interval <= t.nextTime
    case _ => false
  }

  predicate IsIteration(e: Event) {
    e.Dispatch? || e.NotDue? || e.Empty?
  }

  /** Loop iterations among the first `n` steps. */
  function Iterations(events: seq<Event>, n: nat): nat
    requires n <= |events|
  {
    if n == 0 then 0 else Iterations(events, n - 1) + (if IsIteration(events[n - 1]) then 1 else 0)
  }

  /** Dispatches among the first `n` steps. */
  function Dispatches(events: seq<Event>, n: nat): nat
    requires n <= |events|
  {
    if n == 0 then 0 else Dispatches(events, n - 1) + (if events[n - 1].Dispatch? then 1 else 0)
  }

  /** The steps among the first `n` that queue a task ahead of `t`. */
  function Overtakings(states: seq<State>, events: seq<Event>, n: nat, t: Task): nat
    requires n <= |events| < |states|
  {
    if n == 0 then 0
    else Overtakings(states, events, n - 1, t) + (if Overtakes(states[n - 1], events[n - 1], t) then 1 else 0)
  }

  /** `t` neither starts nor is removed in this step. */
  predicate Waits(e: Event, t: Task) {
    e != Dispatch(t) && e != Remove(t.id)
  }

  lemma AheadAfterRemove(s: State, id: string, t: Task)
    requires t in s.queue && t.id != id
    ensures t in AfterRemove(s, id).queue && Ahead(AfterRemove(s, id).queue, t) <= Ahead(s.queue, t)
  {
    var q, q' := NotAfter(s.queue, t.nextTime), NotAfter(Without(s.queue, id), t.nextTime);
    assert q' <= q;
    assert q == q' + (q - q');
  }

  lemma AheadAfterInsert(queue: multiset<Task>, u: Task, t: Task)
    requires t in queue
    ensures Ahead(queue + multiset{u}, t) == Ahead(queue, t) + (if u.nextTime <= t.nextTime then 1 else 0)
  {
    assert NotAfter(queue + multiset{u}, t.nextTime)
        == NotAfter(queue, t.nextTime) + (if u.nextTime <= t.nextTime then multiset{u} else multiset{});
  }

  lemma AheadAfterDispatch(queue: multiset<Task>, u: Task, t: Task)
    requires t in queue && IsEarliest(u, queue) && u != t
    ensures t in queue - multiset{u} && Ahead(queue - multiset{u}, t) == Ahead(queue, t) - 1
  {
    assert NotAfter(queue - multiset{u}, t.nextTime) == NotAfter(queue, t.nextTime) - multiset{u};
    assert u in NotAfter(queue, t.nextTime);
  }

  /** While `t` is due no iteration is idle. */
  lemma DueForcesDispatch(s: State, e: Event, s': State, t: Task)
    requires Next(s, e, s') && t in s.queue && t.nextTime <= s.now
    ensures !e.NotDue? && !e.Empty?
  {
    if e.NotDue? {
      IdleIteration(s, e, s');
    }
  }

  /** One step while `t` waits: a dispatch uses up one place ahead of `t`, only an overtaking
      step creates one, and only a removal can take any away besides. */
  lemma WaitStep(s: State, e: Event, s': State, t: Task)
    requires Next(s, e, s') && t in s.queue && Waits(e, t)
    ensures t in s'.queue
    ensures Ahead(s'.queue, t) + (if e.Dispatch? then 1 else 0)
         <= Ahead(s.queue, t) + (if Overtakes(s, e, t) then 1 else 0)
    ensures !e.Remove? ==>
              Ahead(s'.queue, t) + (if e.Dispatch? then 1 else 0)
              == Ahead(s.queue, t) + (if Overtakes(s, e, t) then 1 else 0)
  {
    if e.Add? && e.task.id !in s.taskMap {
      AheadAfterInsert(s.queue, e.task, t);
    } else if e.Remove? {
      AheadAfterRemove(s, e.id, t);
    } else if e.Dispatch? {
      AheadAfterDispatch(s.queue, e.task, t);
    } else if e.Complete? && e.task.repeat {
      AheadAfterInsert(s.queue, Rescheduled(e.task, s.now), t);
    } else {
      assert s'.queue == s.queue;
    }
  }

  lemma WaitAt(states: seq<State>, events: seq<Event>, t: Task, k: nat)
    requires IsRun(states, events) && k < |events|
    requires t in states[k].queue && t.nextTime <= states[k].now && Waits(events[k], t)
    ensures t in states[k + 1].queue && t.nextTime <= states[k + 1].now
    ensures !events[k].NotDue? && !events[k].Empty?
    ensures Ahead(states[k + 1].queue, t) + (if events[k].Dispatch? then 1 else 0)
         <= Ahead(states[k].queue, t) + (if Overtakes(states[k], events[k], t) then 1 else 0)
    ensures !events[k].Remove? ==>
              Ahead(states[k + 1].queue, t) + (if events[k].Dispatch? then 1 else 0)
              == Ahead(states[k].queue, t) + (if Overtakes(states[k], events[k], t) then 1 else 0)
  {
    assert StepAt(states, events, k);
    DueForcesDispatch(states[k], events[k], states[k + 1], t);
    WaitStep(states[k], events[k], states[k + 1], t);
    ClockStep(states[k], events[k], states[k + 1]);
  }

  /** From any state in which `t` is queued and due: as long as `t` waits, every
      iteration dispatches, and the places ahead of `t` bound the dispatches; without
      removals they count them exactly. */
  lemma {:induction false} BoundedWait(states: seq<State>, events: seq<Event>, t: Task, n: nat)
    requires IsRun(states, events) && n <= |events|
    requires t in states[0].queue && t.nextTime <= states[0].now
    requires forall k :: 0 <= k < n ==> Waits(events[k], t)
    ensures t in states[n].queue && t.nextTime <= states[n].now
    ensures Iterations(events, n) == Dispatches(events, n)
    ensures forall k :: 0 <= k < n ==> !events[k].NotDue? && !events[k].Empty?
    ensures Dispatches(events, n) + Ahead(states[n].queue, t)
         <= Ahead(states[0].queue, t) + Overtakings(states, events, n, t)
    ensures (forall k :: 0 <= k < n ==> !events[k].Remove?) ==>
              Dispatches(events, n) + Ahead(states[n].queue, t)
              == Ahead(states[0].queue, t) + Overtakings(states, events, n, t)
  {
    if n == 0 {
    } else {
      BoundedWait(states, events, t, n - 1);
      WaitAt(states, events, t, n - 1);
    }
  }

  /** Once the loop has iterated more often than there were, and came to be, places
      ahead of a due task, that task has been dispatched or removed. */
  lemma DueTaskIsServed(states: seq<State>, events: seq<Event>, t: Task)
    requires IsRun(states, events)
    requires t in states[0].queue && t.nextTime <= states[0].now
    requires Iterations(events, |events|) > Ahead(states[0].queue, t) + Overtakings(states, events, |events|, t)
    ensures Dispatch(t) in events || Remove(t.id) in events
  {
    if forall k :: 0 <= k < |events| ==> Waits(events[k], t) {
      BoundedWait(states, events, t, |events|);
    }
  }

  /** Registrations among the first `n` steps that are scheduled no later than `t`. */
  function EarlyAdds(events: seq<Event>, n: nat, t: Task): nat
    requires n <= |events|
  {
    if n == 0 then 0
    else
      var e := events[n - 1];
      EarlyAdds(events, n - 1, t) + (if e.Add? && e.task.nextTime <= t.nextTime then 1 else 0)
  }

  /** With positive intervals no rescheduled task goes ahead of one that is due: the
      dispatches `t` waits for were ahead of it already, or were registered since. */
  lemma {:induction false} OnlyAddsOvertake(states: seq<State>, events: seq<Event>, t: Task, n: nat)
    requires IsRun(states, events) && n <= |events| && t.nextTime <= states[0].now
    requires forall k :: 0 <= k < n && events[k].Complete? && events[k].task.repeat ==> events[k].task.interval > 0
    ensures Overtakings(states, events, n, t) <= EarlyAdds(events, n, t)
    ensures forall k :: 0 <= k < n && Overtakes(states[k], events[k], t) ==>
              events[k].Add? && events[k].task.nextTime <= t.nextTime
  {
    if n == 0 {
    } else {
      OnlyAddsOvertake(states, events, t, n - 1);
      ClockAdvances(states, events, 0, n - 1);
    }
  }

  lemma ClockStep(s: State, e: Event, s': State)
    requires Next(s, e, s')
    ensures s.now <= s'.now
  {
  }

  lemma {:induction false} ClockAdvances(states: seq<State>, events: seq<Event>, i: nat, j: nat)
    requires IsRun(states, events) && i <= j < |states|
    ensures states[i].now <= states[j].now
    decreases j
  {
    if i == j {
    } else {
      ClockAdvances(states, events, i, j - 1);
      assert StepAt(states, events, j - 1);
      ClockStep(states[j - 1], events[j - 1], states[j]);
    }
  }

  // ----- Stopping -----

  /** Stop cancels the loop's context; an iteration already past its select still runs. */
  lemma {:induction false} StopBound(states: seq<State>, events: seq<Event>, n: nat)
    requires IsRun(states, events) && n <= |events| && states[0].stopped
    ensures states[n].stopped
    ensures Iterations(events, n) + (if states[n].loop == Entering then 1 else 0)
         <= if states[0].loop == Entering then 1 else 0
  {
    if n == 0 {
    } else {
      StopBound(states, events, n - 1);
      assert StepAt(states, events, n - 1);
    }
  }
}
