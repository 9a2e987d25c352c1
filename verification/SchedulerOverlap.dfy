/** Executions of one id: when they exclude each other, how a repeat task is spaced,
    and exactly what a RemoveTask during an execution breaks. */
module SchedulerOverlap {
  import opened TaskQueue
  import opened SchedulerModel
  import opened SchedulerRuns

  // ----- One live task per id -----

  /** At most one task with this id is queued or running, and then the id is registered. */
  ghost predicate Solo(s: State, id: string) {
    && (forall t :: t in Live(s) && t.id == id ==> Live(s)[t] == 1 && id in s.taskMap)
    && (forall t, u :: t in Live(s) && u in Live(s) && t.id == id && u.id == id ==> t == u)
  }

  /** RemoveTask names this id while a worker executes it. */
  ghost predicate RemovesRunning(s: State, e: Event, id: string) {
    e == Remove(id) && InFlight(s, id)
  }

  /** None of the steps from `i` to `j` removes this id while it is being executed. */
  ghost predicate Spared(states: seq<State>, events: seq<Event>, i: nat, j: nat, id: string)
    requires i <= j <= |events| < |states|
  {
    forall k :: i <= k < j ==> !RemovesRunning(states[k], events[k], id)
  }

  lemma SoloAfterAdd(s: State, t: Task, id: string)
    requires Solo(s, id)
    ensures Solo(AfterAdd(s, t), id)
  {
    LiveAfterAdd(s, t);
  }

  /** A removal that meets no execution of the id leaves no task with it at all. */
  lemma SoloAfterRemove(s: State, id: string)
    requires !InFlight(s, id)
    ensures Solo(AfterRemove(s, id), id)
  {
    LiveAfterRemove(s, id);
  }

  lemma SoloAfterComplete(s: State, t: Task, id: string)
    requires Solo(s, id) && t in s.inflight
    ensures Solo(AfterComplete(s, t), id)
  {
    LiveAfterComplete(s, t);
    assert t.id == id ==> Live(s)[t] == 1;
    assert forall u :: u in Live(s) - multiset{t} ==> u in Live(s);
  }

  lemma SoloAfterOtherRemove(s: State, other: string, id: string)
    requires Solo(s, id) && other != id
    ensures Solo(AfterRemove(s, other), id)
  {
    LiveAfterRemove(s, other);
  }

  lemma SoloStep(s: State, e: Event, s': State, id: string)
    requires Solo(s, id) && Next(s, e, s') && !RemovesRunning(s, e, id)
    ensures Solo(s', id)
  {
    match e {
      case Add(t) => SoloAfterAdd(s, t, id);
      case Remove(other) =>
        if other == id {
          SoloAfterRemove(s, id);
        } else {
          SoloAfterOtherRemove(s, other, id);
        }
      case Complete(t) => SoloAfterComplete(s, t, id);
      case _ => LiveKept(s, e, s');
    }
  }

  /** Removals of other ids, and later ones of this id, do not matter. */
  lemma {:induction false} StaysSolo(states: seq<State>, events: seq<Event>, id: string, i: nat, j: nat)
    requires IsRun(states, events) && i <= j <= |events| && Solo(states[i], id)
    requires Spared(states, events, i, j, id)
    ensures Solo(states[j], id)
    decreases j
  {
    if i == j {
    } else {
      StaysSolo(states, events, id, i, j - 1);
      assert StepAt(states, events, j - 1);
      SoloStep(states[j - 1], events[j - 1], states[j], id);
    }
  }

  lemma SoloSeparates(s: State, queued: Task)
    requires Solo(s, queued.id) && queued in s.queue
    ensures !InFlight(s, queued.id)
  {
    forall running | running in s.inflight ensures running.id != queued.id {
      assert queued in Live(s) && running in Live(s);
      assert Live(s)[queued] == s.queue[queued] + s.inflight[queued];
    }
  }

  // ----- Mutual exclusion and spacing -----

  lemma DispatchAt(states: seq<State>, events: seq<Event>, i: nat)
    requires IsRun(states, events) && i < |events| && events[i].Dispatch?
    ensures IsEarliest(events[i].task, states[i].queue) && events[i].task.nextTime <= states[i].now
    ensures events[i].task in states[i + 1].inflight
  {
    assert StepAt(states, events, i);
  }

  lemma InFlightStep(s: State, e: Event, s': State, t: Task)
    requires Next(s, e, s') && t in s.inflight && e != Complete(t)
    ensures t in s'.inflight
  {
  }

  lemma QueuedStep(s: State, e: Event, s': State, t: Task)
    requires Next(s, e, s') && t in s.queue && Waits(e, t)
    ensures t in s'.queue
  {
  }

  lemma {:induction false} StaysInFlight(states: seq<State>, events: seq<Event>, t: Task, i: nat, j: nat)
    requires IsRun(states, events) && i <= j < |states| && t in states[i].inflight
    requires forall k :: i <= k < j ==> events[k] != Complete(t)
    ensures t in states[j].inflight
    decreases j
  {
    if i == j {
    } else {
      StaysInFlight(states, events, t, i, j - 1);
      assert StepAt(states, events, j - 1);
      InFlightStep(states[j - 1], events[j - 1], states[j], t);
    }
  }

  lemma {:induction false} StaysQueued(states: seq<State>, events: seq<Event>, t: Task, i: nat, j: nat)
    requires IsRun(states, events) && i <= j < |states| && t in states[i].queue
    requires forall k :: i <= k < j ==> Waits(events[k], t)
    ensures t in states[j].queue
    decreases j
  {
    if i == j {
    } else {
      StaysQueued(states, events, t, i, j - 1);
      assert StepAt(states, events, j - 1);
      QueuedStep(states[j - 1], events[j - 1], states[j], t);
    }
  }

  /** Between two dispatches of one id the first execution has completed, unless this id
      was removed earlier while it was being executed. */
  lemma NoOverlap(states: seq<State>, events: seq<Event>, i: nat, j: nat)
    requires IsRunFromStart(states, events) && i < j < |events|
    requires events[i].Dispatch? && events[j].Dispatch? && events[i].task.id == events[j].task.id
    requires Spared(states, events, 0, j, events[i].task.id)
    ensures exists k :: i < k < j && events[k] == Complete(events[i].task)
  {
    var t, u := events[i].task, events[j].task;
    if forall k :: i < k < j ==> events[k] != Complete(t) {
      DispatchAt(states, events, i);
      StaysInFlight(states, events, t, i + 1, j);
      StaysSolo(states, events, t.id, 0, j);
      DispatchAt(states, events, j);
      SoloSeparates(states[j], u);
    }
  }

  /** The first dispatch of a repeat task after a completion is the rescheduled task
      itself, at least one interval later. */
  lemma RepeatSpacing(states: seq<State>, events: seq<Event>, i: nat, j: nat)
    requires IsRunFromStart(states, events) && i < j < |events|
    requires events[i].Complete? && events[i].task.repeat
    requires events[j].Dispatch? && events[j].task.id == events[i].task.id
    requires Spared(states, events, 0, i, events[i].task.id)
    requires forall k :: i < k < j ==> events[k] != Remove(events[i].task.id)
    requires forall k :: i < k < j && events[k].Dispatch? ==> events[k].task.id != events[i].task.id
    ensures var t := events[i].task;
            && events[j].task == Task(t.id, states[i].now + t.interval, true, t.interval)
            && states[j].now >= states[i].now + t.interval
  {
    var t := events[i].task;
    var r := Rescheduled(t, states[i].now);
    assert StepAt(states, events, i);
    StaysQueued(states, events, r, i + 1, j);
    assert Spared(states, events, 0, j, t.id);
    StaysSolo(states, events, t.id, 0, j);
    DispatchAt(states, events, j);
    assert r in Live(states[j]) && events[j].task in Live(states[j]);
  }

  /** The other half: from one interval after the completion on, as long as the rescheduled
      task is neither dispatched nor removed, no iteration of the loop is idle. */
  lemma RepeatIsServed(states: seq<State>, events: seq<Event>, i: nat, k: nat)
    requires IsRun(states, events) && i < k < |events|
    requires events[i].Complete? && events[i].task.repeat
    requires var t := events[i].task;
             && states[k].now >= states[i].now + t.interval
             && forall m :: i < m < k ==> Waits(events[m], Task(t.id, states[i].now + t.interval, true, t.interval))
    ensures !events[k].NotDue? && !events[k].Empty?
  {
    var t := events[i].task;
    var r := Task(t.id, states[i].now + t.interval, true, t.interval);
    assert StepAt(states, events, i);
    StaysQueued(states, events, r, i + 1, k);
    assert StepAt(states, events, k);
    DueForcesDispatch(states[k], events[k], states[k + 1], r);
  }

  // ----- Exactly what a RemoveTask during an execution breaks -----

  /** A task with this id is queued or running although the id is not registered. */
  ghost predicate Orphaned(s: State, id: string) {
    HasId(Live(s), id) && id !in s.taskMap
  }

  /** In any run, some state has a task of this id without a registration if and only if
      the id was removed while it was being executed. */
  lemma OrphanedExactly(states: seq<State>, events: seq<Event>, id: string)
    requires IsRunFromStart(states, events)
    ensures (exists k :: 0 <= k < |states| && Orphaned(states[k], id)) <==>
            !Spared(states, events, 0, |events|, id)
  {
    if Spared(states, events, 0, |events|, id) {
      forall k | 0 <= k < |states| ensures !Orphaned(states[k], id) {
        StaysSolo(states, events, id, 0, k);
      }
    } else {
      var i :| 0 <= i < |events| && RemovesRunning(states[i], events[i], id);
      assert StepAt(states, events, i);
      var t :| t in states[i].inflight && t.id == id;
      LiveAfterRemove(states[i], id);
      assert t in Live(states[i + 1]);
      assert Orphaned(states[i + 1], id);
    }
  }

  /** The run loop can still dispatch: it has not returned and will not at its next select. */
  predicate CanDispatch(s: State) {
    s.loop == Entering || (s.loop == Selecting && !s.stopped)
  }

  /** The run ends by starting an execution of `id` beside one that has not completed. */
  ghost predicate EndsInOverlap(states: seq<State>, events: seq<Event>, id: string) {
    && IsRun(states, events) && events != []
    && var last := |events| - 1;
    && events[last].Dispatch? && events[last].task.id == id && InFlight(states[last], id)
  }

  /** Removing `id` now, and not again, can be followed by overlapping executions of it. */
  ghost predicate OverlapCanFollow(s: State, id: string) {
    exists states, events ::
      && EndsInOverlap(states, events, id) && states[0] == s && events[0] == Remove(id)
      && forall k :: 0 < k < |events| ==> events[k] != Remove(id)
  }

  lemma NoDispatchStep(s: State, e: Event, s': State)
    requires Next(s, e, s') && !CanDispatch(s)
    ensures !CanDispatch(s') && !e.Dispatch?
  {
  }

  lemma {:induction false} NoMoreDispatch(states: seq<State>, events: seq<Event>, n: nat)
    requires IsRun(states, events) && n <= |events| && !CanDispatch(states[0])
    ensures !CanDispatch(states[n])
    ensures forall k :: 0 <= k < n ==> !events[k].Dispatch?
  {
    if n == 0 {
    } else {
      NoMoreDispatch(states, events, n - 1);
      assert StepAt(states, events, n - 1);
      NoDispatchStep(states[n - 1], events[n - 1], states[n]);
    }
  }

  /** After removing an id that is not being executed its executions exclude each other. */
  lemma NoOverlapFollows(states: seq<State>, events: seq<Event>, id: string, j: nat)
    requires IsRun(states, events) && events != [] && events[0] == Remove(id) && !InFlight(states[0], id)
    requires 0 < j < |events| && events[j].Dispatch? && events[j].task.id == id
    requires forall k :: 0 < k < j ==> events[k] != Remove(id)
    ensures !InFlight(states[j], id)
  {
    assert StepAt(states, events, 0);
    SoloAfterRemove(states[0], id);
    StaysSolo(states, events, id, 1, j);
    DispatchAt(states, events, j);
    SoloSeparates(states[j], events[j].task);
  }

  lemma ExtendRun(states: seq<State>, events: seq<Event>, e: Event, s': State)
    requires IsRun(states, events) && Next(states[|events|], e, s')
    ensures IsRun(states + [s'], events + [e])
  {
    forall k: nat | k <= |events| ensures StepAt(states + [s'], events + [e], k) {
      assert k < |events| ==> StepAt(states, events, k);
    }
  }

  /** A time no later than `bound` and than every queued task. */
  lemma {:induction false} EarlyTime(queue: multiset<Task>, bound: int) returns (time: int)
    ensures time <= bound && forall u :: u in queue ==> time <= u.nextTime
    decreases |queue|
  {
    if queue == multiset{} {
      time := bound;
    } else {
      var t :| t in queue;
      time := EarlyTime(queue - multiset{t}, bound);
      time := if time <= t.nextTime then time else t.nextTime;
      assert forall u :: u in queue ==> u == t || u in queue - multiset{t};
    }
  }

  /** Register `t` again, past the select, and dispatch it beside the execution under way. */
  lemma Readd(states: seq<State>, events: seq<Event>, t: Task)
      returns (states': seq<State>, events': seq<Event>)
    requires IsRun(states, events)
    requires var s := states[|events|];
             && CanDispatch(s) && t.id !in s.taskMap && t.nextTime <= s.now
             && forall u :: u in s.queue ==> t.nextTime <= u.nextTime
    ensures IsRun(states', events') && states <= states' && events <= events' && |events| < |events'|
    ensures events'[|events'| - 1] == Dispatch(t)
    ensures forall k :: |events| <= k < |events'| ==> !events'[k].Remove?
    ensures states'[|events'| - 1].inflight == states[|events|].inflight
    ensures states'[|events'|].inflight == states[|events|].inflight + multiset{t}
  {
    var s := states[|events|];
    var added := AfterAdd(s, t);
    ExtendRun(states, events, Add(t), added);
    states', events' := states + [added], events + [Add(t)];
    var entering := added.(loop := Entering);
    if s.loop == Selecting {
      ExtendRun(states', events', Select, entering);
      states', events' := states' + [entering], events' + [Select];
    }
    assert IsEarliest(t, entering.queue);
    ExtendRun(states', events', Dispatch(t), AfterDispatch(entering, t));
    states', events' := states' + [AfterDispatch(entering, t)], events' + [Dispatch(t)];
  }

  /** From every state: a removal of `id`, not repeated, can be followed by a second
      execution beside the first if and only if the id is being executed and the loop can
      still dispatch. */
  lemma OverlapExactly(s: State, id: string)
    ensures OverlapCanFollow(s, id) <==> InFlight(s, id) && CanDispatch(s)
  {
    if InFlight(s, id) && CanDispatch(s) {
      var removed := AfterRemove(s, id);
      ExtendRun([s], [], Remove(id), removed);
      var time := EarlyTime(removed.queue, s.now);
      var states, events := Readd([s, removed], [Remove(id)], Task(id, time, false, 0));
      assert states[..2] == [s, removed] && events[..1] == [Remove(id)];
      var t :| t in s.inflight && t.id == id;
      assert t in states[|events| - 1].inflight;
      assert EndsInOverlap(states, events, id);
    } else if OverlapCanFollow(s, id) {
      var states, events :|
        && EndsInOverlap(states, events, id) && states[0] == s && events[0] == Remove(id)
        && forall k :: 0 < k < |events| ==> events[k] != Remove(id);
      if InFlight(s, id) {
        NoMoreDispatch(states, events, |events|);
      } else {
        NoOverlapFollows(states, events, id, |events| - 1);
      }
    }
  }

  /** Every task can come to be the only one, running. */
  lemma RunningIsReachable(t: Task) returns (states: seq<State>, events: seq<Event>)
    ensures IsRunFromStart(states, events)
    ensures states[|events|] ==
            State(multiset{}, map[t.id := t], multiset{t}, if t.nextTime > 0 then t.nextTime else 0,
                  false, Selecting, 1, 0, 0)
  {
    var now := if t.nextTime > 0 then t.nextTime else 0;
    var s1 := AfterAdd(INITIAL, t);
    var s2 := s1.(now := now);
    var s3 := s2.(loop := Entering);
    var s4 := AfterDispatch(s3, t);
    ExtendRun([INITIAL], [], Add(t), s1);
    ExtendRun([INITIAL, s1], [Add(t)], Tick(now), s2);
    ExtendRun([INITIAL, s1, s2], [Add(t), Tick(now)], Select, s3);
    states, events := [INITIAL, s1, s2, s3] + [s4], [Add(t), Tick(now), Select] + [Dispatch(t)];
    ExtendRun([INITIAL, s1, s2, s3], [Add(t), Tick(now), Select], Dispatch(t), s4);
    assert s4.queue == multiset{} && s4.taskMap == map[t.id := t];
  }

  /** So every task can, from the start, come to be executed twice at the same time. */
  lemma OverlapIsReachable(t: Task) returns (states: seq<State>, events: seq<Event>)
    ensures IsRunFromStart(states, events) && states[|events|].inflight == multiset{t, t}
  {
    states, events := RunningIsReachable(t);
    var removed := AfterRemove(states[|events|], t.id);
    ExtendRun(states, events, Remove(t.id), removed);
    states, events := Readd(states + [removed], events + [Remove(t.id)], t);
  }

  /** And every repeat task removed while it runs comes back, queued without a registration. */
  lemma ZombieIsReachable(t: Task) returns (states: seq<State>, events: seq<Event>)
    requires t.repeat
    ensures IsRunFromStart(states, events)
    ensures var s := states[|events|];
            && s.queue == multiset{Task(t.id, s.now + t.interval, true, t.interval)}
            && s.taskMap == map[] && s.inflight == multiset{}
  {
    states, events := RunningIsReachable(t);
    var removed := AfterRemove(states[|events|], t.id);
    ExtendRun(states, events, Remove(t.id), removed);
    states, events := states + [removed], events + [Remove(t.id)];
    ExtendRun(states, events, Complete(t), AfterComplete(removed, t));
    states, events := states + [AfterComplete(removed, t)], events + [Complete(t)];
    assert removed.queue == multiset{} && removed.taskMap == map[];
  }
}
