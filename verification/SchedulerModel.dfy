/** common/scheduler.go as a step system: every step is one critical section of
    the scheduler's mutex, one pass through the run loop's select, or the clock.
    Any number of clients and workers interleave; the heap is seen only as the
    multiset it holds (class Scheduler refines these steps). */
module SchedulerModel {
  import opened TaskQueue

  /** Where the run loop stands: before its select, past the select's default
      branch and about to lock, or returned. */
  datatype LoopPc = Selecting | Entering | Exited

  /** `inflight` holds the tasks handed to a worker that has not yet reported back.
      The last three fields only count: registrations accepted, one-time tasks
      completed, heap entries dropped by RemoveTask. */
  datatype State = State(
    queue: multiset<Task>, taskMap: map<string, Task>, inflight: multiset<Task>,
    now: int, stopped: bool, loop: LoopPc,
    accepted: int, finished: int, dropped: int)

  datatype Event =
    | Add(task: Task)
    | Remove(id: string)
    | Select
    | Empty
    | NotDue
    | Dispatch(task: Task)
    | Complete(task: Task)
    | Tick(to: int)
    | Stop

  const INITIAL := State(multiset{}, map[], multiset{}, 0, false, Selecting, 0, 0, 0)

  /** The entries of `queue` whose id is not `id`. */
  ghost function Without(queue: multiset<Task>, id: string): (r: multiset<Task>)
    ensures forall t :: r[t] == if t.id == id then 0 else queue[t]
    decreases |queue|
  {
    if queue == multiset{} then queue
    else
      var t :| t in queue;
      var rest := Without(queue - multiset{t}, id);
      if t.id == id then rest else rest + multiset{t}
  }

  /** The entries of `queue` scheduled no later than `time`. */
  ghost function NotAfter(queue: multiset<Task>, time: int): (r: multiset<Task>)
    ensures forall t :: r[t] == if t.nextTime <= time then queue[t] else 0
    decreases |queue|
  {
    if queue == multiset{} then queue
    else
      var t :| t in queue;
      var rest := NotAfter(queue - multiset{t}, time);
      if t.nextTime <= time then rest + multiset{t} else rest
  }

  /** The BaseTask a worker pushes when a repeat task finishes at `now`. */
  function Rescheduled(t: Task, now: int): Task {
    Task(t.id, now + t.interval, true, t.interval)
  }

  ghost function AfterAdd(s: State, t: Task): State {
    if t.id in s.taskMap then s
    else s.(taskMap := s.taskMap[t.id := t], queue := s.queue + multiset{t}, accepted := s.accepted + 1)
  }

  ghost function AfterRemove(s: State, id: string): State {
    s.(taskMap := s.taskMap - {id}, queue := Without(s.queue, id),
       dropped := s.dropped + |s.queue| - |Without(s.queue, id)|)
  }

  ghost function AfterDispatch(s: State, t: Task): State {
    s.(queue := s.queue - multiset{t}, inflight := s.inflight + multiset{t}, loop := Selecting)
  }

  ghost function AfterComplete(s: State, t: Task): State {
    if t.repeat
    then s.(inflight := s.inflight - multiset{t}, queue := s.queue + multiset{Rescheduled(t, s.now)})
    else s.(inflight := s.inflight - multiset{t}, taskMap := s.taskMap - {t.id}, finished := s.finished + 1)
  }

  ghost predicate Next(s: State, e: Event, s': State) {
    match e
    case Add(t) => s' == AfterAdd(s, t)
    case Remove(id) => s' == AfterRemove(s, id)
    case Select => s.loop == Selecting && s' == s.(loop := if s.stopped then Exited else Entering)
    case Empty => s.loop == Entering && s.queue == multiset{} && s' == s.(loop := Selecting)
    case NotDue =>
      && s.loop == Entering && (exists t :: IsEarliest(t, s.queue) && t.nextTime > s.now)
      && s' == s.(loop := Selecting)
    case Dispatch(t) => s.loop == Entering && IsEarliest(t, s.queue) && t.nextTime <= s.now && s' == AfterDispatch(s, t)
    case Complete(t) => t in s.inflight && s' == AfterComplete(s, t)
    case Tick(to) => s.now <= to && s' == s.(now := to)
    case Stop => s' == s.(stopped := true)
  }

  ghost predicate StepAt(states: seq<State>, events: seq<Event>, k: nat)
    requires k < |events| && k + 1 < |states|
  {
    Next(states[k], events[k], states[k + 1])
  }

  ghost predicate IsRun(states: seq<State>, events: seq<Event>) {
    && |states| == |events| + 1
    && forall k: nat :: k < |events| ==> StepAt(states, events, k)
  }

  ghost predicate IsRunFromStart(states: seq<State>, events: seq<Event>) {
    IsRun(states, events) && states[0] == INITIAL
  }

  /** The tasks the scheduler is responsible for: queued or being executed. */
  ghost function Live(s: State): multiset<Task> {
    s.queue + s.inflight
  }

  ghost predicate HasId(m: multiset<Task>, id: string) {
    exists t :: t in m && t.id == id
  }

  ghost predicate AllKnown(m: multiset<Task>, ids: map<string, Task>) {
    forall id :: id in ids ==> HasId(m, id)
  }

  // ----- What holds in every run -----

  /** Every registered id is queued or running, and no registration is lost or counted twice. */
  ghost predicate Accounted(s: State) {
    && AllKnown(Live(s), s.taskMap)
    && s.accepted == |s.queue| + |s.inflight| + s.finished + s.dropped
  }

  lemma LiveAfterAdd(s: State, t: Task)
    ensures Live(AfterAdd(s, t)) == if t.id in s.taskMap then Live(s) else Live(s) + multiset{t}
  {
  }

  lemma LiveAfterRemove(s: State, id: string)
    ensures Live(AfterRemove(s, id)) <= Live(s)
    ensures forall t :: t in Live(AfterRemove(s, id)) <==> t in s.inflight || (t in s.queue && t.id != id)
  {
  }

  lemma LiveAfterComplete(s: State, t: Task)
    requires t in s.inflight
    ensures t in Live(s)
    ensures Live(AfterComplete(s, t)) ==
            Live(s) - multiset{t} + (if t.repeat then multiset{Rescheduled(t, s.now)} else multiset{})
  {
  }

  /** Registration, removal and completion are the only steps that change the live tasks. */
  lemma LiveKept(s: State, e: Event, s': State)
    requires Next(s, e, s') && !e.Add? && !e.Remove? && !e.Complete?
    ensures Live(s') == Live(s) && s'.taskMap == s.taskMap
  {
  }

  /** A live task with the id of `t` survives every step that keeps the id registered. */
  lemma SuccessorOf(s: State, e: Event, s': State, t: Task)
    requires t in Live(s) && t.id in s'.taskMap && Next(s, e, s')
    ensures HasId(Live(s'), t.id)
  {
    match e {
      case Add(u) => LiveAfterAdd(s, u); assert t in Live(s');
      case Remove(id) => LiveAfterRemove(s, id); assert t in Live(s');
      case Complete(u) =>
        LiveAfterComplete(s, u);
        assert (if t == u && u.repeat then Rescheduled(u, s.now) else t) in Live(s');
      case _ => LiveKept(s, e, s'); assert t in Live(s');
    }
  }

  lemma AllKnownStep(s: State, e: Event, s': State)
    requires AllKnown(Live(s), s.taskMap) && Next(s, e, s')
    ensures AllKnown(Live(s'), s'.taskMap)
  {
    forall id | id in s'.taskMap ensures HasId(Live(s'), id) {
      if e.Add? && id == e.task.id && id !in s.taskMap {
        assert e.task in Live(s');
      } else {
        assert HasId(Live(s), id);
        var t :| t in Live(s) && t.id == id;
        SuccessorOf(s, e, s', t);
      }
    }
  }

  lemma CountStep(s: State, e: Event, s': State)
    requires s.accepted == |s.queue| + |s.inflight| + s.finished + s.dropped && Next(s, e, s')
    ensures s'.accepted == |s'.queue| + |s'.inflight| + s'.finished + s'.dropped
  {
  }

  lemma {:induction false} AlwaysAccounted(states: seq<State>, events: seq<Event>, k: nat)
    requires IsRunFromStart(states, events) && k < |states|
    ensures Accounted(states[k])
  {
    if k == 0 {
    } else {
      AlwaysAccounted(states, events, k - 1);
      assert StepAt(states, events, k - 1);
      CountStep(states[k - 1], events[k - 1], states[k]);
      AllKnownStep(states[k - 1], events[k - 1], states[k]);
    }
  }

  // ----- The exact partition, and when it is kept -----

  ghost predicate InFlight(s: State, id: string) {
    HasId(s.inflight, id)
  }

  /** Each task of `m` occurs once, its id is registered, and it agrees with its
      registration on repetition and interval. */
  ghost predicate Registered(m: multiset<Task>, ids: map<string, Task>) {
    forall t :: t in m ==>
      && m[t] == 1 && t.id in ids
      && ids[t.id].repeat == t.repeat && ids[t.id].interval == t.interval
  }

  ghost predicate DistinctIds(m: multiset<Task>) {
    forall t, u :: t in m && u in m && t.id == u.id ==> t == u
  }

  /** Queued and running tasks carry distinct ids, and these are exactly the registered ids. */
  ghost predicate Partitioned(s: State) {
    AllKnown(Live(s), s.taskMap) && Registered(Live(s), s.taskMap) && DistinctIds(Live(s))
  }

  /** RemoveTask does not name a task that a worker is executing. */
  ghost predicate Benign(s: State, e: Event) {
    e.Remove? ==> !InFlight(s, e.id)
  }

  lemma ExchangeKeeps(m: multiset<Task>, ids: map<string, Task>, t: Task, r: Task)
    requires t in m && Registered(m, ids) && DistinctIds(m)
    requires r.id == t.id && r.repeat == t.repeat && r.interval == t.interval
    ensures Registered(m - multiset{t} + multiset{r}, ids) && DistinctIds(m - multiset{t} + multiset{r})
  {
    var m' := m - multiset{t} + multiset{r};
    assert m[t] == 1;
    assert r in m ==> r == t;
    assert forall u :: u in m' <==> u == r || (u in m && u != t);
  }

  lemma DiscardKeeps(m: multiset<Task>, ids: map<string, Task>, t: Task)
    requires t in m && Registered(m, ids) && DistinctIds(m)
    ensures Registered(m - multiset{t}, ids - {t.id}) && DistinctIds(m - multiset{t})
  {
    assert m[t] == 1;
    assert forall u :: u in m - multiset{t} <==> u in m && u != t;
  }

  lemma AdditionKeeps(m: multiset<Task>, ids: map<string, Task>, t: Task)
    requires t.id !in ids && Registered(m, ids) && DistinctIds(m)
    ensures Registered(m + multiset{t}, ids[t.id := t]) && DistinctIds(m + multiset{t})
  {
    assert forall u :: u in m ==> u.id != t.id;
  }

  lemma RestrictionKeeps(m: multiset<Task>, ids: map<string, Task>, m': multiset<Task>, id: string)
    requires Registered(m, ids) && DistinctIds(m)
    requires m' <= m && forall u :: u in m' ==> u.id != id
    ensures Registered(m', ids - {id}) && DistinctIds(m')
  {
  }

  lemma PartitionedAfterComplete(s: State, t: Task)
    requires Partitioned(s) && t in s.inflight
    ensures Registered(Live(AfterComplete(s, t)), AfterComplete(s, t).taskMap)
    ensures DistinctIds(Live(AfterComplete(s, t)))
  {
    LiveAfterComplete(s, t);
    if t.repeat {
      ExchangeKeeps(Live(s), s.taskMap, t, Rescheduled(t, s.now));
    } else {
      DiscardKeeps(Live(s), s.taskMap, t);
    }
  }

  lemma PartitionedAfterRemove(s: State, id: string)
    requires Partitioned(s) && !InFlight(s, id)
    ensures Registered(Live(AfterRemove(s, id)), AfterRemove(s, id).taskMap)
    ensures DistinctIds(Live(AfterRemove(s, id)))
  {
    LiveAfterRemove(s, id);
    RestrictionKeeps(Live(s), s.taskMap, Live(AfterRemove(s, id)), id);
  }

  lemma PartitionedAfterAdd(s: State, t: Task)
    requires Partitioned(s)
    ensures Registered(Live(AfterAdd(s, t)), AfterAdd(s, t).taskMap)
    ensures DistinctIds(Live(AfterAdd(s, t)))
  {
    LiveAfterAdd(s, t);
    if t.id !in s.taskMap {
      AdditionKeeps(Live(s), s.taskMap, t);
    }
  }

  lemma PartitionedStep(s: State, e: Event, s': State)
    requires Partitioned(s) && Next(s, e, s') && Benign(s, e)
    ensures Partitioned(s')
  {
    AllKnownStep(s, e, s');
    match e {
      case Add(t) => PartitionedAfterAdd(s, t);
      case Remove(id) => PartitionedAfterRemove(s, id);
      case Complete(t) => PartitionedAfterComplete(s, t);
      case _ => LiveKept(s, e, s');
    }
  }

  lemma {:induction false} AlwaysPartitioned(states: seq<State>, events: seq<Event>, k: nat)
    requires IsRunFromStart(states, events) && k < |states|
    requires forall i :: 0 <= i < k ==> Benign(states[i], events[i])
    ensures Partitioned(states[k])
  {
    if k == 0 {
    } else {
      AlwaysPartitioned(states, events, k - 1);
      assert StepAt(states, events, k - 1);
      PartitionedStep(states[k - 1], events[k - 1], states[k]);
    }
  }

  /** RemoveTask keeps the partition exactly when the id it names is not being executed. */
  lemma RemoveKeepsPartition(s: State, id: string)
    requires Partitioned(s)
    ensures Partitioned(AfterRemove(s, id)) <==> !InFlight(s, id)
  {
    var a := AfterRemove(s, id);
    if InFlight(s, id) {
      var t :| t in s.inflight && t.id == id;
      LiveAfterRemove(s, id);
      assert t in Live(a) && t.id !in a.taskMap;
    } else {
      PartitionedStep(s, Remove(id), a);
    }
  }

  lemma NotBenignBreaks(states: seq<State>, events: seq<Event>, i: nat)
    requires IsRun(states, events) && i < |events| && !Benign(states[i], events[i])
    ensures !Partitioned(states[i]) || !Partitioned(states[i + 1])
  {
    assert StepAt(states, events, i);
    assert states[i + 1] == AfterRemove(states[i], events[i].id);
    if Partitioned(states[i]) {
      RemoveKeepsPartition(states[i], events[i].id);
    }
  }

  /** In any run, the partition holds throughout if and only if no RemoveTask names an id
      that is being executed. */
  lemma PartitionedThroughout(states: seq<State>, events: seq<Event>)
    requires IsRunFromStart(states, events)
    ensures (forall k :: 0 <= k < |states| ==> Partitioned(states[k])) <==>
            (forall i :: 0 <= i < |events| ==> Benign(states[i], events[i]))
  {
    if forall i :: 0 <= i < |events| ==> Benign(states[i], events[i]) {
      forall k | 0 <= k < |states| ensures Partitioned(states[k]) {
        AlwaysPartitioned(states, events, k);
      }
    } else {
      var i :| 0 <= i < |events| && !Benign(states[i], events[i]);
      NotBenignBreaks(states, events, i);
    }
  }

  // ----- The clock and the heap -----

  /** An iteration that dispatches nothing changes no task, and happens only when none is due. */
  lemma IdleIteration(s: State, e: Event, s': State)
    requires Next(s, e, s') && (e.Empty? || e.NotDue?)
    ensures s'.queue == s.queue && s'.inflight == s.inflight && s'.taskMap == s.taskMap
    ensures forall t :: t in s.queue ==> t.nextTime > s.now
  {
    if e.NotDue? {
      var first :| IsEarliest(first, s.queue) && first.nextTime > s.now;
      assert forall t :: t in s.queue ==> first.nextTime <= t.nextTime;
    }
  }
}
