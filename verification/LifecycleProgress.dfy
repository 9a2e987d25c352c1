/** No closed connection is stuck in the pool and no lock is held for good: the steps owed
    by whoever is under way run out, and when they have, the pool's lock is free and
    every closed connection is out of the pool. */
module LifecycleProgress {
  import opened Bounds
  import opened Lifecycle
  import opened LifecycleStretches

  /** Steps owed by the holder of the pool's lock, by Close calls under way, by monitors and
      by an accept loop that has just added a connection: no new caller, connection, cleanup
      pass or shutdown among them. */
  predicate IsOwed(e: Event) {
    match e
    case Cas(_) => true
    case CloseChannel(_) => true
    case StopHeartbeat(_) => true
    case CloseSocket(_, _) => true
    case SpawnMonitor => true
    case Wake(_) => true
    case LockToRemove(_) => true
    case StartVisit(_, _) => true
    case Skip(_) => true
    case EndVisit => true
    case Unlock => true
    case _ => false
  }

  // ----- Owed steps run out -----

  function CallSteps(calls: map<nat, Call>): map<nat, nat> {
    map call | call in calls :: StepsLeft(calls[call].stage)
  }

  ghost function CallWork(calls: map<nat, Call>): nat {
    Total(CallSteps(calls))
  }

  function MonitorSteps(pc: MonitorPc): nat {
    match pc
    case Waiting => 10
    case Signalled => 9
    case Removing => 1
    case Done => 0
  }

  function AllMonitorSteps(monitors: map<Id, MonitorPc>): map<Id, nat> {
    map id | id in monitors :: MonitorSteps(monitors[id])
  }

  ghost function MonitorWork(monitors: map<Id, MonitorPc>): nat {
    Total(AllMonitorSteps(monitors))
  }

  /** Six for each entry still to visit: its visit, and the Close call that may start. */
  function LockWork(lock: Lock): nat {
    if lock == Free then 0 else 1 + 6 * |lock.todo| + (if lock.visiting.Visiting? then 1 else 0)
  }

  function AcceptWork(a: AcceptPc): nat {
    if a.Added? then 11 else 0
  }

  /** A bound on the owed steps still to come. */
  ghost function Work(s: State): nat {
    CallWork(s.conns.calls) + MonitorWork(s.monitors) + LockWork(s.pool.lock) + AcceptWork(s.accept)
  }

  lemma CallWorkUpdate(calls: map<nat, Call>, call: nat, c: Call)
    ensures CallWork(calls[call := c]) ==
            StepsLeft(c.stage) + CallWork(calls) - (if call in calls then StepsLeft(calls[call].stage) else 0)
  {
    TotalUpdate(CallSteps(calls), call, StepsLeft(c.stage));
    assert CallSteps(calls[call := c]) == CallSteps(calls)[call := StepsLeft(c.stage)];
  }

  lemma MonitorWorkUpdate(monitors: map<Id, MonitorPc>, id: Id, pc: MonitorPc)
    ensures MonitorWork(monitors[id := pc]) ==
            MonitorSteps(pc) + MonitorWork(monitors) - (if id in monitors then MonitorSteps(monitors[id]) else 0)
  {
    TotalUpdate(AllMonitorSteps(monitors), id, MonitorSteps(pc));
    assert AllMonitorSteps(monitors[id := pc]) == AllMonitorSteps(monitors)[id := MonitorSteps(pc)];
  }

  /** What a step that is not owed adds: a Close call, a monitor to start, a pass. */
  ghost function Granted(s: State, e: Event): nat {
    match e
    case BeginClose(_, _) => 4
    case RejectClose(_) => 4
    case AddOk => 11
    case LockPool(_) => 1 + 6 * |s.pool.members|
    case _ => 0
  }

  lemma CallStepWork(c: Conns, e: Event, c': Conns)
    requires CloseStep(c, e, c')
    ensures CallWork(c'.calls) + (if IsOwed(e) then 1 else 0) <= CallWork(c.calls) + (if e.BeginClose? then 4 else 0)
  {
    CallWorkUpdate(c.calls, e.call, c'.calls[e.call]);
  }

  lemma AcceptStepWork(maxConns: int, s: State, e: Event, s': State)
    requires AcceptStep(maxConns, s, e, s') && (s.accept.Added? ==> s.accept.id !in s.monitors)
    ensures Work(s') + (if IsOwed(e) then 1 else 0) <= Work(s) + Granted(s, e)
  {
    if e.RejectClose? {
      CallWorkUpdate(s.conns.calls, e.call, Call(s.accept.id, AtCas));
    } else if e.SpawnMonitor? {
      MonitorWorkUpdate(s.monitors, s.accept.id, Waiting);
    }
  }

  lemma MonitorStepWork(s: State, e: Event, s': State)
    requires PoolStep(s, e, s') && (e.Wake? || e.LockToRemove? || e.Unlock?)
    requires e.Unlock? && s.pool.lock.op.Remove? ==>
               s.pool.lock.op.id in s.monitors && s.monitors[s.pool.lock.op.id] == Removing
    ensures Work(s') + 1 <= Work(s)
  {
    match e {
      case Wake(id) => MonitorWorkUpdate(s.monitors, id, Signalled);
      case LockToRemove(id) =>
        MonitorWorkUpdate(s.monitors, id, Removing);
        SubsetSize(s.pool.members * {id}, {id});
      case Unlock =>
        if s.pool.lock.op.Remove? {
          MonitorWorkUpdate(s.monitors, s.pool.lock.op.id, Done);
        }
    }
  }

  lemma HolderStepWork(s: State, e: Event, s': State)
    requires PoolStep(s, e, s') && !e.Wake? && !e.LockToRemove? && !e.Unlock?
    ensures Work(s') + (if IsOwed(e) then 1 else 0) <= Work(s) + Granted(s, e)
  {
    if e.StartVisit? {
      CallWorkUpdate(s.conns.calls, e.call, Call(e.id, AtCas));
    }
  }

  /** Every owed step uses up some of the work, and other steps add only what they grant. */
  lemma WorkStep(maxConns: int, s: State, e: Event, s': State)
    requires Sound(maxConns, s) && Next(maxConns, s, e, s')
    ensures Work(s') + (if IsOwed(e) then 1 else 0) <= Work(s) + Granted(s, e)
  {
    if AcceptStep(maxConns, s, e, s') {
      AcceptStepWork(maxConns, s, e, s');
    } else if PoolStep(s, e, s') {
      if e.Wake? || e.LockToRemove? || e.Unlock? {
        HolderIsRemoving(maxConns, s);
        MonitorStepWork(s, e, s');
      } else {
        HolderStepWork(s, e, s');
      }
    } else {
      CallStepWork(s.conns, e, s'.conns);
    }
  }

  lemma HolderIsRemoving(maxConns: int, s: State)
    requires Inv(maxConns, s)
    ensures s.pool.lock.Held? && s.pool.lock.op.Remove? ==>
              s.pool.lock.op.id in s.monitors && s.monitors[s.pool.lock.op.id] == Removing
  {
    if s.pool.lock.Held? && s.pool.lock.op.Remove? {
      assert MonitorSound(s, s.pool.lock.op.id);
    }
  }

  /** Owed steps among the first `n`. */
  function OwedSteps(events: seq<Event>, n: nat): nat
    requires n <= |events|
  {
    if n == 0 then 0 else OwedSteps(events, n - 1) + (if IsOwed(events[n - 1]) then 1 else 0)
  }

  ghost function AllGranted(states: seq<State>, events: seq<Event>, n: nat): nat
    requires n <= |events| < |states|
  {
    if n == 0 then 0 else AllGranted(states, events, n - 1) + Granted(states[n - 1], events[n - 1])
  }

  lemma WorkAt(maxConns: int, states: seq<State>, events: seq<Event>, k: nat)
    requires IsStretch(maxConns, states, events) && k < |events| && Reachable(maxConns, states[k])
    ensures Work(states[k + 1]) + (if IsOwed(events[k]) then 1 else 0)
         <= Work(states[k]) + Granted(states[k], events[k])
  {
    ReachableSound(maxConns, states[k]);
    assert StepAt(maxConns, states, events, k);
    WorkStep(maxConns, states[k], events[k], states[k + 1]);
  }

  /** In any stretch from a reachable state, whatever else happens, the owed steps taken
      and the work left are bounded by the work there was and what was granted since. */
  lemma {:induction false} OwedStepsBounded(maxConns: int, states: seq<State>, events: seq<Event>, n: nat)
    requires IsStretch(maxConns, states, events) && n <= |events| && Reachable(maxConns, states[0])
    ensures OwedSteps(events, n) + Work(states[n]) <= Work(states[0]) + AllGranted(states, events, n)
  {
    if n == 0 {
    } else {
      OwedStepsBounded(maxConns, states, events, n - 1);
      StaysReachable(maxConns, states, events, n - 1);
      WorkAt(maxConns, states, events, n - 1);
    }
  }

  // ----- As long as anything is unsettled, an owed step can be taken -----

  /** Whether a cleanup closes an open entry, by whatever it goes by. */
  type Policy = (State, Id) -> bool

  ghost predicate Follows(policy: Policy, s: State, e: Event) {
    match e
    case Skip(id) => !policy(s, id)
    case StartVisit(id, _) =>
      s.pool.lock.Held? && s.pool.lock.op == PoolOp.Cleanup && id !in s.conns.closed ==> policy(s, id)
    case _ => true
  }

  ghost predicate IsOwedStep(maxConns: int, policy: Policy, s: State, e: Event, s': State) {
    IsOwed(e) && Follows(policy, s, e) && Next(maxConns, s, e, s')
  }

  ghost predicate OwedStepEnabled(maxConns: int, policy: Policy, s: State) {
    exists e, s' :: IsOwedStep(maxConns, policy, s, e, s')
  }

  /** Nobody holds the lock and no closed connection is in the pool. */
  predicate Settled(s: State) {
    s.pool.lock == Free && s.pool.members !! s.conns.closed
  }

  /** The holder of the lock can always go on. */
  lemma HolderCanGoOn(maxConns: int, policy: Policy, s: State) returns (e: Event, s': State)
    requires Sound(maxConns, s) && s.pool.lock.Held?
    ensures IsOwedStep(maxConns, policy, s, e, s')
  {
    var lock := s.pool.lock;
    if lock.visiting.Visiting? {
      e, s' := VisitCanGoOn(s);
    } else if lock.todo == {} {
      s' := Release(s);
      e := Unlock;
    } else {
      var id :| id in lock.todo;
      e, s' := EntryCanBeVisited(policy, s, id);
    }
  }

  lemma VisitCanGoOn(s: State) returns (e: Event, s': State)
    requires s.pool.lock.Held? && s.pool.lock.visiting.Visiting? && s.pool.lock.visiting.call in s.conns.calls
    ensures IsOwed(e) && !e.Skip? && !e.StartVisit?
    ensures PoolStep(s, e, s') || (CloseStep(s.conns, e, s'.conns) && s' == s.(conns := s'.conns))
  {
    var call := s.pool.lock.visiting.call;
    if s.conns.calls[call].stage.Returned? {
      e := EndVisit;
      s' := VisitEnds(s, call, s.conns.calls[call].stage.ok);
    } else {
      var c;
      e, c := CallStep(s.conns, call, true);
      s' := s.(conns := c);
    }
  }

  lemma EntryCanBeVisited(policy: Policy, s: State, id: Id) returns (e: Event, s': State)
    requires s.pool.lock.Held? && s.pool.lock.visiting == Nobody && id in s.pool.lock.todo
    ensures IsOwed(e) && Follows(policy, s, e) && PoolStep(s, e, s')
  {
    var lock := s.pool.lock;
    if lock.op == PoolOp.Cleanup && id !in s.conns.closed && !policy(s, id) {
      e := Skip(id);
      s' := s.(pool := s.pool.(lock := lock.(todo := lock.todo - {id})));
    } else {
      var call;
      call, s' := NextVisit(s, id);
      e := StartVisit(id, call);
    }
  }

  /** With the lock free, a closed connection in the pool is on its way out: its channel is
      about to be closed, its monitor to be started, to wake or to call Remove. */
  lemma ClosedMemberMoves(maxConns: int, s: State, id: Id) returns (e: Event, s': State)
    requires Sound(maxConns, s) && s.pool.lock == Free && id in s.pool.members && id in s.conns.closed
    ensures IsOwed(e) && !e.Skip? && !e.StartVisit? && Next(maxConns, s, e, s')
  {
    if id !in s.conns.chanCloses {
      assert HasWinner(s.conns.calls, id);
      e, s' := WinnerMoves(s, id);
    } else if s.accept == Added(id) {
      e, s' := SpawnMonitor, s.(accept := Idle, monitors := s.monitors[id := Waiting]);
    } else {
      MonitorOfMember(maxConns, s, id);
      if s.monitors[id] == Waiting {
        s' := WakeUp(s, id);
        e := Wake(id);
      } else {
        s' := TakeLock(s, id);
        e := LockToRemove(id);
      }
    }
  }

  lemma WinnerMoves(s: State, id: Id) returns (e: Event, s': State)
    requires HasWinner(s.conns.calls, id)
    ensures e.CloseChannel? && CloseStep(s.conns, e, s'.conns) && s' == s.(conns := s'.conns)
    ensures id in s'.conns.chanCloses && s'.conns.closed == s.conns.closed
  {
    var winner :| winner in s.conns.calls && s.conns.calls[winner] == Call(id, Won);
    e := CloseChannel(winner);
    s' := s.(conns := s.conns.(chanCloses := s.conns.chanCloses + multiset{id},
                               calls := s.conns.calls[winner := Call(id, ChanClosed)]));
  }

  lemma MonitorOfMember(maxConns: int, s: State, id: Id)
    requires Inv(maxConns, s) && s.pool.lock == Free && id in s.pool.members && s.accept != Added(id)
    ensures id in s.monitors && (s.monitors[id] == Waiting || s.monitors[id] == Signalled)
  {
    assert id in s.monitors ==> MonitorSound(s, id);
  }

  /** Unless the state is settled some owed step can be taken, however a cleanup decides. */
  lemma UnsettledCanGoOn(maxConns: int, policy: Policy, s: State)
    requires Reachable(maxConns, s) && !Settled(s)
    ensures OwedStepEnabled(maxConns, policy, s)
  {
    ReachableSound(maxConns, s);
    if s.pool.lock.Held? {
      var e, s' := HolderCanGoOn(maxConns, policy, s);
      assert IsOwedStep(maxConns, policy, s, e, s');
    } else {
      var id :| id in s.pool.members && id in s.conns.closed;
      var e, s' := ClosedMemberMoves(maxConns, s, id);
      assert IsOwedStep(maxConns, policy, s, e, s');
    }
  }

  // ----- So every closed connection is removed -----

  ghost predicate OwedStretch(maxConns: int, policy: Policy, states: seq<State>, events: seq<Event>) {
    && |states| == |events| + 1
    && forall k :: 0 <= k < |events| ==> IsOwedStep(maxConns, policy, states[k], events[k], states[k + 1])
  }

  lemma OwedIsStretch(maxConns: int, policy: Policy, states: seq<State>, events: seq<Event>)
    requires OwedStretch(maxConns, policy, states, events)
    ensures IsStretch(maxConns, states, events)
  {
    forall k: nat | k < |events| ensures StepAt(maxConns, states, events, k) {
      assert IsOwedStep(maxConns, policy, states[k], events[k], states[k + 1]);
    }
  }

  lemma OwedGrantsNothing(maxConns: int, policy: Policy, s: State, e: Event, s': State)
    requires IsOwedStep(maxConns, policy, s, e, s')
    ensures IsOwed(e) && Granted(s, e) == 0
  {
  }

  lemma {:induction false} OwedCount(maxConns: int, policy: Policy, states: seq<State>, events: seq<Event>, n: nat)
    requires OwedStretch(maxConns, policy, states, events) && n <= |events|
    ensures OwedSteps(events, n) == n && AllGranted(states, events, n) == 0
  {
    if n == 0 {
    } else {
      OwedCount(maxConns, policy, states, events, n - 1);
      OwedGrantsNothing(maxConns, policy, states[n - 1], events[n - 1], states[n]);
    }
  }

  /** From every reachable state: owed steps cannot go on for ever, and wherever they stop
      because none is left the lock is free and no closed connection is in the pool. */
  lemma RemovalIsInevitable(maxConns: int, policy: Policy, states: seq<State>, events: seq<Event>)
    requires OwedStretch(maxConns, policy, states, events) && Reachable(maxConns, states[0])
    ensures |events| <= Work(states[0])
    ensures !OwedStepEnabled(maxConns, policy, states[|events|]) ==> Settled(states[|events|])
  {
    OwedIsStretch(maxConns, policy, states, events);
    OwedStepsBounded(maxConns, states, events, |events|);
    OwedCount(maxConns, policy, states, events, |events|);
    StaysReachable(maxConns, states, events, |events|);
    if !Settled(states[|events|]) {
      UnsettledCanGoOn(maxConns, policy, states[|events|]);
    }
  }

  /** And every owed stretch goes on to such an end. */
  lemma {:induction false} RemovalCompletes(maxConns: int, policy: Policy, states: seq<State>, events: seq<Event>)
      returns (states': seq<State>, events': seq<Event>)
    requires OwedStretch(maxConns, policy, states, events) && Reachable(maxConns, states[0])
    ensures OwedStretch(maxConns, policy, states', events') && states <= states' && events <= events'
    ensures Settled(states'[|events'|])
    decreases Work(states[0]) - |events|
  {
    RemovalIsInevitable(maxConns, policy, states, events);
    if Settled(states[|events|]) {
      states', events' := states, events;
    } else {
      var e, s' :| IsOwedStep(maxConns, policy, states[|events|], e, s');
      var states1, events1 := states + [s'], events + [e];
      assert forall k :: 0 <= k < |events| ==> events1[k] == events[k] && states1[k + 1] == states[k + 1];
      RemovalIsInevitable(maxConns, policy, states1, events1);
      states', events' := RemovalCompletes(maxConns, policy, states1, events1);
    }
  }
}
