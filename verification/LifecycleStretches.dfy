/** Stretches of Lifecycle's steps put together: a Close call that runs to its end and a
    visit of the pool's lock holder. */
module LifecycleStretches {
  import opened Bounds
  import opened Lifecycle

  ghost predicate Connects(maxConns: int, states: seq<State>, events: seq<Event>, s: State, s': State) {
    IsStretch(maxConns, states, events) && states[0] == s && states[|events|] == s'
  }

  /** Some stretch goes from `s` to `s'`. */
  ghost predicate Leads(maxConns: int, s: State, s': State) {
    exists states, events :: Connects(maxConns, states, events, s, s')
  }

  lemma LeadsNowhere(maxConns: int, s: State)
    ensures Leads(maxConns, s, s)
  {
    assert Connects(maxConns, [s], [], s, s);
  }

  lemma OneMore(maxConns: int, s0: State, s: State, e: Event, s': State)
    requires Leads(maxConns, s0, s) && Next(maxConns, s, e, s')
    ensures Leads(maxConns, s0, s')
  {
    var states, events :| Connects(maxConns, states, events, s0, s);
    var states', events' := states + [s'], events + [e];
    forall k: nat | k < |events'| ensures StepAt(maxConns, states', events', k) {
      assert k < |events| ==> StepAt(maxConns, states, events, k);
    }
    assert Connects(maxConns, states', events', s0, s');
  }

  lemma LeadsOn(maxConns: int, s0: State, s: State, e: Event, s': State)
    requires Leads(maxConns, s0, s) && Inv(maxConns, s) && Next(maxConns, s, e, s')
    ensures Leads(maxConns, s0, s') && Inv(maxConns, s')
  {
    InvStep(maxConns, s, e, s');
    OneMore(maxConns, s0, s, e, s');
  }

  // ----- A Close call returns -----

  function StepsLeft(stage: Stage): nat {
    match stage
    case AtCas => 4
    case Won => 3
    case ChanClosed => 2
    case HeartbeatStopped => 1
    case Returned(_) => 0
  }

  /** The next step of a Close call; `ok` is how the socket's Close will end. */
  lemma CallStep(c: Conns, call: nat, ok: bool) returns (e: Event, c': Conns)
    requires call in c.calls && !c.calls[call].stage.Returned?
    ensures CloseStep(c, e, c') && (e.Cas? || e.CloseChannel? || e.StopHeartbeat? || e.CloseSocket?)
    ensures c'.calls == c.calls[call := Call(c.calls[call].id, c'.calls[call].stage)]
    ensures StepsLeft(c'.calls[call].stage) < StepsLeft(c.calls[call].stage)
    ensures Outcome(c', call, ok) == Outcome(c, call, ok)
    ensures c.closed <= c'.closed <= c.closed + {c.calls[call].id}
  {
    var id := c.calls[call].id;
    match c.calls[call].stage {
      case AtCas =>
        e := Cas(call);
        c' := if id in c.closed then c.(calls := c.calls[call := Call(id, Returned(true))])
              else c.(closed := c.closed + {id}, calls := c.calls[call := Call(id, Won)]);
      case Won =>
        e := CloseChannel(call);
        c' := c.(chanCloses := c.chanCloses + multiset{id}, calls := c.calls[call := Call(id, ChanClosed)]);
      case ChanClosed =>
        e := StopHeartbeat(call);
        c' := c.(heartbeatStops := c.heartbeatStops + multiset{id},
                 calls := c.calls[call := Call(id, HeartbeatStopped)]);
      case HeartbeatStopped =>
        e := CloseSocket(call, ok);
        c' := c.(calls := c.calls[call := Call(id, Returned(ok))]);
    }
  }

  /** How a Close call will end if the socket's Close ends with `ok`. */
  function Outcome(c: Conns, call: nat, ok: bool): Stage
    requires call in c.calls
  {
    match c.calls[call].stage
    case Returned(_) => c.calls[call].stage
    case AtCas => if c.calls[call].id in c.closed then Returned(true) else Returned(ok)
    case _ => Returned(ok)
  }

  /** `c'` is `c` with this call returned. */
  ghost predicate Finishes(c: Conns, c': Conns, call: nat, ok: bool) {
    && call in c.calls && c'.calls == c.calls[call := Call(c.calls[call].id, Outcome(c, call, ok))]
    && c.chanCloses <= c'.chanCloses && c.closed <= c'.closed <= c.closed + {c.calls[call].id}
  }

  lemma FinishesAfterStep(c: Conns, c1: Conns, c': Conns, call: nat, ok: bool)
    requires call in c.calls && Advances(c, c1) && c1.closed <= c.closed + {c.calls[call].id}
    requires call in c1.calls && c1.calls == c.calls[call := Call(c.calls[call].id, c1.calls[call].stage)]
    requires Outcome(c1, call, ok) == Outcome(c, call, ok) && Finishes(c1, c', call, ok)
    ensures Finishes(c, c', call, ok)
  {
  }

  /** A Close call under way can run to its end, whatever else is going on. */
  lemma {:induction false} FinishCall(maxConns: int, s0: State, s: State, call: nat, ok: bool)
      returns (s': State)
    requires Leads(maxConns, s0, s) && Inv(maxConns, s) && call in s.conns.calls
    ensures Leads(maxConns, s0, s') && Inv(maxConns, s') && s' == s.(conns := s'.conns)
    ensures Finishes(s.conns, s'.conns, call, ok)
    decreases StepsLeft(s.conns.calls[call].stage)
  {
    if s.conns.calls[call].stage.Returned? {
      s' := s;
    } else {
      var e, c := CallStep(s.conns, call, ok);
      CloseAdvances(s.conns, e, c);
      LeadsOn(maxConns, s0, s, e, s.(conns := c));
      s' := FinishCall(maxConns, s0, s.(conns := c), call, ok);
      FinishesAfterStep(s.conns, c, s'.conns, call, ok);
    }
  }

  // ----- A visit -----

  lemma FreshCall(calls: map<nat, Call>) returns (call: nat)
    ensures call !in calls
  {
    call := UpperBound(calls.Keys);
  }

  lemma {:induction false} UpperBound(ids: set<nat>) returns (bound: nat)
    ensures forall id :: id in ids ==> id < bound
    decreases ids
  {
    if ids == {} {
      bound := 0;
    } else {
      var id :| id in ids;
      var below := UpperBound(ids - {id});
      bound := Max(below, id + 1);
      assert forall other :: other in ids ==> other == id || other in ids - {id};
    }
  }

  /** Everything but the lock, the calls and the pool's contents stays. */
  ghost predicate Holds(s: State, s': State) {
    && s.pool.lock.Held? && s'.pool.lock.Held? && s'.pool.lock.op == s.pool.lock.op
    && s'.accept == s.accept && s'.monitors == s.monitors && s.conns.chanCloses <= s'.conns.chanCloses
  }

  lemma NextVisit(s: State, id: Id) returns (call: nat, s': State)
    requires s.pool.lock.Held? && s.pool.lock.visiting == Nobody && id in s.pool.lock.todo
    ensures PoolStep(s, StartVisit(id, call), s')
    ensures Holds(s, s')
    ensures call !in s.conns.calls && s'.conns == Begun(s.conns, call, id) && s'.cancelled == s.cancelled
    ensures s'.pool == s.pool.(lock := Held(s.pool.lock.op, s.pool.lock.todo - {id}, Visiting(id, call)))
  {
    var lock := s.pool.lock;
    call := FreshCall(s.conns.calls);
    s' := s.(pool := s.pool.(lock := Held(lock.op, lock.todo - {id}, Visiting(id, call))),
             conns := Begun(s.conns, call, id));
  }

  lemma VisitEnds(s: State, call: nat, ok: bool) returns (s': State)
    requires s.pool.lock.Held? && s.pool.lock.visiting.Visiting? && s.pool.lock.visiting.call == call
    requires call in s.conns.calls && s.conns.calls[call].stage == Returned(ok)
    ensures PoolStep(s, EndVisit, s') && s' == s.(pool := s'.pool)
    ensures s'.pool == (if ok then AfterDelete(s.pool, s.pool.lock.visiting.id) else s.pool)
                       .(lock := s.pool.lock.(visiting := Nobody))
  {
    var unlocked := s.pool.(lock := s.pool.lock.(visiting := Nobody));
    s' := s.(pool := if ok then AfterDelete(unlocked, s.pool.lock.visiting.id) else unlocked);
  }

  /** The Close call of the visit under way returns, and the visit ends. */
  lemma EndVisitUnderWay(maxConns: int, s0: State, s: State, ok: bool) returns (s': State)
    requires Leads(maxConns, s0, s) && Inv(maxConns, s) && s.pool.lock.Held? && s.pool.lock.visiting.Visiting?
    ensures Leads(maxConns, s0, s') && Inv(maxConns, s')
    ensures s'.pool.lock == s.pool.lock.(visiting := Nobody) && Holds(s, s') && s'.cancelled == s.cancelled
    ensures Finishes(s.conns, s'.conns, s.pool.lock.visiting.call, ok)
    ensures s'.pool == (if Outcome(s.conns, s.pool.lock.visiting.call, ok) == Returned(true)
                        then AfterDelete(s.pool, s.pool.lock.visiting.id) else s.pool).(lock := s'.pool.lock)
  {
    var call := s.pool.lock.visiting.call;
    var s1 := FinishCall(maxConns, s0, s, call, ok);
    s' := VisitEnds(s1, call, s1.conns.calls[call].stage.ok);
    LeadsOn(maxConns, s0, s1, EndVisit, s');
  }

  /** The lock is given back; a monitor is then past its Remove. */
  lemma Release(s: State) returns (s': State)
    requires s.pool.lock.Held? && s.pool.lock.visiting == Nobody && s.pool.lock.todo == {}
    ensures PoolStep(s, Unlock, s') && s' == s.(pool := s.pool.(lock := Free), monitors := s'.monitors)
  {
    var op := s.pool.lock.op;
    s' := s.(pool := s.pool.(lock := Free),
             monitors := if op.Remove? then s.monitors[op.id := Done] else s.monitors);
  }

  // ----- A monitor -----

  lemma WakeUp(s: State, id: Id) returns (s': State)
    requires id in s.conns.chanCloses && id in s.monitors && s.monitors[id] == Waiting
    ensures PoolStep(s, Wake(id), s') && s' == s.(monitors := s.monitors[id := Signalled])
  {
    s' := s.(monitors := s.monitors[id := Signalled]);
  }

  lemma TakeLock(s: State, id: Id) returns (s': State)
    requires s.pool.lock == Free && id in s.monitors && s.monitors[id] == Signalled
    ensures PoolStep(s, LockToRemove(id), s') && s' == s.(monitors := s'.monitors, pool := s'.pool)
    ensures s'.pool == s.pool.(lock := Held(Remove(id), s.pool.members * {id}, Nobody))
  {
    s' := s.(monitors := s.monitors[id := Removing],
             pool := s.pool.(lock := Held(Remove(id), s.pool.members * {id}, Nobody)));
  }
}
