/** A cleanup pass without interruption is a stretch of Lifecycle's steps: what ConnPool's
    loop leaves for an order of the map is what the step system leaves. */
module LifecyclePass {
  import opened Cleanups
  import opened Lifecycle
  import opened LifecycleStretches

  /** What the entries answer agrees with their closed flags; closing one that is closed
      already succeeds. */
  ghost predicate Agrees(s: State, obs: map<Id, Observation>, ids: set<Id>) {
    forall id :: id in ids ==>
      && id in obs && (obs[id].closed <==> id in s.conns.closed) && (obs[id].closed ==> obs[id].closeOk)
  }

  ghost predicate InPass(s: State, todo: set<Id>) {
    s.pool.lock == Held(PoolOp.Cleanup, todo, Nobody)
  }

  /** The visit of one entry. */
  ghost predicate IsVisit(l: Limits, o: Observation, id: Id, s: State, s': State)
    requires s.pool.lock.Held?
  {
    && s'.pool == (if Removes(l, o, |s.pool.members|) then AfterDelete(s.pool, id) else s.pool)
                  .(lock := Held(s.pool.lock.op, s.pool.lock.todo - {id}, Nobody))
    && s'.accept == s.accept && s'.monitors == s.monitors && s'.cancelled == s.cancelled
    && s.conns.closed <= s'.conns.closed <= s.conns.closed + {id}
  }

  lemma SkipIsVisit(maxConns: int, s0: State, s: State, l: Limits, o: Observation, id: Id) returns (s': State)
    requires Leads(maxConns, s0, s) && Inv(maxConns, s) && s.pool.lock.Held? && InPass(s, s.pool.lock.todo)
    requires id in s.pool.lock.todo && (o.closed <==> id in s.conns.closed)
    requires !ShouldCleanup(l, o, |s.pool.members|)
    ensures Leads(maxConns, s0, s') && Inv(maxConns, s') && IsVisit(l, o, id, s, s')
  {
    s' := s.(pool := s.pool.(lock := s.pool.lock.(todo := s.pool.lock.todo - {id})));
    assert PoolStep(s, Skip(id), s');
    LeadsOn(maxConns, s0, s, Skip(id), s');
  }

  /** A visit that starts a Close call and ends when it has returned. */
  lemma ClosedVisit(l: Limits, o: Observation, id: Id, call: nat, s: State, s1: State, s': State)
    requires s.pool.lock.Held? && s.pool.lock.visiting == Nobody && call !in s.conns.calls
    requires (o.closed <==> id in s.conns.closed) && (o.closed ==> o.closeOk) && ShouldCleanup(l, o, |s.pool.members|)
    requires s1 == s.(pool := s.pool.(lock := Held(s.pool.lock.op, s.pool.lock.todo - {id}, Visiting(id, call))),
                      conns := Begun(s.conns, call, id))
    requires Finishes(s1.conns, s'.conns, call, o.closeOk) && Holds(s1, s') && s'.cancelled == s1.cancelled
    requires s'.pool == (if Outcome(s1.conns, call, o.closeOk) == Returned(true)
                         then AfterDelete(s1.pool, id) else s1.pool).(lock := s1.pool.lock.(visiting := Nobody))
    ensures IsVisit(l, o, id, s, s')
  {
    assert Outcome(s1.conns, call, o.closeOk) == Returned(o.closeOk);
  }

  lemma CloseIsVisit(maxConns: int, s0: State, s: State, l: Limits, o: Observation, id: Id) returns (s': State)
    requires Leads(maxConns, s0, s) && Inv(maxConns, s) && s.pool.lock.Held? && InPass(s, s.pool.lock.todo)
    requires id in s.pool.lock.todo && (o.closed <==> id in s.conns.closed) && (o.closed ==> o.closeOk)
    requires ShouldCleanup(l, o, |s.pool.members|)
    ensures Leads(maxConns, s0, s') && Inv(maxConns, s') && IsVisit(l, o, id, s, s')
  {
    var call, s1 := NextVisit(s, id);
    LeadsOn(maxConns, s0, s, StartVisit(id, call), s1);
    s' := EndVisitUnderWay(maxConns, s0, s1, o.closeOk);
    ClosedVisit(l, o, id, call, s, s1, s');
  }

  lemma VisitIsSteps(maxConns: int, s0: State, s: State, l: Limits, o: Observation, id: Id) returns (s': State)
    requires Leads(maxConns, s0, s) && Inv(maxConns, s) && s.pool.lock.Held? && InPass(s, s.pool.lock.todo)
    requires id in s.pool.lock.todo && (o.closed <==> id in s.conns.closed) && (o.closed ==> o.closeOk)
    ensures Leads(maxConns, s0, s') && Inv(maxConns, s') && IsVisit(l, o, id, s, s')
  {
    if ShouldCleanup(l, o, |s.pool.members|) {
      s' := CloseIsVisit(maxConns, s0, s, l, o, id);
    } else {
      s' := SkipIsVisit(maxConns, s0, s, l, o, id);
    }
  }

  /** The members that the rest of a pass in this order leaves. */
  ghost function Remaining(l: Limits, obs: map<Id, Observation>, order: seq<Id>, members: set<Id>): set<Id>
    requires forall id :: id in order ==> id in obs
  {
    set id | id in members && (id in order ==> id in Kept(l, obs, order, |members|))
  }

  lemma RemainingStep(l: Limits, obs: map<Id, Observation>, order: seq<Id>, todo: set<Id>, members: set<Id>)
    requires IsOrder(order, todo) && order != [] && todo <= obs.Keys && todo <= members
    ensures var goes := Removes(l, obs[order[0]], |members|);
            Remaining(l, obs, order, members)
            == Remaining(l, obs, order[1..], if goes then members - {order[0]} else members)
  {
    OrderRest(order, todo);
    KeptComesFrom(l, obs, order[1..], |members|);
    KeptComesFrom(l, obs, order[1..], |members| - 1);
  }

  /** The pool of `s` is that of `s0`, under a lock, after some deletions. */
  ghost predicate Deleted(s0: State, s: State) {
    && s.pool.members <= s0.pool.members
    && s.pool == AfterDeletes(s0.pool, s0.pool.members - s.pool.members).(lock := s.pool.lock)
  }

  lemma DeletedStep(l: Limits, o: Observation, id: Id, s0: State, s: State, s': State)
    requires s.pool.lock.Held? && Deleted(s0, s) && id in s.pool.members && IsVisit(l, o, id, s, s')
    ensures Deleted(s0, s')
  {
    DeleteOneMore(s0.pool, s0.pool.members, s.pool.members, id);
  }

  /** What later visits need is still there. */
  lemma VisitLeaves(l: Limits, obs: map<Id, Observation>, order: seq<Id>, s: State, s': State)
    requires s.pool.lock.Held? && InPass(s, s.pool.lock.todo) && IsOrder(order, s.pool.lock.todo) && order != []
    requires Agrees(s, obs, s.pool.lock.todo) && IsVisit(l, obs[order[0]], order[0], s, s')
    ensures s'.pool.lock.Held? && InPass(s', s'.pool.lock.todo) && IsOrder(order[1..], s'.pool.lock.todo)
    ensures Agrees(s', obs, s'.pool.lock.todo)
  {
    OrderRest(order, s.pool.lock.todo);
  }

  lemma {:induction false} VisitsAreSteps(maxConns: int, s0: State, s: State, l: Limits,
                                          obs: map<Id, Observation>, order: seq<Id>) returns (s': State)
    requires Leads(maxConns, s0, s) && Inv(maxConns, s) && Deleted(s0, s)
    requires s.pool.lock.Held? && InPass(s, s.pool.lock.todo) && IsOrder(order, s.pool.lock.todo)
    requires Agrees(s, obs, s.pool.lock.todo)
    ensures Leads(maxConns, s0, s') && Inv(maxConns, s') && Deleted(s0, s')
    ensures InPass(s', {}) && s'.pool.members == Remaining(l, obs, order, s.pool.members)
    decreases |order|
  {
    if order == [] {
      s' := s;
    } else {
      var s1 := VisitIsSteps(maxConns, s0, s, l, obs[order[0]], order[0]);
      DeletedStep(l, obs[order[0]], order[0], s0, s, s1);
      VisitLeaves(l, obs, order, s, s1);
      RemainingStep(l, obs, order, s.pool.lock.todo, s.pool.members);
      s' := VisitsAreSteps(maxConns, s0, s1, l, obs, order[1..]);
    }
  }

  lemma BeginPass(s: State) returns (s': State)
    requires s.pool.lock == Free
    ensures PoolStep(s, LockPool(PoolOp.Cleanup), s') && Deleted(s, s') && s'.conns == s.conns
    ensures InPass(s', s.pool.members) && s'.pool.members == s.pool.members
  {
    s' := s.(pool := s.pool.(lock := Held(PoolOp.Cleanup, s.pool.members, Nobody)));
    assert s.pool.members - s'.pool.members == {};
  }

  lemma EndPass(s0: State, s: State) returns (s': State)
    requires s0.pool.lock == Free && InPass(s, {}) && Deleted(s0, s)
    ensures PoolStep(s, Unlock, s') && s'.pool.members == s.pool.members
    ensures s'.pool == AfterDeletes(s0.pool, s0.pool.members - s'.pool.members)
  {
    s' := s.(pool := s.pool.(lock := Free));
  }

  lemma RemainingAll(l: Limits, obs: map<Id, Observation>, order: seq<Id>, members: set<Id>)
    requires IsOrder(order, members) && members <= obs.Keys
    ensures forall id :: id in Remaining(l, obs, order, members) <==> id in Kept(l, obs, order, |members|)
  {
    KeptComesFrom(l, obs, order, |members|);
  }

  /** From every reachable state with the lock free, for every order of the map, the step
      system can run exactly the pass of ConnPool.Cleanup: the same entries remain, and
      gauge and counters change by the same deletions. */
  lemma PassIsSteps(maxConns: int, s: State, l: Limits, obs: map<Id, Observation>, order: seq<Id>)
      returns (s': State)
    requires Reachable(maxConns, s) && s.pool.lock == Free
    requires IsOrder(order, s.pool.members) && Agrees(s, obs, s.pool.members)
    ensures Leads(maxConns, s, s')
    ensures forall id :: id in s'.pool.members <==> id in Kept(l, obs, order, |s.pool.members|)
    ensures s'.pool == AfterDeletes(s.pool, s.pool.members - s'.pool.members)
  {
    ReachableInv(maxConns, s);
    LeadsNowhere(maxConns, s);
    var s1 := BeginPass(s);
    LeadsOn(maxConns, s, s, LockPool(PoolOp.Cleanup), s1);
    var s2 := VisitsAreSteps(maxConns, s, s1, l, obs, order);
    s' := EndPass(s, s2);
    LeadsOn(maxConns, s, s2, Unlock, s');
    RemainingAll(l, obs, order, s.pool.members);
  }

  // ----- Adding -----

  /** ConnPool.Add in the step system: with the lock free, exactly one of its two outcomes
      is possible, by the limit. */
  lemma AddIsStep(maxConns: int, s: State) returns (s': State)
    requires s.accept.Holding? && s.pool.lock == Free
    ensures var full := |s.pool.members| >= maxConns;
            && AcceptStep(maxConns, s, if full then AddFull else AddOk, s')
            && s'.pool == (if full then s.pool else AfterInsert(s.pool, s.accept.id))
            && s'.accept == (if full then Rejecting(s.accept.id) else Added(s.accept.id))
            && (full ==> forall other :: !AcceptStep(maxConns, s, AddOk, other))
            && (!full ==> forall other :: !AcceptStep(maxConns, s, AddFull, other))
  {
    s' := if |s.pool.members| >= maxConns then s.(accept := Rejecting(s.accept.id))
          else s.(accept := Added(s.accept.id), pool := AfterInsert(s.pool, s.accept.id));
  }

  // ----- What a pass removes, whatever else is going on -----

  /** These connections were closed before; each that is still a member is still to be
      visited, or is in a Close call that has lost or will lose the compare-and-swap. */
  ghost predicate Doomed(s: State, ids: set<Id>) {
    && s.pool.lock.Held? && ids <= s.conns.closed
    && forall id :: id in ids && id in s.pool.members && id !in s.pool.lock.todo ==> BeingDropped(s, id)
  }

  ghost predicate BeingDropped(s: State, id: Id)
    requires s.pool.lock.Held?
  {
    && s.pool.lock.visiting.Visiting? && s.pool.lock.visiting.id == id
    && var call := s.pool.lock.visiting.call;
    && call in s.conns.calls && s.conns.calls[call].id == id
    && (s.conns.calls[call].stage == AtCas || s.conns.calls[call].stage == Returned(true))
  }

  lemma DoomedClose(s: State, e: Event, s': State, ids: set<Id>)
    requires Doomed(s, ids) && CloseStep(s.conns, e, s'.conns) && s' == s.(conns := s'.conns)
    ensures Doomed(s', ids)
  {
    CloseAdvances(s.conns, e, s'.conns);
    forall id | id in ids && id in s'.pool.members && id !in s'.pool.lock.todo ensures BeingDropped(s', id) {
      assert BeingDropped(s, id);
    }
  }

  lemma DoomedPool(s: State, e: Event, s': State, ids: set<Id>)
    requires Doomed(s, ids) && PoolStep(s, e, s') && !e.Unlock?
    ensures Doomed(s', ids)
  {
    forall id | id in ids && id in s'.pool.members && id !in s'.pool.lock.todo ensures BeingDropped(s', id) {
      assert id !in s.pool.lock.todo ==> BeingDropped(s, id);
    }
  }

  lemma DoomedAccept(maxConns: int, s: State, e: Event, s': State, ids: set<Id>)
    requires Doomed(s, ids) && AcceptStep(maxConns, s, e, s')
    ensures Doomed(s', ids)
  {
    forall id | id in ids && id in s'.pool.members && id !in s'.pool.lock.todo ensures BeingDropped(s', id) {
      assert BeingDropped(s, id);
    }
  }

  lemma DoomedStep(maxConns: int, s: State, e: Event, s': State, ids: set<Id>)
    requires Doomed(s, ids) && Next(maxConns, s, e, s') && !e.Unlock?
    ensures Doomed(s', ids)
  {
    if AcceptStep(maxConns, s, e, s') {
      DoomedAccept(maxConns, s, e, s', ids);
    } else if PoolStep(s, e, s') {
      DoomedPool(s, e, s', ids);
    } else {
      DoomedClose(s, e, s', ids);
    }
  }

  lemma {:induction false} StaysDoomed(maxConns: int, states: seq<State>, events: seq<Event>, ids: set<Id>,
                                       i: nat, j: nat)
    requires IsStretch(maxConns, states, events) && i <= j < |states| && Doomed(states[i], ids)
    requires forall k :: i <= k < j ==> !events[k].Unlock?
    ensures Doomed(states[j], ids)
    decreases j
  {
    if i == j {
    } else {
      StaysDoomed(maxConns, states, events, ids, i, j - 1);
      assert StepAt(maxConns, states, events, j - 1);
      DoomedStep(maxConns, states[j - 1], events[j - 1], states[j], ids);
    }
  }

  lemma DoomedAreGone(maxConns: int, s: State, s': State, ids: set<Id>)
    requires Doomed(s, ids) && Next(maxConns, s, Unlock, s')
    ensures s'.pool.members !! ids
  {
  }

  /** In any run, when a cleanup pass or a shutdown releases the lock it took at step `i`, no
      connection that was closed at that moment is in the pool any more, whatever the other
      parties did meanwhile. */
  lemma PassRemovesClosed(maxConns: int, states: seq<State>, events: seq<Event>, i: nat, j: nat)
    requires IsRun(maxConns, states, events) && i < j < |events|
    requires events[i].LockPool? && events[j].Unlock? && forall k :: i < k < j ==> !events[k].Unlock?
    ensures states[j + 1].pool.members !! states[i].conns.closed
  {
    assert StepAt(maxConns, states, events, i) && StepAt(maxConns, states, events, j);
    StaysDoomed(maxConns, states, events, states[i].conns.closed, i + 1, j);
    DoomedAreGone(maxConns, states[j], states[j + 1], states[i].conns.closed);
  }
}
