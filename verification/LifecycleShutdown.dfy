/** What can still be open after TCPServer.Stop has closed the pool: it cancels the
    context first, but an accept loop past its select does not look at it again. */
module LifecycleShutdown {
  import opened Bounds
  import opened Lifecycle
  import opened LifecycleStretches
  import opened LifecycleProgress

  // ----- At most one more connection -----

  /** The accept loop can still add a connection without passing its select again. */
  predicate MayAdd(a: AcceptPc) {
    a.Listening? || a.Holding?
  }

  function Chances(a: AcceptPc): nat {
    if MayAdd(a) then 1 else 0
  }

  lemma CancelledStep(maxConns: int, s: State, e: Event, s': State)
    requires Next(maxConns, s, e, s') && s.cancelled
    ensures s'.cancelled && s.pool.added <= s'.pool.added && s.pool.removed <= s'.pool.removed
    ensures s'.pool.added == s.pool.added || (s.accept.Holding? && s'.pool.added == s.pool.added + {s.accept.id})
    ensures Chances(s'.accept) + (if s'.pool.added == s.pool.added then 0 else 1) <= Chances(s.accept)
  {
  }

  /** Once the context is cancelled, at most one more connection is added, and only if the
      accept loop was past its select. */
  lemma {:induction false} AddsAfterCancel(maxConns: int, states: seq<State>, events: seq<Event>, i: nat, j: nat)
    requires IsRun(maxConns, states, events) && i <= j < |states| && states[i].cancelled
    ensures states[j].cancelled && states[i].pool.removed <= states[j].pool.removed
    ensures |states[j].pool.added - states[i].pool.added| + Chances(states[j].accept) <= Chances(states[i].accept)
    decreases j
  {
    if i == j {
    } else {
      AddsAfterCancel(maxConns, states, events, i, j - 1);
      var s, s' := states[j - 1], states[j];
      assert StepAt(maxConns, states, events, j - 1);
      CancelledStep(maxConns, s, events[j - 1], s');
      var before := states[i].pool.added;
      if s'.pool.added != s.pool.added {
        assert s'.pool.added - before <= s.pool.added - before + {s.accept.id};
        SubsetSize(s'.pool.added - before, s.pool.added - before + {s.accept.id});
      }
    }
  }

  /** A member that was there before and is open now was open then. */
  lemma OnlyNewOpen(maxConns: int, before: State, after: State)
    requires Counted(maxConns, before.pool) && Counted(maxConns, after.pool)
    requires before.pool.members <= before.conns.closed <= after.conns.closed
    requires before.pool.removed <= after.pool.removed
    ensures |after.pool.members - after.conns.closed| <= |after.pool.added - before.pool.added|
  {
    SubsetSize(after.pool.members - after.conns.closed, after.pool.added - before.pool.added);
  }

  lemma UnlockedShutdown(maxConns: int, s: State, s': State)
    requires Inv(maxConns, s) && PoolStep(s, Unlock, s') && s.pool.lock.op == Shutdown
    ensures s'.cancelled && s'.accept == s.accept && s'.conns == s.conns && s'.pool.lock == Free
    ensures s'.pool.members <= s'.conns.closed
  {
  }

  // ----- Exactly when one can still be open -----

  /** The accept loop is waiting for a connection, or holds an open one. */
  predicate CanBringOpen(s: State) {
    s.accept.Listening? || (s.accept.Holding? && s.accept.id !in s.conns.closed)
  }

  /** With the context cancelled: no pooled connection is open, and none can come. */
  predicate NoneOpen(s: State) {
    s.cancelled && s.pool.members <= s.conns.closed && !CanBringOpen(s)
  }

  lemma NoneOpenStep(maxConns: int, s: State, e: Event, s': State)
    requires NoneOpen(s) && Next(maxConns, s, e, s')
    ensures NoneOpen(s')
  {
    ClosedStep(maxConns, s, e, s');
  }

  lemma {:induction false} StaysNoneOpen(maxConns: int, states: seq<State>, events: seq<Event>, i: nat, j: nat)
    requires IsStretch(maxConns, states, events) && i <= j < |states| && NoneOpen(states[i])
    ensures NoneOpen(states[j])
    decreases j
  {
    if i == j {
    } else {
      StaysNoneOpen(maxConns, states, events, i, j - 1);
      assert StepAt(maxConns, states, events, j - 1);
      NoneOpenStep(maxConns, states[j - 1], events[j - 1], states[j]);
    }
  }

  lemma NoMembers(maxConns: int, s: State)
    requires Reachable(maxConns, s) && maxConns <= 0
    ensures s.pool.members == {}
  {
    ReachableInv(maxConns, s);
  }

  /** From the return of pool Close on at most one pooled connection is ever open, and none
      unless the accept loop could bring one in at that moment. */
  lemma OpenAfterShutdown(maxConns: int, states: seq<State>, events: seq<Event>, i: nat, j: nat)
    requires IsRun(maxConns, states, events) && i < j < |states| && events[i] == Unlock
    requires states[i].pool.lock.Held? && states[i].pool.lock.op == Shutdown
    ensures |states[j].pool.members - states[j].conns.closed| <=
            if maxConns > 0 && CanBringOpen(states[i]) then 1 else 0
  {
    Always(maxConns, states, events, i);
    assert StepAt(maxConns, states, events, i);
    UnlockedShutdown(maxConns, states[i], states[i + 1]);
    if maxConns <= 0 {
      Always(maxConns, states, events, j);
    } else if CanBringOpen(states[i]) {
      AtMostOneOpen(maxConns, states, events, i + 1, j);
    } else {
      StaysNoneOpen(maxConns, states, events, i + 1, j);
    }
  }

  lemma AtMostOneOpen(maxConns: int, states: seq<State>, events: seq<Event>, i: nat, j: nat)
    requires IsRun(maxConns, states, events) && i <= j < |states|
    requires states[i].cancelled && states[i].pool.members <= states[i].conns.closed
    ensures |states[j].pool.members - states[j].conns.closed| <= 1
  {
    AddsAfterCancel(maxConns, states, events, i, j);
    ClosedForGood(maxConns, states, events, i, j);
    Always(maxConns, states, events, i);
    Always(maxConns, states, events, j);
    OnlyNewOpen(maxConns, states[i], states[j]);
  }

  predicate HasOpenMember(s: State) {
    !(s.pool.members <= s.conns.closed)
  }

  ghost predicate OpenCanFollow(maxConns: int, s: State) {
    exists s' :: Leads(maxConns, s, s') && HasOpenMember(s')
  }

  // ----- Bringing one in -----

  lemma {:induction false} FreshId(ids: set<Id>) returns (id: Id)
    ensures id !in ids && forall other :: other in ids ==> |other| < |id|
    decreases ids
  {
    if ids == {} {
      id := "";
    } else {
      var one :| one in ids;
      var longer := FreshId(ids - {one});
      id := longer + one + ['.'];
      assert forall other :: other in ids ==> other == one || other in ids - {one};
    }
  }

  lemma AcceptOpen(maxConns: int, s: State) returns (s': State)
    requires Inv(maxConns, s) && s.accept.Listening?
    ensures s'.accept.Holding? && s'.accept.id !in s'.conns.closed
    ensures Next(maxConns, s, Accept(s'.accept.id), s') && s'.pool == s.pool
  {
    var id := FreshId(s.conns.created);
    s' := s.(accept := Holding(id), conns := s.conns.(created := s.conns.created + {id}));
  }

  lemma AddOpen(maxConns: int, s: State) returns (s': State)
    requires s.accept.Holding? && s.accept.id !in s.conns.closed && s.pool.lock == Free && |s.pool.members| < maxConns
    ensures Next(maxConns, s, AddOk, s') && HasOpenMember(s')
  {
    s' := s.(accept := Added(s.accept.id), pool := AfterInsert(s.pool, s.accept.id));
    assert s.accept.id in s'.pool.members;
  }

  lemma BringIn(maxConns: int, s0: State, s: State)
    requires Leads(maxConns, s0, s) && Inv(maxConns, s) && CanBringOpen(s)
    requires s.pool.lock == Free && |s.pool.members| < maxConns
    ensures OpenCanFollow(maxConns, s0)
  {
    var s1 := s;
    if s.accept.Listening? {
      s1 := AcceptOpen(maxConns, s);
      OneMore(maxConns, s0, s, Accept(s1.accept.id), s1);
    }
    var s2 := AddOpen(maxConns, s1);
    OneMore(maxConns, s0, s1, AddOk, s2);
  }

  // ----- Making room in a full pool -----

  /** What making room leaves alone. */
  ghost predicate Undisturbed(s: State, s': State) {
    s'.accept == s.accept && s'.conns.closed == s.conns.closed && s'.pool.members <= s.pool.members
  }

  lemma WakeMonitor(maxConns: int, s0: State, s: State, id: Id) returns (s': State)
    requires Leads(maxConns, s0, s) && Sound(maxConns, s) && s.pool.lock == Free
    requires id in s.pool.members && id in s.conns.chanCloses && s.accept != Added(id)
    ensures Leads(maxConns, s0, s') && Inv(maxConns, s') && Undisturbed(s, s') && s'.pool == s.pool
    ensures id in s'.monitors && s'.monitors[id] == Signalled
  {
    MonitorOfMember(maxConns, s, id);
    if s.monitors[id] == Waiting {
      s' := WakeUp(s, id);
      LeadsOn(maxConns, s0, s, Wake(id), s');
    } else {
      s' := s;
    }
  }

  lemma VisitRemoves(s: State, s1: State, s': State, id: Id, call: nat)
    requires s.pool.lock == Held(Remove(id), {id}, Nobody) && id in s.conns.closed && call !in s.conns.calls
    requires s1.conns == Begun(s.conns, call, id) && s1.accept == s.accept
    requires s1.pool == s.pool.(lock := Held(Remove(id), {id} - {id}, Visiting(id, call)))
    requires Finishes(s1.conns, s'.conns, call, true) && Holds(s1, s')
    requires s'.pool == (if Outcome(s1.conns, call, true) == Returned(true) then AfterDelete(s1.pool, id)
                         else s1.pool).(lock := s1.pool.lock.(visiting := Nobody))
    ensures Undisturbed(s, s') && s'.pool.lock == Held(Remove(id), {}, Nobody)
    ensures s'.pool.members == s.pool.members - {id}
  {
    assert s'.conns.closed == s.conns.closed;
  }

  /** What the holder of the lock does to the one entry it visits. */
  lemma RunVisit(maxConns: int, s0: State, s: State, id: Id) returns (s': State)
    requires Leads(maxConns, s0, s) && Inv(maxConns, s) && s.pool.lock == Held(Remove(id), {id}, Nobody)
    requires id in s.conns.closed
    ensures Leads(maxConns, s0, s') && Inv(maxConns, s') && Undisturbed(s, s')
    ensures s'.pool.lock == Held(Remove(id), {}, Nobody) && s'.pool.members == s.pool.members - {id}
  {
    var call, s1 := NextVisit(s, id);
    LeadsOn(maxConns, s0, s, StartVisit(id, call), s1);
    s' := EndVisitUnderWay(maxConns, s0, s1, true);
    VisitRemoves(s, s1, s', id, call);
  }

  /** A monitor that has seen the closed channel takes the lock and removes its connection. */
  lemma RunRemove(maxConns: int, s0: State, s: State, id: Id) returns (s': State)
    requires Leads(maxConns, s0, s) && Inv(maxConns, s) && s.pool.lock == Free
    requires id in s.pool.members && id in s.conns.closed && id in s.monitors && s.monitors[id] == Signalled
    ensures Leads(maxConns, s0, s') && Inv(maxConns, s') && Undisturbed(s, s')
    ensures s'.pool.lock == Free && s'.pool.members == s.pool.members - {id}
  {
    var s1 := TakeLock(s, id);
    assert s.pool.members * {id} == {id};
    LeadsOn(maxConns, s0, s, LockToRemove(id), s1);
    var s2 := RunVisit(maxConns, s0, s1, id);
    s' := Release(s2);
    LeadsOn(maxConns, s0, s2, Unlock, s');
  }

  lemma MakeRoom(maxConns: int, s0: State, s: State, id: Id) returns (s': State)
    requires Leads(maxConns, s0, s) && Sound(maxConns, s) && s.pool.lock == Free
    requires id in s.pool.members && id in s.conns.closed && s.accept != Added(id)
    ensures Leads(maxConns, s0, s') && Inv(maxConns, s') && Undisturbed(s, s')
    ensures s'.pool.lock == Free && s'.pool.members == s.pool.members - {id}
  {
    var s1 := s;
    if id !in s.conns.chanCloses {
      var e;
      assert HasWinner(s.conns.calls, id);
      e, s1 := WinnerMoves(s, id);
      SoundStep(maxConns, s, e, s1);
      OneMore(maxConns, s0, s, e, s1);
    }
    var s2 := WakeMonitor(maxConns, s0, s1, id);
    s' := RunRemove(maxConns, s0, s2, id);
  }

  /** Once pool Close has returned, an open pooled connection can still follow if and only
      if the pool may hold any and the accept loop is waiting for one or holds an open one. */
  lemma OpenAfterShutdownExactly(maxConns: int, s: State, s': State)
    requires Reachable(maxConns, s) && PoolStep(s, Unlock, s') && s.pool.lock.op == Shutdown
    ensures OpenCanFollow(maxConns, s') <==> maxConns > 0 && CanBringOpen(s)
  {
    ReachableSound(maxConns, s);
    UnlockedShutdown(maxConns, s, s');
    ReachableStep(maxConns, s, Unlock, s');
    if maxConns > 0 && CanBringOpen(s) {
      OpenFollows(maxConns, s');
    } else if OpenCanFollow(maxConns, s') {
      NothingFollows(maxConns, s');
    }
  }

  lemma OpenFollows(maxConns: int, s: State)
    requires Reachable(maxConns, s) && s.pool.lock == Free && s.pool.members <= s.conns.closed
    requires maxConns > 0 && CanBringOpen(s)
    ensures OpenCanFollow(maxConns, s)
  {
    ReachableSound(maxConns, s);
    LeadsNowhere(maxConns, s);
    if |s.pool.members| < maxConns {
      BringIn(maxConns, s, s);
    } else {
      var id :| id in s.pool.members;
      var s1 := MakeRoom(maxConns, s, s, id);
      BringIn(maxConns, s, s1);
    }
  }

  lemma NothingFollows(maxConns: int, s: State)
    requires Reachable(maxConns, s) && (maxConns <= 0 || NoneOpen(s))
    ensures !OpenCanFollow(maxConns, s)
  {
    forall s' | Leads(maxConns, s, s') ensures !HasOpenMember(s') {
      var states, events :| Connects(maxConns, states, events, s, s');
      if maxConns <= 0 {
        StaysReachable(maxConns, states, events, |events|);
        NoMembers(maxConns, s');
      } else {
        StaysNoneOpen(maxConns, states, events, 0, |events|);
      }
    }
  }

  lemma ExtendRun(maxConns: int, states: seq<State>, events: seq<Event>, e: Event, s': State)
    requires IsRun(maxConns, states, events) && Next(maxConns, states[|events|], e, s')
    ensures IsRun(maxConns, states + [s'], events + [e])
  {
    forall k: nat | k <= |events| ensures StepAt(maxConns, states + [s'], events + [e], k) {
      assert k < |events| ==> StepAt(maxConns, states, events, k);
    }
  }

  lemma ShutdownRun(maxConns: int) returns (states: seq<State>, events: seq<Event>)
    ensures IsRun(maxConns, states, events) && events == [Listen, Cancel, LockPool(Shutdown), Unlock]
    ensures states[4] == INITIAL.(accept := Listening, cancelled := true)
  {
    var s1 := INITIAL.(accept := Listening);
    var s2 := s1.(cancelled := true);
    var s3 := s2.(pool := s2.pool.(lock := Held(Shutdown, {}, Nobody)));
    ExtendRun(maxConns, [INITIAL], [], Listen, s1);
    ExtendRun(maxConns, [INITIAL, s1], [Listen], Cancel, s2);
    ExtendRun(maxConns, [INITIAL, s1, s2], [Listen, Cancel], LockPool(Shutdown), s3);
    states, events := [INITIAL, s1, s2, s3], [Listen, Cancel, LockPool(Shutdown)];
    ExtendRun(maxConns, states, events, Unlock, s2);
    states, events := states + [s2], events + [Unlock];
  }

  /** And it does happen, from the start: Stop runs between the select and the Accept. */
  lemma OpenAfterShutdownIsReachable(maxConns: int, id: Id) returns (states: seq<State>, events: seq<Event>)
    requires maxConns > 0
    ensures IsRun(maxConns, states, events)
    ensures events == [Listen, Cancel, LockPool(Shutdown), Unlock, Accept(id), AddOk]
    ensures states[6].pool.members == {id} && states[6].conns.closed == {}
  {
    states, events := ShutdownRun(maxConns);
    var s := states[4];
    var s1 := s.(accept := Holding(id), conns := s.conns.(created := {id}));
    var s2 := s1.(accept := Added(id), pool := AfterInsert(s1.pool, id));
    ExtendRun(maxConns, states, events, Accept(id), s1);
    states, events := states + [s1], events + [Accept(id)];
    ExtendRun(maxConns, states, events, AddOk, s2);
    states, events := states + [s2], events + [AddOk];
  }
}
