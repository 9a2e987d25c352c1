/** How connections come, close and go: the accept loop and monitors of
    network/tcp_net.go, the pool of network/conn_pool.go and any number of Close calls
    of network/conn.go, interleaved at will.  Connection ids are fresh. */
module Lifecycle {
  import opened Bounds
  import Cleanups

  type Id = Cleanups.Id

  /** How far a Close call has come: before the compare-and-swap, then past each of its
      three actions.  A call that loses the compare-and-swap returns nil at once. */
  datatype Stage = AtCas | Won | ChanClosed | HeartbeatStopped | Returned(ok: bool)

  datatype Call = Call(id: Id, stage: Stage)

  /** The connections: the closed flag, and how often each channel has been closed. */
  datatype Conns = Conns(
    created: set<Id>, closed: set<Id>,
    chanCloses: multiset<Id>, heartbeatStops: multiset<Id>,
    calls: map<nat, Call>)

  datatype PoolOp = Remove(id: Id) | Cleanup | Shutdown

  /** Who holds the pool's lock: the entries still to visit and the Close call under way. */
  datatype Lock = Free | Held(op: PoolOp, todo: set<Id>, visiting: Visit)

  datatype Visit = Nobody | Visiting(id: Id, call: nat)

  /** The pool with its gauge and counters; `added` and `removed` remember history. */
  datatype Pool = Pool(
    members: set<Id>, lock: Lock,
    totalConns: int, connCreated: int, connClosed: int,
    added: set<Id>, removed: set<Id>)

  /** `Listening` is past the select, inside the listener's Accept. */
  datatype AcceptPc =
    | Idle
    | Listening
    | Holding(id: Id)
    | Rejecting(id: Id)
    | RejectClosing(id: Id, call: nat)
    | Added(id: Id)
    | Exited

  /** `Signalled` has seen the closed channel; `Removing` is inside Remove; `Done` past it. */
  datatype MonitorPc = Waiting | Signalled | Removing | Done

  /** `cancelled` is the server's context, which Stop cancels before it closes the pool. */
  datatype State = State(
    conns: Conns, pool: Pool, accept: AcceptPc, monitors: map<Id, MonitorPc>, cancelled: bool)

  datatype Event =
    | BeginClose(call: nat, id: Id)
    | Cas(call: nat)
    | CloseChannel(call: nat)
    | StopHeartbeat(call: nat)
    | CloseSocket(call: nat, ok: bool)
    | Listen
    | AcceptFailed
    | Accept(id: Id)
    | AddOk
    | AddFull
    | RejectClose(call: nat)
    | RejectDone
    | SpawnMonitor
    | StopAccepting
    | Cancel
    | Wake(id: Id)
    | LockToRemove(id: Id)
    | LockPool(op: PoolOp)
    | StartVisit(id: Id, call: nat)
    | Skip(id: Id)
    | EndVisit
    | Unlock

  const INITIAL := State(Conns({}, {}, multiset{}, multiset{}, map[]),
                         Pool({}, Free, 0, 0, 0, {}, {}), Idle, map[], false)

  ghost function Begun(c: Conns, call: nat, id: Id): Conns {
    c.(calls := c.calls[call := Call(id, AtCas)])
  }

  /** What Add stores and counts, and what deleting an entry undoes. */
  ghost function AfterInsert(p: Pool, id: Id): Pool {
    p.(members := p.members + {id}, added := p.added + {id},
       totalConns := p.totalConns + 1, connCreated := p.connCreated + 1)
  }

  ghost function AfterDelete(p: Pool, id: Id): Pool {
    p.(members := p.members - {id}, removed := p.removed + {id},
       totalConns := p.totalConns - 1, connClosed := p.connClosed + 1)
  }

  ghost function AfterDeletes(p: Pool, ids: set<Id>): Pool {
    p.(members := p.members - ids, removed := p.removed + ids,
       totalConns := p.totalConns - |ids|, connClosed := p.connClosed + |ids|)
  }

  /** Deleting one more of the entries that were there before. */
  lemma DeleteOneMore(p: Pool, before: set<Id>, members: set<Id>, id: Id)
    requires members <= before && id in members
    ensures AfterDelete(AfterDeletes(p, before - members), id) == AfterDeletes(p, before - (members - {id}))
  {
    var ids := before - members;
    assert before - (members - {id}) == ids + {id};
    assert p.members - ids - {id} == p.members - (ids + {id});
    assert p.removed + ids + {id} == p.removed + (ids + {id});
  }

  /** The steps of one Close call. */
  ghost predicate CloseStep(c: Conns, e: Event, c': Conns) {
    match e
    case BeginClose(call, id) => call !in c.calls && id in c.created && c' == Begun(c, call, id)
    case Cas(call) =>
      && call in c.calls && c.calls[call].stage == AtCas
      && var id := c.calls[call].id;
      && c' == if id in c.closed then c.(calls := c.calls[call := Call(id, Returned(true))])
               else c.(closed := c.closed + {id}, calls := c.calls[call := Call(id, Won)])
    case CloseChannel(call) =>
      && call in c.calls && c.calls[call].stage == Won
      && var id := c.calls[call].id;
      && c' == c.(chanCloses := c.chanCloses + multiset{id}, calls := c.calls[call := Call(id, ChanClosed)])
    case StopHeartbeat(call) =>
      && call in c.calls && c.calls[call].stage == ChanClosed
      && var id := c.calls[call].id;
      && c' == c.(heartbeatStops := c.heartbeatStops + multiset{id},
                  calls := c.calls[call := Call(id, HeartbeatStopped)])
    case CloseSocket(call, ok) =>
      && call in c.calls && c.calls[call].stage == HeartbeatStopped
      && c' == c.(calls := c.calls[call := Call(c.calls[call].id, Returned(ok))])
    case _ => false
  }

  ghost predicate AcceptStep(maxConns: int, s: State, e: Event, s': State) {
    match e
    case Listen => s.accept == Idle && !s.cancelled && s' == s.(accept := Listening)
    case AcceptFailed => s.accept == Listening && s' == s.(accept := Idle)
    case Accept(id) =>
      && s.accept == Listening && id !in s.conns.created
      && s' == s.(accept := Holding(id), conns := s.conns.(created := s.conns.created + {id}))
    case AddOk =>
      && s.accept.Holding? && s.pool.lock == Free && |s.pool.members| < maxConns
      && s' == s.(accept := Added(s.accept.id), pool := AfterInsert(s.pool, s.accept.id))
    case AddFull =>
      && s.accept.Holding? && s.pool.lock == Free && |s.pool.members| >= maxConns
      && s' == s.(accept := Rejecting(s.accept.id))
    case RejectClose(call) =>
      && s.accept.Rejecting? && call !in s.conns.calls
      && s' == s.(accept := RejectClosing(s.accept.id, call), conns := Begun(s.conns, call, s.accept.id))
    case RejectDone =>
      && s.accept.RejectClosing? && s.accept.call in s.conns.calls && s.conns.calls[s.accept.call].stage.Returned?
      && s' == s.(accept := Idle)
    case SpawnMonitor => s.accept.Added? && s' == s.(accept := Idle, monitors := s.monitors[s.accept.id := Waiting])
    case StopAccepting =>
      s.cancelled && (s.accept == Idle || s.accept == Listening) && s' == s.(accept := Exited)
    case Cancel => s' == s.(cancelled := true)
    case _ => false
  }

  /** Remove, cleanup and pool Close share one shape: under the lock, close each entry
      concerned and delete it if its Close returned nil.  Cleanup may pass over an open
      entry, never over a closed one. */
  ghost predicate PoolStep(s: State, e: Event, s': State) {
    match e
    case Wake(id) =>
      && id in s.monitors && s.monitors[id] == Waiting && id in s.conns.chanCloses
      && s' == s.(monitors := s.monitors[id := Signalled])
    case LockToRemove(id) =>
      && s.pool.lock == Free && id in s.monitors && s.monitors[id] == Signalled
      && s' == s.(monitors := s.monitors[id := Removing],
                  pool := s.pool.(lock := Held(Remove(id), s.pool.members * {id}, Nobody)))
    case LockPool(op) =>
      && s.pool.lock == Free && !op.Remove? && (op == Shutdown ==> s.cancelled)
      && s' == s.(pool := s.pool.(lock := Held(op, s.pool.members, Nobody)))
    case StartVisit(id, call) =>
      && s.pool.lock.Held? && s.pool.lock.visiting == Nobody && id in s.pool.lock.todo && call !in s.conns.calls
      && s' == s.(pool := s.pool.(lock := Held(s.pool.lock.op, s.pool.lock.todo - {id}, Visiting(id, call))),
                  conns := Begun(s.conns, call, id))
    case Skip(id) =>
      && s.pool.lock.Held? && s.pool.lock.visiting == Nobody && id in s.pool.lock.todo
      && s.pool.lock.op == Cleanup && id !in s.conns.closed
      && s' == s.(pool := s.pool.(lock := s.pool.lock.(todo := s.pool.lock.todo - {id})))
    case EndVisit =>
      && s.pool.lock.Held? && s.pool.lock.visiting.Visiting?
      && s.pool.lock.visiting.call in s.conns.calls && s.conns.calls[s.pool.lock.visiting.call].stage.Returned?
      && var id := s.pool.lock.visiting.id;
      && var unlocked := s.pool.(lock := s.pool.lock.(visiting := Nobody));
      && s' == s.(pool := if s.conns.calls[s.pool.lock.visiting.call].stage.ok then AfterDelete(unlocked, id)
                          else unlocked)
    case Unlock =>
      && s.pool.lock.Held? && s.pool.lock.visiting == Nobody && s.pool.lock.todo == {}
      && s' == s.(pool := s.pool.(lock := Free),
                  monitors := if s.pool.lock.op.Remove? then s.monitors[s.pool.lock.op.id := Done] else s.monitors)
    case _ => false
  }

  ghost predicate Next(maxConns: int, s: State, e: Event, s': State) {
    || (CloseStep(s.conns, e, s'.conns) && s' == s.(conns := s'.conns))
    || AcceptStep(maxConns, s, e, s')
    || PoolStep(s, e, s')
  }

  ghost predicate StepAt(maxConns: int, states: seq<State>, events: seq<Event>, k: nat)
    requires k < |events| && k + 1 < |states|
  {
    Next(maxConns, states[k], events[k], states[k + 1])
  }

  /** A stretch of steps from any state. */
  ghost predicate IsStretch(maxConns: int, states: seq<State>, events: seq<Event>) {
    && |states| == |events| + 1
    && forall k: nat :: k < |events| ==> StepAt(maxConns, states, events, k)
  }

  ghost predicate IsRun(maxConns: int, states: seq<State>, events: seq<Event>) {
    IsStretch(maxConns, states, events) && states[0] == INITIAL
  }

  ghost predicate Reachable(maxConns: int, s: State) {
    exists states, events :: IsRun(maxConns, states, events) && states[|events|] == s
  }

  // ----- Each connection is closed once -----

  /** A call that won the compare-and-swap and has not returned. */
  predicate IsWinner(c: Call) {
    c.stage == Won || c.stage == ChanClosed || c.stage == HeartbeatStopped
  }

  ghost predicate CallFits(c: Conns, call: nat)
    requires call in c.calls
  {
    var id, stage := c.calls[call].id, c.calls[call].stage;
    && id in c.created
    && (stage != AtCas ==> id in c.closed)
    && (stage == Won ==> c.chanCloses[id] == 0)
    && (stage == Won || stage == ChanClosed ==> c.heartbeatStops[id] == 0)
  }

  ghost predicate ClosedOnce(c: Conns) {
    && c.closed <= c.created
    && (forall call :: call in c.calls ==> CallFits(c, call))
    && (forall a, b | a in c.calls && b in c.calls && IsWinner(c.calls[a]) && IsWinner(c.calls[b]) ::
          c.calls[a].id == c.calls[b].id ==> a == b)
    && (forall id :: c.chanCloses[id] <= 1 && c.heartbeatStops[id] <= 1)
    && (forall id :: id !in c.closed ==> c.chanCloses[id] == 0 && c.heartbeatStops[id] == 0)
  }

  lemma BeginKeepsClosedOnce(c: Conns, call: nat, id: Id)
    requires ClosedOnce(c) && call !in c.calls && id in c.created
    ensures ClosedOnce(Begun(c, call, id))
  {
    var c' := Begun(c, call, id);
    forall k | k in c'.calls ensures CallFits(c', k) {
      assert k in c.calls ==> CallFits(c, k);
    }
  }

  lemma CloseKeepsClosedOnce(c: Conns, e: Event, c': Conns)
    requires ClosedOnce(c) && CloseStep(c, e, c')
    ensures ClosedOnce(c')
  {
    if e.BeginClose? {
      BeginKeepsClosedOnce(c, e.call, e.id);
    } else {
      assert CallFits(c, e.call);
      forall k | k in c'.calls ensures CallFits(c', k) {
        assert CallFits(c, k);
      }
    }
  }

  ghost predicate HasWinner(calls: map<nat, Call>, id: Id) {
    exists call :: call in calls && calls[call] == Call(id, Won)
  }

  /** Wherever the flag is set, the channel is closed or the call that will close it is
      about to. */
  ghost predicate Announced(c: Conns) {
    forall id :: id in c.closed && id !in c.chanCloses ==> HasWinner(c.calls, id)
  }

  lemma AnnouncedStep(c: Conns, e: Event, c': Conns)
    requires Announced(c) && CloseStep(c, e, c')
    ensures Announced(c')
  {
    forall id | id in c'.closed && id !in c'.chanCloses ensures HasWinner(c'.calls, id) {
      if id in c.closed {
        assert HasWinner(c.calls, id);
        var call :| call in c.calls && c.calls[call] == Call(id, Won);
        assert call in c'.calls && c'.calls[call] == Call(id, Won);
      } else {
        assert c'.calls[e.call] == Call(id, Won);
      }
    }
  }

  lemma BegunIsAnnounced(c: Conns, call: nat, id: Id)
    requires Announced(c) && call !in c.calls
    ensures Announced(Begun(c, call, id))
  {
    forall x | x in c.closed && x !in c.chanCloses ensures HasWinner(Begun(c, call, id).calls, x) {
      assert HasWinner(c.calls, x);
      var winner :| winner in c.calls && c.calls[winner] == Call(x, Won);
      assert Begun(c, call, id).calls[winner] == Call(x, Won);
    }
  }

  /** What a step of a Close call leaves in place: nothing is reopened and no call changes
      its connection; a call on a connection already closed returns nil. */
  ghost predicate Advances(c: Conns, c': Conns) {
    && c'.created == c.created && c.closed <= c'.closed && c.chanCloses <= c'.chanCloses
    && forall k :: k in c.calls ==>
         && k in c'.calls && c'.calls[k].id == c.calls[k].id
         && (c.calls[k].stage.Returned? ==> c'.calls[k] == c.calls[k])
         && (c.calls[k].stage == AtCas && c.calls[k].id in c.closed ==>
               c'.calls[k].stage == AtCas || c'.calls[k].stage == Returned(true))
  }

  lemma CloseAdvances(c: Conns, e: Event, c': Conns)
    requires CloseStep(c, e, c')
    ensures Advances(c, c')
  {
  }

  // ----- The pool, its counters and its monitors -----

  /** The connection in the accept loop's hand, not in the pool. */
  function Hand(a: AcceptPc): set<Id> {
    match a
    case Holding(id) => {id}
    case Rejecting(id) => {id}
    case RejectClosing(id, _) => {id}
    case _ => {}
  }

  /** Membership and history agree with the gauge and the counters. */
  ghost predicate Counted(maxConns: int, p: Pool) {
    && p.added == p.members + p.removed && p.members !! p.removed
    && p.connCreated == |p.added| && p.connClosed == |p.removed|
    && p.totalConns == |p.members| == p.connCreated - p.connClosed
    && (|p.members| <= maxConns || p.members == {})
  }

  ghost predicate Linked(s: State) {
    && s.pool.added <= s.conns.created && s.pool.removed <= s.conns.closed
    && s.conns.created - s.conns.closed <= s.pool.members + Hand(s.accept)
    && Hand(s.accept) <= s.conns.created && Hand(s.accept) !! s.pool.added
    && (s.accept.RejectClosing? ==> s.accept.call in s.conns.calls && s.conns.calls[s.accept.call].id == s.accept.id)
  }

  function Visited(v: Visit): set<Id> {
    if v.Visiting? then {v.id} else {}
  }

  /** While the lock is held, what remains to be visited and what is being closed are members;
      what a shutdown has already visited and kept is closed. */
  ghost predicate LockSound(s: State) {
    s.pool.lock.Held? ==>
      && s.pool.lock.todo <= s.pool.members
      && (s.pool.lock.op == Shutdown ==> s.cancelled)
      && (s.pool.lock.op == Shutdown ==>
            s.pool.members - s.pool.lock.todo - Visited(s.pool.lock.visiting) <= s.conns.closed)
      && (s.pool.lock.visiting.Visiting? ==>
            var v := s.pool.lock.visiting;
            && v.id in s.pool.members && v.id !in s.pool.lock.todo
            && v.call in s.conns.calls && s.conns.calls[v.call].id == v.id)
  }

  /** Every connection ever added has one monitor, except the one about to get it. */
  ghost predicate Monitored(s: State) {
    && s.monitors.Keys <= s.pool.added
    && s.pool.added <= s.monitors.Keys + (if s.accept.Added? then {s.accept.id} else {})
    && (s.accept.Added? ==> s.accept.id in s.pool.added && s.accept.id !in s.monitors)
  }

  ghost predicate MonitorSound(s: State, id: Id)
    requires id in s.monitors
  {
    && (s.monitors[id] != Waiting ==> id in s.conns.chanCloses)
    && (s.monitors[id] == Removing <==> s.pool.lock.Held? && s.pool.lock.op == Remove(id))
    && (s.monitors[id] == Done ==> id !in s.pool.members)
  }

  /** Remove is called by a monitor and visits at most its own connection, whose Close
      loses the compare-and-swap. */
  ghost predicate RemoveSound(s: State) {
    s.pool.lock.Held? && s.pool.lock.op.Remove? ==>
      var id := s.pool.lock.op.id;
      && id in s.monitors && id in s.conns.closed
      && s.pool.lock.todo <= {id}
      && (id in s.pool.members ==> id in s.pool.lock.todo || s.pool.lock.visiting.Visiting?)
      && (s.pool.lock.visiting.Visiting? ==>
            var v := s.pool.lock.visiting;
            && v.id == id && v.call in s.conns.calls
            && (s.conns.calls[v.call].stage == AtCas || s.conns.calls[v.call].stage == Returned(true)))
  }

  ghost predicate PoolInv(maxConns: int, s: State) {
    && Counted(maxConns, s.pool) && Linked(s) && LockSound(s)
    && Monitored(s) && (forall id :: id in s.monitors ==> MonitorSound(s, id)) && RemoveSound(s)
  }

  ghost predicate Inv(maxConns: int, s: State) {
    ClosedOnce(s.conns) && PoolInv(maxConns, s)
  }

  lemma InvInitial(maxConns: int)
    ensures Inv(maxConns, INITIAL)
  {
  }

  /** Close calls run anywhere, even under the pool's lock, without disturbing the rest. */
  lemma PoolInvAdvances(maxConns: int, s: State, c: Conns)
    requires PoolInv(maxConns, s) && Advances(s.conns, c)
    ensures PoolInv(maxConns, s.(conns := c))
  {
    var s' := s.(conns := c);
    forall id | id in s'.monitors ensures MonitorSound(s', id) {
      assert MonitorSound(s, id);
    }
  }

  lemma InvClose(maxConns: int, s: State, e: Event, s': State)
    requires Inv(maxConns, s) && CloseStep(s.conns, e, s'.conns) && s' == s.(conns := s'.conns)
    ensures Inv(maxConns, s')
  {
    CloseAdvances(s.conns, e, s'.conns);
    CloseKeepsClosedOnce(s.conns, e, s'.conns);
    PoolInvAdvances(maxConns, s, s'.conns);
  }

  lemma InvAccepted(maxConns: int, s: State, s': State, id: Id)
    requires Inv(maxConns, s) && AcceptStep(maxConns, s, Accept(id), s')
    ensures Inv(maxConns, s')
  {
    assert forall k :: k in s.conns.calls ==> CallFits(s.conns, k);
    forall id | id in s'.monitors ensures MonitorSound(s', id) {
      assert id in s.monitors ==> MonitorSound(s, id);
    }
  }

  lemma InvAddOk(maxConns: int, s: State, s': State)
    requires Inv(maxConns, s) && AcceptStep(maxConns, s, AddOk, s')
    ensures Inv(maxConns, s')
  {
    var id := s.accept.id;
    CountedAdd(maxConns, s.pool, id);
    assert Hand(s.accept) == {id} && Hand(s'.accept) == {};
    forall m | m in s'.monitors ensures MonitorSound(s', m) {
      assert MonitorSound(s, m);
    }
  }

  // The next lemmas share their few lines; one for all of them would be too costly to verify.

  /** The steps of the accept loop that touch no connection, pool or monitor. */
  lemma InvIdle(maxConns: int, s: State, e: Event, s': State)
    requires Inv(maxConns, s) && AcceptStep(maxConns, s, e, s')
    requires s' == s.(accept := s'.accept, cancelled := s'.cancelled) && !e.RejectDone?
    ensures Inv(maxConns, s')
  {
    forall id | id in s'.monitors ensures MonitorSound(s', id) {
      assert id in s.monitors ==> MonitorSound(s, id);
    }
  }

  lemma InvSpawn(maxConns: int, s: State, s': State)
    requires Inv(maxConns, s) && AcceptStep(maxConns, s, SpawnMonitor, s')
    ensures Inv(maxConns, s')
  {
    forall id | id in s'.monitors ensures MonitorSound(s', id) {
      assert id in s.monitors ==> MonitorSound(s, id);
    }
  }

  lemma InvRejectClose(maxConns: int, s: State, s': State, call: nat)
    requires Inv(maxConns, s) && AcceptStep(maxConns, s, RejectClose(call), s')
    ensures Inv(maxConns, s')
  {
    BeginKeepsClosedOnce(s.conns, call, s.accept.id);
    assert Advances(s.conns, s'.conns);
    PoolInvAdvances(maxConns, s, s'.conns);
    forall m | m in s'.monitors ensures MonitorSound(s', m) {
      assert MonitorSound(s, m);
    }
  }

  lemma InvRejectDone(maxConns: int, s: State, s': State)
    requires Inv(maxConns, s) && AcceptStep(maxConns, s, RejectDone, s')
    ensures Inv(maxConns, s')
  {
    assert CallFits(s.conns, s.accept.call);
    forall id | id in s'.monitors ensures MonitorSound(s', id) {
      assert id in s.monitors ==> MonitorSound(s, id);
    }
  }

  lemma InvAccept(maxConns: int, s: State, e: Event, s': State)
    requires Inv(maxConns, s) && AcceptStep(maxConns, s, e, s')
    ensures Inv(maxConns, s')
  {
    match e {
      case Accept(id) => InvAccepted(maxConns, s, s', id);
      case AddOk => InvAddOk(maxConns, s, s');
      case RejectClose(call) => InvRejectClose(maxConns, s, s', call);
      case RejectDone => InvRejectDone(maxConns, s, s');
      case SpawnMonitor => InvSpawn(maxConns, s, s');
      case _ => InvIdle(maxConns, s, e, s');
    }
  }

  /** Someone takes the pool's lock. */
  lemma InvLock(maxConns: int, s: State, e: Event, s': State)
    requires Inv(maxConns, s) && PoolStep(s, e, s') && (e.LockToRemove? || e.LockPool?)
    ensures Inv(maxConns, s')
  {
    forall id | id in s'.monitors ensures MonitorSound(s', id) {
      assert id in s.monitors ==> MonitorSound(s, id);
    }
  }

  /** A monitor wakes, or a cleanup passes over an entry. */
  lemma InvMoveOn(maxConns: int, s: State, e: Event, s': State)
    requires Inv(maxConns, s) && PoolStep(s, e, s') && (e.Wake? || e.Skip?)
    ensures Inv(maxConns, s')
  {
    forall id | id in s'.monitors ensures MonitorSound(s', id) {
      assert id in s.monitors ==> MonitorSound(s, id);
    }
  }

  lemma InvUnlock(maxConns: int, s: State, s': State)
    requires Inv(maxConns, s) && PoolStep(s, Unlock, s')
    ensures Inv(maxConns, s')
  {
    forall id | id in s'.monitors ensures MonitorSound(s', id) {
      assert id in s.monitors ==> MonitorSound(s, id);
    }
  }

  lemma InvStartVisit(maxConns: int, s: State, s': State, v: Id, call: nat)
    requires Inv(maxConns, s) && PoolStep(s, StartVisit(v, call), s')
    ensures Inv(maxConns, s')
  {
    BeginKeepsClosedOnce(s.conns, call, v);
    forall id | id in s'.monitors ensures MonitorSound(s', id) {
      assert id in s.monitors ==> MonitorSound(s, id);
    }
  }

  lemma CountedAdd(maxConns: int, p: Pool, id: Id)
    requires Counted(maxConns, p) && id !in p.added && |p.members| < maxConns
    ensures Counted(maxConns, AfterInsert(p, id))
  {
  }

  lemma CountedRemove(maxConns: int, p: Pool, id: Id)
    requires Counted(maxConns, p) && id in p.members
    ensures Counted(maxConns, AfterDelete(p, id))
  {
    assert p.removed + {id} + (p.members - {id}) == p.added;
  }

  lemma InvEndVisitFailed(maxConns: int, s: State, s': State)
    requires Inv(maxConns, s) && PoolStep(s, EndVisit, s')
    requires !s.conns.calls[s.pool.lock.visiting.call].stage.ok
    ensures Inv(maxConns, s')
  {
    assert CallFits(s.conns, s.pool.lock.visiting.call);
    forall id | id in s'.monitors ensures MonitorSound(s', id) {
      assert MonitorSound(s, id);
    }
  }

  lemma InvEndVisitOk(maxConns: int, s: State, s': State)
    requires Inv(maxConns, s) && PoolStep(s, EndVisit, s')
    requires s.conns.calls[s.pool.lock.visiting.call].stage.ok
    ensures Inv(maxConns, s')
  {
    var id := s.pool.lock.visiting.id;
    assert CallFits(s.conns, s.pool.lock.visiting.call);
    CountedRemove(maxConns, s.pool.(lock := s'.pool.lock), id);
    forall m | m in s'.monitors ensures MonitorSound(s', m) {
      assert MonitorSound(s, m);
    }
  }

  lemma InvPool(maxConns: int, s: State, e: Event, s': State)
    requires Inv(maxConns, s) && PoolStep(s, e, s')
    ensures Inv(maxConns, s')
  {
    match e {
      case StartVisit(id, call) => InvStartVisit(maxConns, s, s', id, call);
      case EndVisit =>
        if s.conns.calls[s.pool.lock.visiting.call].stage.ok {
          InvEndVisitOk(maxConns, s, s');
        } else {
          InvEndVisitFailed(maxConns, s, s');
        }
      case LockToRemove(_) => InvLock(maxConns, s, e, s');
      case LockPool(_) => InvLock(maxConns, s, e, s');
      case Unlock => InvUnlock(maxConns, s, s');
      case _ => InvMoveOn(maxConns, s, e, s');
    }
  }

  lemma InvStep(maxConns: int, s: State, e: Event, s': State)
    requires Inv(maxConns, s) && Next(maxConns, s, e, s')
    ensures Inv(maxConns, s')
  {
    if AcceptStep(maxConns, s, e, s') {
      InvAccept(maxConns, s, e, s');
    } else if PoolStep(s, e, s') {
      InvPool(maxConns, s, e, s');
    } else {
      InvClose(maxConns, s, e, s');
    }
  }

  lemma AnnouncedNext(maxConns: int, s: State, e: Event, s': State)
    requires Announced(s.conns) && Next(maxConns, s, e, s')
    ensures Announced(s'.conns)
  {
    if CloseStep(s.conns, e, s'.conns) {
      AnnouncedStep(s.conns, e, s'.conns);
    } else if e.RejectClose? {
      BegunIsAnnounced(s.conns, e.call, s.accept.id);
    } else if e.StartVisit? {
      BegunIsAnnounced(s.conns, e.call, e.id);
    } else {
      assert s'.conns == s.conns.(created := s'.conns.created);
    }
  }

  /** The whole invariant, with what keeps a closed connection from being forgotten. */
  ghost predicate Sound(maxConns: int, s: State) {
    Inv(maxConns, s) && Announced(s.conns)
  }

  lemma SoundStep(maxConns: int, s: State, e: Event, s': State)
    requires Sound(maxConns, s) && Next(maxConns, s, e, s')
    ensures Sound(maxConns, s')
  {
    InvStep(maxConns, s, e, s');
    AnnouncedNext(maxConns, s, e, s');
  }

  lemma SoundFirst(maxConns: int)
    ensures Sound(maxConns, INITIAL)
  {
    InvInitial(maxConns);
  }

  lemma SoundAt(maxConns: int, states: seq<State>, events: seq<Event>, k: nat)
    requires IsRun(maxConns, states, events) && 0 < k < |states| && Sound(maxConns, states[k - 1])
    ensures Sound(maxConns, states[k])
  {
    assert StepAt(maxConns, states, events, k - 1);
    SoundStep(maxConns, states[k - 1], events[k - 1], states[k]);
  }

  lemma {:induction false} Always(maxConns: int, states: seq<State>, events: seq<Event>, k: nat)
    requires IsRun(maxConns, states, events) && k < |states|
    ensures Sound(maxConns, states[k])
  {
    if k == 0 {
      SoundFirst(maxConns);
    } else {
      Always(maxConns, states, events, k - 1);
      SoundAt(maxConns, states, events, k);
    }
  }

  lemma ReachableSound(maxConns: int, s: State)
    requires Reachable(maxConns, s)
    ensures Sound(maxConns, s)
  {
    var states, events :| IsRun(maxConns, states, events) && states[|events|] == s;
    Always(maxConns, states, events, |events|);
  }

  lemma ReachableInv(maxConns: int, s: State)
    requires Reachable(maxConns, s)
    ensures Inv(maxConns, s)
  {
    ReachableSound(maxConns, s);
  }

  lemma ReachableStep(maxConns: int, s: State, e: Event, s': State)
    requires Reachable(maxConns, s) && Next(maxConns, s, e, s')
    ensures Reachable(maxConns, s')
  {
    var states, events :| IsRun(maxConns, states, events) && states[|events|] == s;
    var states', events' := states + [s'], events + [e];
    forall k: nat | k < |events'| ensures StepAt(maxConns, states', events', k) {
      assert k < |events| ==> StepAt(maxConns, states, events, k);
    }
    assert IsRun(maxConns, states', events') && states'[|events'|] == s';
  }

  /** Stretches from reachable states stay among them. */
  lemma {:induction false} StaysReachable(maxConns: int, states: seq<State>, events: seq<Event>, k: nat)
    requires IsStretch(maxConns, states, events) && k < |states| && Reachable(maxConns, states[0])
    ensures Reachable(maxConns, states[k])
  {
    if k == 0 {
    } else {
      StaysReachable(maxConns, states, events, k - 1);
      assert StepAt(maxConns, states, events, k - 1);
      ReachableStep(maxConns, states[k - 1], events[k - 1], states[k]);
    }
  }

  // ----- What the invariant says, in every reachable state -----

  /** The pool never exceeds its limit, at most one more connection is open, and the
      gauge and counters agree with the map: every connection is counted created and
      counted closed at most once. */
  lemma BoundsAndCounters(maxConns: int, s: State)
    requires Reachable(maxConns, s)
    ensures |s.pool.members| <= Max(maxConns, 0)
    ensures |s.conns.created - s.conns.closed| <= Max(maxConns, 0) + 1
    ensures s.pool.connCreated - s.pool.connClosed == s.pool.totalConns == |s.pool.members|
    ensures s.pool.connClosed == |s.pool.removed| && s.pool.removed <= s.conns.closed
  {
    ReachableInv(maxConns, s);
    SubsetSize(s.conns.created - s.conns.closed, s.pool.members + Hand(s.accept));
    assert |Hand(s.accept)| <= 1;
    UnionSize(s.pool.members, Hand(s.accept));
  }

  /** closeChan and the heartbeat's channel are closed at most once per connection, only
      after the flag is set. */
  lemma ExactlyOnce(maxConns: int, s: State, id: Id)
    requires Reachable(maxConns, s)
    ensures s.conns.chanCloses[id] <= 1 && s.conns.heartbeatStops[id] <= 1
    ensures id in s.conns.chanCloses || id in s.conns.heartbeatStops ==> id in s.conns.closed
  {
    ReachableInv(maxConns, s);
  }

  /** No leaked entry: a member has a monitor that has not finished, or is about to get
      one from the accept loop. */
  lemma NoLeakedEntry(maxConns: int, s: State, id: Id)
    requires Reachable(maxConns, s) && id in s.pool.members
    ensures (id in s.monitors && s.monitors[id] != Done) || s.accept == Added(id)
  {
    ReachableInv(maxConns, s);
    assert id in s.monitors ==> MonitorSound(s, id);
  }

  /** A monitor's Remove never takes the error branch: whenever its Close call has
      returned, it has returned nil, and the entry is deleted. */
  lemma MonitorRemoveSucceeds(maxConns: int, s: State, s': State)
    requires Reachable(maxConns, s) && PoolStep(s, EndVisit, s') && s.pool.lock.op.Remove?
    ensures s.conns.calls[s.pool.lock.visiting.call].stage == Returned(true)
    ensures s'.pool.members == s.pool.members - {s.pool.lock.op.id}
  {
    ReachableInv(maxConns, s);
  }

  /** When pool Close returns, whatever is still in the pool has been closed. */
  lemma ShutdownClosesAll(maxConns: int, s: State, s': State)
    requires Reachable(maxConns, s) && PoolStep(s, Unlock, s') && s.pool.lock.op == Shutdown
    ensures s'.pool.members <= s'.conns.closed
  {
    ReachableInv(maxConns, s);
  }

  lemma DonePoolStep(maxConns: int, s: State, e: Event, s': State, id: Id)
    requires Inv(maxConns, s) && PoolStep(s, e, s') && id in s.monitors && s.monitors[id] == Done
    ensures id in s'.monitors && s'.monitors[id] == Done
  {
    assert MonitorSound(s, id);
    assert e.Unlock? && s.pool.lock.op.Remove? ==> s.pool.lock.op.id != id;
  }

  lemma DoneStep(maxConns: int, s: State, e: Event, s': State, id: Id)
    requires Inv(maxConns, s) && Next(maxConns, s, e, s') && id in s.monitors && s.monitors[id] == Done
    ensures id in s'.monitors && s'.monitors[id] == Done
  {
    if PoolStep(s, e, s') {
      DonePoolStep(maxConns, s, e, s', id);
    } else {
      assert s.accept.Added? ==> s.accept.id != id;
    }
  }

  lemma DoneAt(maxConns: int, states: seq<State>, events: seq<Event>, k: nat, id: Id)
    requires IsRun(maxConns, states, events) && k < |events|
    requires id in states[k].monitors && states[k].monitors[id] == Done
    ensures id in states[k + 1].monitors && states[k + 1].monitors[id] == Done
  {
    Always(maxConns, states, events, k);
    assert StepAt(maxConns, states, events, k);
    DoneStep(maxConns, states[k], events[k], states[k + 1], id);
  }

  lemma DoneIsOut(maxConns: int, s: State, id: Id)
    requires Inv(maxConns, s) && id in s.monitors && s.monitors[id] == Done
    ensures id !in s.pool.members
  {
    assert MonitorSound(s, id);
  }

  /** Once a monitor is past its Remove, its connection is never in the pool again. */
  lemma {:induction false} GoneForGood(maxConns: int, states: seq<State>, events: seq<Event>, i: nat, j: nat, id: Id)
    requires IsRun(maxConns, states, events) && i <= j < |states|
    requires id in states[i].monitors && states[i].monitors[id] == Done
    ensures id in states[j].monitors && states[j].monitors[id] == Done && id !in states[j].pool.members
    decreases j
  {
    if i == j {
    } else {
      GoneForGood(maxConns, states, events, i, j - 1, id);
      DoneAt(maxConns, states, events, j - 1, id);
    }
    Always(maxConns, states, events, j);
    DoneIsOut(maxConns, states[j], id);
  }

  lemma ClosedStep(maxConns: int, s: State, e: Event, s': State)
    requires Next(maxConns, s, e, s')
    ensures s.conns.closed <= s'.conns.closed
  {
  }

  /** The closed flag never reverts. */
  lemma {:induction false} ClosedForGood(maxConns: int, states: seq<State>, events: seq<Event>, i: nat, j: nat)
    requires IsRun(maxConns, states, events) && i <= j < |states|
    ensures states[i].conns.closed <= states[j].conns.closed
    decreases j
  {
    if i == j {
    } else {
      ClosedForGood(maxConns, states, events, i, j - 1);
      assert StepAt(maxConns, states, events, j - 1);
      ClosedStep(maxConns, states[j - 1], events[j - 1], states[j]);
    }
  }
}
