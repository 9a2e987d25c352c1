/** The ConnPool of network/conn_pool.go: its map, gauge and counters.  Each method's
    contract names what Lifecycle does to its pool in the same place. */
module Pools {
  import opened Cleanups
  import Lifecycle

  datatype Conn = Conn(id: Id)

  /** Where a pass stands: `order` has been visited, `todo` is still to come. */
  ghost predicate Progress(l: Limits, obs: map<Id, Observation>, before: set<Id>,
                           order: seq<Id>, todo: set<Id>, members: set<Id>)
    requires before <= obs.Keys
  {
    && todo <= members <= before && IsOrder(order, before - todo)
    && (forall id :: id in members <==> id in todo || id in Kept(l, obs, order, |before|))
    && |members| == |before| - |order| + |Kept(l, obs, order, |before|)|
  }

  lemma Visited(l: Limits, obs: map<Id, Observation>, before: set<Id>, order: seq<Id>, todo: set<Id>, id: Id)
    requires before <= obs.Keys && todo <= before && IsOrder(order, before - todo) && id in todo
    ensures IsOrder(order + [id], before - (todo - {id})) && id !in Kept(l, obs, order, |before|)
  {
    KeptComesFrom(l, obs, order, |before|);
    OrderAppend(order, before - todo, id);
    assert before - todo + {id} == before - (todo - {id});
  }

  lemma ProgressByRemoval(l: Limits, obs: map<Id, Observation>, before: set<Id>,
                          order: seq<Id>, todo: set<Id>, members: set<Id>, id: Id)
    requires before <= obs.Keys && Progress(l, obs, before, order, todo, members) && id in todo
    requires Removes(l, obs[id], |members|)
    ensures Progress(l, obs, before, order + [id], todo - {id}, members - {id})
  {
    var k := Kept(l, obs, order, |before|);
    Visited(l, obs, before, order, todo, id);
    KeptAppend(l, obs, order, id, |before|);
    assert Kept(l, obs, order + [id], |before|) == k && |members - {id}| == |members| - 1;
    assert forall x :: x in members - {id} <==> x in todo - {id} || x in k;
  }

  lemma ProgressByKeeping(l: Limits, obs: map<Id, Observation>, before: set<Id>,
                          order: seq<Id>, todo: set<Id>, members: set<Id>, id: Id)
    requires before <= obs.Keys && Progress(l, obs, before, order, todo, members) && id in todo
    requires !Removes(l, obs[id], |members|)
    ensures Progress(l, obs, before, order + [id], todo - {id}, members)
  {
    Visited(l, obs, before, order, todo, id);
    KeptAppend(l, obs, order, id, |before|);
    assert Kept(l, obs, order + [id], |before|) == Kept(l, obs, order, |before|) + [id];
  }

  lemma ProgressStep(l: Limits, obs: map<Id, Observation>, before: set<Id>,
                     order: seq<Id>, todo: set<Id>, members: set<Id>, id: Id)
    requires before <= obs.Keys && Progress(l, obs, before, order, todo, members) && id in todo
    ensures Progress(l, obs, before, order + [id], todo - {id},
                     if Removes(l, obs[id], |members|) then members - {id} else members)
  {
    if Removes(l, obs[id], |members|) {
      ProgressByRemoval(l, obs, before, order, todo, members, id);
    } else {
      ProgressByKeeping(l, obs, before, order, todo, members, id);
    }
  }

  /** Of the entries visited, those that had to be closed and could not be: all that must
      go, and of the others at most idle ones. */
  ghost predicate AreFailures(l: Limits, obs: map<Id, Observation>, visited: set<Id>, failed: set<Id>)
    requires visited <= obs.Keys
  {
    && failed <= visited
    && (forall id :: id in failed ==> !obs[id].closeOk && (MustGo(l, obs[id]) || IsIdle(l, obs[id])))
    && (forall id :: id in visited && !obs[id].closeOk && MustGo(l, obs[id]) ==> id in failed)
  }

  lemma FailuresStep(l: Limits, obs: map<Id, Observation>, before: set<Id>, todo: set<Id>, failed: set<Id>,
                     id: Id, size: int) returns (failed': set<Id>)
    requires before <= obs.Keys && id in todo && todo <= before && AreFailures(l, obs, before - todo, failed)
    ensures AreFailures(l, obs, before - (todo - {id}), failed')
    ensures |failed'| == |failed| + (if ShouldCleanup(l, obs[id], size) && !obs[id].closeOk then 1 else 0)
  {
    failed' := if ShouldCleanup(l, obs[id], size) && !obs[id].closeOk then failed + {id} else failed;
  }

  /** A pass under way: where it stands, and the failures so far. */
  ghost predicate InPass(l: Limits, obs: map<Id, Observation>, before: set<Id>,
                         order: seq<Id>, todo: set<Id>, members: set<Id>, failed: set<Id>)
    requires before <= obs.Keys
  {
    Progress(l, obs, before, order, todo, members) && AreFailures(l, obs, before - todo, failed)
  }

  lemma PassStep(l: Limits, obs: map<Id, Observation>, before: set<Id>, order: seq<Id>, todo: set<Id>,
                 members: set<Id>, failed: set<Id>, id: Id) returns (failed': set<Id>)
    requires before <= obs.Keys && InPass(l, obs, before, order, todo, members, failed) && id in todo
    ensures InPass(l, obs, before, order + [id], todo - {id},
                   if Removes(l, obs[id], |members|) then members - {id} else members, failed')
    ensures |failed'| == |failed| + (if ShouldCleanup(l, obs[id], |members|) && !obs[id].closeOk then 1 else 0)
  {
    ProgressStep(l, obs, before, order, todo, members, id);
    failed' := FailuresStep(l, obs, before, todo, failed, id, |members|);
  }

  /** A shutdown under way: what is left is still to visit or failed to close. */
  ghost predicate InShutdown(closeOk: map<Id, bool>, before: set<Id>, todo: set<Id>, members: set<Id>, failed: set<Id>)
    requires before <= closeOk.Keys
  {
    && todo !! failed && members == todo + failed && members <= before
    && forall id :: id in before && id !in todo ==> (id in failed <==> !closeOk[id])
  }

  lemma ShutdownStep(closeOk: map<Id, bool>, before: set<Id>, todo: set<Id>, members: set<Id>, failed: set<Id>, id: Id)
      returns (failed': set<Id>)
    requires before <= closeOk.Keys && InShutdown(closeOk, before, todo, members, failed) && id in todo
    ensures InShutdown(closeOk, before, todo - {id}, if closeOk[id] then members - {id} else members, failed')
    ensures |failed'| == |failed| + (if closeOk[id] then 0 else 1)
  {
    failed' := if closeOk[id] then failed else failed + {id};
  }

  lemma RemainingSize(before: set<Id>, left: map<Id, Conn>)
    requires left.Keys <= before
    ensures |before - left.Keys| == |before| - |left|
  {
    assert |left| == |left.Keys|;
    assert before == left.Keys + (before - left.Keys);
  }

  class ConnPool {
    const limits: Limits
    var connections: map<Id, Conn>
    var totalConns: int
    var connCreated: int
    var connClosed: int
    var closeErrors: int
    var cleanupConns: int

    // Every id ever added, and every id deleted.
    ghost var added: set<Id>
    ghost var removed: set<Id>

    constructor (limits: Limits)
      ensures this.limits == limits && connections == map[] && GaugeAgrees()
      ensures Abstract(Lifecycle.Free) == Lifecycle.INITIAL.pool
    {
      this.limits := limits;
      connections := map[];
      totalConns, connCreated, connClosed, closeErrors, cleanupConns := 0, 0, 0, 0, 0;
      added, removed := {}, {};
    }

    /** The gauge is the size of the map, and the counters account for it. */
    predicate GaugeAgrees()
      reads this
    {
      totalConns == |connections| == connCreated - connClosed
    }

    /** The pool of the step system, given who holds the lock. */
    ghost function Abstract(lock: Lifecycle.Lock): Lifecycle.Pool
      reads this
    {
      Lifecycle.Pool(connections.Keys, lock, totalConns, connCreated, connClosed, added, removed)
    }

    /** An id already present is overwritten but counted again: the gauge stays right
        exactly when the id is fresh. */
    method Add(conn: Conn, ghost lock: Lifecycle.Lock) returns (full: bool)
      modifies this`connections, this`totalConns, this`connCreated, this`added
      ensures full == (|old(connections)| >= limits.maxConns)
      ensures full ==> connections == old(connections)
      ensures !full ==> connections == old(connections)[conn.id := conn]
      ensures Abstract(lock) ==
              if full then old(Abstract(lock)) else Lifecycle.AfterInsert(old(Abstract(lock)), conn.id)
      ensures old(GaugeAgrees()) ==> (GaugeAgrees() <==> full || conn.id !in old(connections))
      ensures |old(connections)| <= limits.maxConns ==> |connections| <= limits.maxConns
    {
      if |connections| >= limits.maxConns {
        return true;
      }
      connections := connections[conn.id := conn];
      assert connections.Keys == old(connections).Keys + {conn.id};
      totalConns := totalConns + 1;
      connCreated := connCreated + 1;
      added := added + {conn.id};
      full := false;
    }

    method Drop(id: Id, ghost lock: Lifecycle.Lock)
      requires id in connections
      modifies this`connections, this`totalConns, this`connClosed, this`removed
      ensures connections == old(connections) - {id}
      ensures Abstract(lock) == Lifecycle.AfterDelete(old(Abstract(lock)), id)
      ensures |connections| == |old(connections)| - 1
    {
      connections := connections - {id};
      assert connections.Keys == old(connections).Keys - {id};
      assert |connections.Keys| == |connections| && |old(connections).Keys| == |old(connections)|;
      totalConns := totalConns - 1;
      connClosed := connClosed + 1;
      removed := removed + {id};
    }

    /** `closeOk` is the outcome of the connection's Close. */
    method Remove(connID: Id, closeOk: bool, ghost lock: Lifecycle.Lock) returns (failed: bool)
      modifies this`connections, this`totalConns, this`connClosed, this`closeErrors, this`removed
      ensures failed == (connID in old(connections) && !closeOk)
      ensures connections == if failed then old(connections) else old(connections) - {connID}
      ensures Abstract(lock) == if connID in old(connections) && closeOk
                                then Lifecycle.AfterDelete(old(Abstract(lock)), connID) else old(Abstract(lock))
      ensures old(GaugeAgrees()) ==> GaugeAgrees()
      ensures closeErrors == old(closeErrors) + (if failed then 1 else 0)
    {
      if connID in connections {
        if !closeOk {
          closeErrors := closeErrors + 1;
          return true;
        }
        Drop(connID, lock);
      }
      failed := false;
    }

    /** Closes an entry, and deletes it if that succeeds. */
    method CloseEntry(id: Id, closeOk: bool, ghost lock: Lifecycle.Lock)
      requires id in connections
      modifies this`connections, this`totalConns, this`connClosed, this`closeErrors, this`removed
      ensures connections == (if closeOk then old(connections) - {id} else old(connections))
      ensures connections.Keys == (if closeOk then old(connections).Keys - {id} else old(connections).Keys)
      ensures Abstract(lock) ==
              if closeOk then Lifecycle.AfterDelete(old(Abstract(lock)), id) else old(Abstract(lock))
      ensures closeErrors == old(closeErrors) + (if closeOk then 0 else 1)
      ensures old(GaugeAgrees()) ==> GaugeAgrees()
    {
      if closeOk {
        Drop(id, lock);
      } else {
        closeErrors := closeErrors + 1;
      }
    }

    /** A visit: closes the entry if it has to go, and deletes it if that succeeds. */
    method VisitEntry(id: Id, o: Observation, ghost lock: Lifecycle.Lock)
      requires id in connections
      modifies this`connections, this`totalConns, this`connClosed, this`closeErrors, this`removed
      ensures var hasReason := o.closed || (o.idleTime > limits.maxIdleTime && |old(connections)| > limits.minIdleConns)
                               || o.lifetime > limits.maxLifetime || o.errorCount > limits.maxErrorCount || !o.alive;
              && connections == (if hasReason && o.closeOk then old(connections) - {id} else old(connections))
              && closeErrors == old(closeErrors) + (if hasReason && !o.closeOk then 1 else 0)
      ensures var goes := Removes(limits, o, |old(connections)|);
              && connections.Keys == (if goes then old(connections).Keys - {id} else old(connections).Keys)
              && |connections| == |connections.Keys|
              && closeErrors == old(closeErrors)
                                + (if ShouldCleanup(limits, o, |old(connections)|) && !goes then 1 else 0)
              && Abstract(lock) ==
                 (if goes then Lifecycle.AfterDelete(old(Abstract(lock)), id) else old(Abstract(lock)))
      ensures old(GaugeAgrees()) ==> GaugeAgrees()
    {
      if ShouldCleanup(limits, o, |connections|) {
        CloseEntry(id, o.closeOk, lock);
      }
    }

    /** The pass's loop: visits every entry once, in whatever order the map yields.
        `failed` are those whose Close was called and failed. */
    method VisitAll(obs: map<Id, Observation>, ghost lock: Lifecycle.Lock)
        returns (ghost order: seq<Id>, ghost failed: set<Id>)
      requires connections.Keys <= obs.Keys
      modifies this`connections, this`totalConns, this`connClosed, this`closeErrors, this`removed
      ensures InPass(limits, obs, old(connections).Keys, order, {}, connections.Keys, failed)
      ensures Abstract(lock) == Lifecycle.AfterDeletes(old(Abstract(lock)), old(connections).Keys - connections.Keys)
      ensures closeErrors == old(closeErrors) + |failed|
    {
      var todo := connections.Keys;
      ghost var before := connections.Keys;
      order, failed := [], {};
      while todo != {}
        invariant InPass(limits, obs, before, order, todo, connections.Keys, failed)
        invariant Abstract(lock) == Lifecycle.AfterDeletes(old(Abstract(lock)), before - connections.Keys)
        invariant closeErrors == old(closeErrors) + |failed|
        decreases |todo|
      {
        var id :| id in todo;
        Lifecycle.DeleteOneMore(old(Abstract(lock)), before, connections.Keys, id);
        failed := PassStep(limits, obs, before, order, todo, connections.Keys, failed, id);
        VisitEntry(id, obs[id], lock);
        order := order + [id];
        todo := todo - {id};
      }
    }

    /** One cleanup pass, with `obs` what each entry answers when it is visited. */
    method Cleanup(obs: map<Id, Observation>, ghost lock: Lifecycle.Lock)
        returns (ghost order: seq<Id>, ghost failed: set<Id>)
      requires connections.Keys <= obs.Keys
      modifies this`connections, this`totalConns, this`connClosed, this`closeErrors, this`cleanupConns, this`removed
      ensures IsOrder(order, old(connections).Keys)
      ensures forall id :: id in connections <==> id in Kept(limits, obs, order, |old(connections)|)
      ensures |connections| == Left(limits, obs, old(connections).Keys, order)
      ensures AreFailures(limits, obs, old(connections).Keys, failed) && closeErrors == old(closeErrors) + |failed|
      ensures Abstract(lock) == Lifecycle.AfterDeletes(old(Abstract(lock)), old(connections).Keys - connections.Keys)
      ensures old(GaugeAgrees()) ==> GaugeAgrees()
      ensures cleanupConns == old(cleanupConns) + |old(connections)| - |connections|
    {
      var initialCount := |connections|;
      ghost var before := connections.Keys;
      order, failed := VisitAll(obs, lock);
      OrderSize(order, before);
      RemainingSize(before, connections);
      assert before - {} == before && |before| == initialCount;
      if initialCount - |connections| > 0 {
        cleanupConns := cleanupConns + (initialCount - |connections|);
      }
    }

    /** The loop of Close: `failed` are those whose Close failed. */
    method CloseAll(closeOk: map<Id, bool>, ghost lock: Lifecycle.Lock) returns (ghost failed: set<Id>)
      requires connections.Keys <= closeOk.Keys
      modifies this`connections, this`totalConns, this`connClosed, this`closeErrors, this`removed
      ensures InShutdown(closeOk, old(connections).Keys, {}, connections.Keys, failed)
      ensures Abstract(lock) == Lifecycle.AfterDeletes(old(Abstract(lock)), old(connections).Keys - connections.Keys)
      ensures closeErrors == old(closeErrors) + |failed|
    {
      var todo := connections.Keys;
      ghost var before := connections.Keys;
      failed := {};
      while todo != {}
        invariant InShutdown(closeOk, before, todo, connections.Keys, failed)
        invariant Abstract(lock) == Lifecycle.AfterDeletes(old(Abstract(lock)), before - connections.Keys)
        invariant closeErrors == old(closeErrors) + |failed|
        decreases |todo|
      {
        var id :| id in todo;
        Lifecycle.DeleteOneMore(old(Abstract(lock)), before, connections.Keys, id);
        failed := ShutdownStep(closeOk, before, todo, connections.Keys, failed, id);
        CloseEntry(id, closeOk[id], lock);
        todo := todo - {id};
      }
    }

    /** Closes and deletes every entry; those whose Close fails stay. */
    method Close(closeOk: map<Id, bool>, ghost lock: Lifecycle.Lock)
      requires connections.Keys <= closeOk.Keys
      modifies this`connections, this`totalConns, this`connClosed, this`closeErrors, this`removed
      ensures forall id :: id in connections <==> id in old(connections) && !closeOk[id]
      ensures closeErrors == old(closeErrors) + |connections|
      ensures Abstract(lock) == Lifecycle.AfterDeletes(old(Abstract(lock)), old(connections).Keys - connections.Keys)
      ensures old(GaugeAgrees()) ==> GaugeAgrees()
    {
      ghost var before := connections.Keys;
      ghost var failed := CloseAll(closeOk, lock);
      assert connections.Keys == failed && |connections| == |connections.Keys|;
      RemainingSize(before, connections);
    }
  }
}
