/** One cleanup pass of network/conn_pool.go: what it leaves behind for every order in
    which the map may yield its entries. */
module Cleanups {
  import opened Bounds

  type Id = string

  /** What a connection answers when the pool visits it, and whether its Close succeeds. */
  datatype Observation = Observation(
    closed: bool, idleTime: int, lifetime: int, errorCount: int, alive: bool, closeOk: bool)

  datatype Limits = Limits(maxConns: int, maxErrorCount: int, minIdleConns: int, maxLifetime: int, maxIdleTime: int)

  predicate IsIdle(l: Limits, o: Observation) {
    o.idleTime > l.maxIdleTime
  }

  /** The reasons that do not depend on the size of the pool. */
  predicate MustGo(l: Limits, o: Observation) {
    o.closed || o.lifetime > l.maxLifetime || o.errorCount > l.maxErrorCount || !o.alive
  }

  /** Removed at any size of the pool: it must go, and its Close succeeds. */
  predicate Goes(l: Limits, o: Observation) {
    MustGo(l, o) && o.closeOk
  }

  /** Kept at any size: it has no reason to go, or its Close fails. */
  predicate Stays(l: Limits, o: Observation) {
    !o.closeOk || (!IsIdle(l, o) && !MustGo(l, o))
  }

  predicate ShouldCleanup(l: Limits, o: Observation, size: int) {
    if o.closed then true
    else if o.idleTime > l.maxIdleTime && size > l.minIdleConns then true
    else if o.lifetime > l.maxLifetime then true
    else if o.errorCount > l.maxErrorCount then true
    else if !o.alive then true
    else false
  }

  /** The entry is closed and deleted when visited in a pool of this size. */
  predicate Removes(l: Limits, o: Observation, size: int) {
    ShouldCleanup(l, o, size) && o.closeOk
  }

  // ----- A cleanup pass in a given order -----

  /** The entries of `order` that stay when they are visited one after another, the pool
      holding `size` entries before the first visit. */
  function Kept(l: Limits, obs: map<Id, Observation>, order: seq<Id>, size: int): (k: seq<Id>)
    requires forall id :: id in order ==> id in obs
    ensures |k| <= |order|
  {
    if order == [] then []
    else
      var o := obs[order[0]];
      if Removes(l, o, size) then Kept(l, obs, order[1..], size - 1)
      else [order[0]] + Kept(l, obs, order[1..], size)
  }

  /** The entries that stay. */
  function Staying(l: Limits, obs: map<Id, Observation>, order: seq<Id>): (n: nat)
    requires forall id :: id in order ==> id in obs
    ensures n <= |order|
  {
    if order == [] then 0 else Staying(l, obs, order[1..]) + (if Stays(l, obs[order[0]]) then 1 else 0)
  }

  /** The entries that go. */
  function Going(l: Limits, obs: map<Id, Observation>, order: seq<Id>): (n: nat)
    requires forall id :: id in order ==> id in obs
    ensures Staying(l, obs, order) + n <= |order|
  {
    if order == [] then 0 else Going(l, obs, order[1..]) + (if Goes(l, obs[order[0]]) then 1 else 0)
  }

  lemma {:induction false} KeptComesFrom(l: Limits, obs: map<Id, Observation>, order: seq<Id>, size: int)
    requires forall id :: id in order ==> id in obs
    ensures forall id :: id in Kept(l, obs, order, size) ==> id in order
  {
    if order == [] {
    } else {
      KeptComesFrom(l, obs, order[1..], size - 1);
      KeptComesFrom(l, obs, order[1..], size);
    }
  }

  /** Every survivor was open, young, healthy and alive when visited, or its Close failed;
      an entry with no reason to go survives, and so does one whose Close fails. */
  lemma {:induction false} Survivors(l: Limits, obs: map<Id, Observation>, order: seq<Id>, size: int)
    requires (forall id :: id in order ==> id in obs)
    ensures forall id :: id in Kept(l, obs, order, size) ==> id in order && !Goes(l, obs[id])
    ensures forall id :: id in order && Stays(l, obs[id]) ==> id in Kept(l, obs, order, size)
  {
    if order == [] {
    } else {
      Survivors(l, obs, order[1..], size - 1);
      Survivors(l, obs, order[1..], size);
    }
  }

  /** If more than minIdleConns remain, no survivor was idle when visited, unless its Close
      failed: the pool was at least as large at every visit. */
  lemma {:induction false} NoIdleSurvivor(l: Limits, obs: map<Id, Observation>, order: seq<Id>, size: int)
    requires (forall id :: id in order ==> id in obs)
    requires size - |order| + |Kept(l, obs, order, size)| > l.minIdleConns
    ensures forall id :: id in Kept(l, obs, order, size) ==> id in order && (IsIdle(l, obs[id]) ==> !obs[id].closeOk)
    decreases |order|
  {
    if order == [] {
    } else {
      KeptComesFrom(l, obs, order[1..], size);
      if Removes(l, obs[order[0]], size) {
        NoIdleSurvivor(l, obs, order[1..], size - 1);
      } else {
        NoIdleSurvivor(l, obs, order[1..], size);
      }
    }
  }

  /** `order` visits each member once. */
  ghost predicate IsOrder(order: seq<Id>, members: set<Id>) {
    && (forall i, j :: 0 <= i < j < |order| ==> order[i] != order[j])
    && (forall id :: id in order <==> id in members)
  }

  lemma {:induction false} OrderSize(order: seq<Id>, members: set<Id>)
    requires IsOrder(order, members)
    ensures |order| == |members|
    decreases |order|
  {
    if order == [] {
      assert members == {};
    } else {
      var last := order[|order| - 1];
      assert forall id :: id in order[..|order| - 1] <==> id in order && id != last;
      OrderSize(order[..|order| - 1], members - {last});
    }
  }

  lemma OrderAppend(order: seq<Id>, members: set<Id>, id: Id)
    requires IsOrder(order, members) && id !in members
    ensures IsOrder(order + [id], members + {id})
  {
    assert forall x :: x in order + [id] <==> x in order || x == id;
  }

  /** Visiting one more entry at the end. */
  lemma {:induction false} KeptAppend(l: Limits, obs: map<Id, Observation>, order: seq<Id>, id: Id, size: int)
    requires id in obs && forall x :: x in order ==> x in obs
    ensures var k := Kept(l, obs, order, size);
            Kept(l, obs, order + [id], size) ==
              if Removes(l, obs[id], size - |order| + |k|) then k else k + [id]
    decreases |order|
  {
    if order == [] {
      assert [id][1..] == [];
    } else {
      assert (order + [id])[1..] == order[1..] + [id] && (order + [id])[0] == order[0];
      var o := obs[order[0]];
      KeptAppend(l, obs, order[1..], id, if Removes(l, o, size) then size - 1 else size);
    }
  }

  // ----- How many remain -----

  /** With no entry that goes at any size, the number left does not depend on the order:
      the idle ones go until minIdleConns remain or only staying ones do. */
  lemma {:induction false} ExactCount(l: Limits, obs: map<Id, Observation>, order: seq<Id>, size: int)
    requires (forall id :: id in order ==> id in obs) && |order| <= size
    requires forall id :: id in order ==> !Goes(l, obs[id])
    ensures size - |order| + |Kept(l, obs, order, size)|
         == Max(size - |order| + Staying(l, obs, order), Min(size, l.minIdleConns))
    decreases |order|
  {
    if order == [] {
    } else {
      ExactCount(l, obs, order[1..], if Removes(l, obs[order[0]], size) then size - 1 else size);
    }
  }

  /** The most and the fewest that can remain of `size` entries, `firm` of which stay at
      any size and `going` of which go at any size. */
  function Most(l: Limits, size: int, firm: int, going: int): int {
    Max(firm, Min(size - going, l.minIdleConns))
  }

  function Fewest(l: Limits, size: int, firm: int, going: int): int {
    Max(firm, Min(size, l.minIdleConns) - going)
  }

  lemma {:induction false} CountBounds(l: Limits, obs: map<Id, Observation>, order: seq<Id>, size: int)
    requires (forall id :: id in order ==> id in obs) && |order| <= size
    ensures var firm, going := size - |order| + Staying(l, obs, order), Going(l, obs, order);
            Fewest(l, size, firm, going) <= size - |order| + |Kept(l, obs, order, size)| <= Most(l, size, firm, going)
    decreases |order|
  {
    if order == [] {
    } else {
      CountBounds(l, obs, order[1..], if Removes(l, obs[order[0]], size) then size - 1 else size);
    }
  }

  /** The most remain whenever the entries that go at any size are visited first. */
  lemma {:induction false} GoingFirst(l: Limits, obs: map<Id, Observation>, gone: seq<Id>, rest: seq<Id>, size: int)
    requires (forall id :: id in gone + rest ==> id in obs) && |gone + rest| <= size
    requires (forall id :: id in gone ==> Goes(l, obs[id])) && (forall id :: id in rest ==> !Goes(l, obs[id]))
    ensures size - |gone + rest| + |Kept(l, obs, gone + rest, size)|
         == Most(l, size, size - |gone + rest| + Staying(l, obs, rest), |gone|)
    decreases |gone|
  {
    if gone == [] {
      assert gone + rest == rest;
      assert forall id :: id in rest ==> id in gone + rest;
      ExactCount(l, obs, rest, size);
    } else {
      assert (gone + rest)[1..] == gone[1..] + rest;
      assert gone[0] in gone + rest;
      GoingFirst(l, obs, gone[1..], rest, size - 1);
    }
  }

  /** The fewest remain whenever they are visited last. */
  lemma {:induction false} GoingLast(l: Limits, obs: map<Id, Observation>, rest: seq<Id>, gone: seq<Id>, size: int)
    requires (forall id :: id in rest + gone ==> id in obs) && |rest + gone| <= size
    requires (forall id :: id in gone ==> Goes(l, obs[id])) && (forall id :: id in rest ==> !Goes(l, obs[id]))
    ensures size - |rest + gone| + |Kept(l, obs, rest + gone, size)|
         == Fewest(l, size, size - |rest + gone| + Staying(l, obs, rest), |gone|)
    decreases |rest|
  {
    if rest == [] {
      assert rest + gone == gone == gone + rest;
      GoingFirst(l, obs, gone, rest, size);
    } else {
      assert (rest + gone)[1..] == rest[1..] + gone;
      assert rest[0] in rest + gone;
      GoingLast(l, obs, rest[1..], gone, if Removes(l, obs[rest[0]], size) then size - 1 else size);
    }
  }

  // ----- When the order matters -----

  ghost function StayingIds(l: Limits, obs: map<Id, Observation>, members: set<Id>): set<Id>
    requires members <= obs.Keys
  {
    set id | id in members && Stays(l, obs[id])
  }

  ghost function GoingIds(l: Limits, obs: map<Id, Observation>, members: set<Id>): set<Id>
    requires members <= obs.Keys
  {
    set id | id in members && Goes(l, obs[id])
  }

  lemma IdsWith(l: Limits, obs: map<Id, Observation>, members: set<Id>, id: Id)
    requires id !in members && members + {id} <= obs.Keys
    ensures |StayingIds(l, obs, members + {id})| == |StayingIds(l, obs, members)| + (if Stays(l, obs[id]) then 1 else 0)
    ensures |GoingIds(l, obs, members + {id})| == |GoingIds(l, obs, members)| + (if Goes(l, obs[id]) then 1 else 0)
  {
    if Stays(l, obs[id]) {
      assert StayingIds(l, obs, members + {id}) == StayingIds(l, obs, members) + {id};
    } else {
      assert StayingIds(l, obs, members + {id}) == StayingIds(l, obs, members);
    }
    if Goes(l, obs[id]) {
      assert GoingIds(l, obs, members + {id}) == GoingIds(l, obs, members) + {id};
    } else {
      assert GoingIds(l, obs, members + {id}) == GoingIds(l, obs, members);
    }
  }

  lemma OrderRest(order: seq<Id>, members: set<Id>)
    requires IsOrder(order, members) && order != []
    ensures IsOrder(order[1..], members - {order[0]})
  {
    assert forall id :: id in order[1..] <==> id in order && id != order[0];
  }

  lemma {:induction false} CountsOfOrder(l: Limits, obs: map<Id, Observation>, order: seq<Id>, members: set<Id>)
    requires IsOrder(order, members) && members <= obs.Keys
    ensures Staying(l, obs, order) == |StayingIds(l, obs, members)|
    ensures Going(l, obs, order) == |GoingIds(l, obs, members)|
    decreases |order|
  {
    if order == [] {
      assert StayingIds(l, obs, members) == {} && GoingIds(l, obs, members) == {};
    } else {
      var rest := members - {order[0]};
      OrderRest(order, members);
      CountsOfOrder(l, obs, order[1..], rest);
      IdsWith(l, obs, rest, order[0]);
      assert rest + {order[0]} == members;
    }
  }

  lemma {:induction false} SomeOrder(members: set<Id>) returns (order: seq<Id>)
    ensures IsOrder(order, members)
    decreases members
  {
    if members == {} {
      order := [];
    } else {
      var id :| id in members;
      var rest := SomeOrder(members - {id});
      OrderAppend(rest, members - {id}, id);
      assert members - {id} + {id} == members;
      order := rest + [id];
    }
  }

  /** How many members a pass in this order leaves. */
  ghost function Left(l: Limits, obs: map<Id, Observation>, members: set<Id>, order: seq<Id>): nat
    requires members <= obs.Keys && IsOrder(order, members)
  {
    |Kept(l, obs, order, |members|)|
  }

  /** Every order leaves between the fewest and the most. */
  lemma LeftBounds(l: Limits, obs: map<Id, Observation>, members: set<Id>, order: seq<Id>)
    requires members <= obs.Keys && IsOrder(order, members)
    ensures var firm, going := |StayingIds(l, obs, members)|, |GoingIds(l, obs, members)|;
            Fewest(l, |members|, firm, going) <= Left(l, obs, members, order) <= Most(l, |members|, firm, going)
  {
    OrderSize(order, members);
    CountBounds(l, obs, order, |members|);
    CountsOfOrder(l, obs, order, members);
  }

  lemma OrdersJoin(p: seq<Id>, a: set<Id>, q: seq<Id>, b: set<Id>)
    requires IsOrder(p, a) && IsOrder(q, b) && a !! b
    ensures IsOrder(p + q, a + b)
  {
    assert forall i :: 0 <= i < |p| ==> p[i] in a;
    assert forall i :: 0 <= i < |q| ==> q[i] in b;
  }

  /** The members that go at any size, in some order, and the others, in some order. */
  lemma Divided(l: Limits, obs: map<Id, Observation>, members: set<Id>) returns (gone: seq<Id>, rest: seq<Id>)
    requires members <= obs.Keys
    ensures IsOrder(gone + rest, members) && IsOrder(rest + gone, members)
    ensures (forall id :: id in gone ==> Goes(l, obs[id])) && (forall id :: id in rest ==> !Goes(l, obs[id]))
    ensures |gone| == |GoingIds(l, obs, members)| && Staying(l, obs, rest) == |StayingIds(l, obs, members)|
  {
    var goes := GoingIds(l, obs, members);
    var stays := members - goes;
    gone := SomeOrder(goes);
    rest := SomeOrder(stays);
    assert goes + stays == members == stays + goes;
    OrdersJoin(gone, goes, rest, stays);
    OrdersJoin(rest, stays, gone, goes);
    OrderSize(gone, goes);
    CountsOfOrder(l, obs, rest, stays);
    assert StayingIds(l, obs, stays) == StayingIds(l, obs, members);
  }

  /** And both ends are reached by some order. */
  lemma BoundsAttained(l: Limits, obs: map<Id, Observation>, members: set<Id>)
      returns (fewest: seq<Id>, most: seq<Id>)
    requires members <= obs.Keys
    ensures IsOrder(fewest, members) && IsOrder(most, members)
    ensures var firm, going := |StayingIds(l, obs, members)|, |GoingIds(l, obs, members)|;
            && Left(l, obs, members, fewest) == Fewest(l, |members|, firm, going)
            && Left(l, obs, members, most) == Most(l, |members|, firm, going)
  {
    var gone, rest := Divided(l, obs, members);
    fewest, most := rest + gone, gone + rest;
    OrderSize(fewest, members);
    GoingFirst(l, obs, gone, rest, |members|);
    GoingLast(l, obs, rest, gone, |members|);
  }

  ghost predicate OrderDoesNotMatter(l: Limits, obs: map<Id, Observation>, members: set<Id>)
    requires members <= obs.Keys
  {
    forall p, q :: IsOrder(p, members) && IsOrder(q, members) ==> Left(l, obs, members, p) == Left(l, obs, members, q)
  }

  /** The number left is the same for every order exactly when no entry goes at any size,
      or all others stay at any size, or the staying ones alone reach minIdleConns, or the
      pool starts within minIdleConns. */
  lemma OrderMattersExactly(l: Limits, obs: map<Id, Observation>, members: set<Id>)
    requires members <= obs.Keys
    ensures var firm, going := |StayingIds(l, obs, members)|, |GoingIds(l, obs, members)|;
            OrderDoesNotMatter(l, obs, members) <==>
            going == 0 || firm + going == |members| || l.minIdleConns <= firm || |members| <= l.minIdleConns
  {
    var fewest, most := BoundsAttained(l, obs, members);
    CountsOfOrder(l, obs, most, members);
    OrderSize(most, members);
    if Left(l, obs, members, fewest) == Left(l, obs, members, most) {
      forall p, q | IsOrder(p, members) && IsOrder(q, members)
        ensures Left(l, obs, members, p) == Left(l, obs, members, q)
      {
        LeftBounds(l, obs, members, p);
        LeftBounds(l, obs, members, q);
      }
    }
  }
}
