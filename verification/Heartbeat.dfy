/** network/heartbeat.go under ideal tickers: the k-th tick comes exactly when due and
    is handled at once.  Times are nanoseconds; pongs are those actually received. */
module Heartbeats {
  import Cleanups

  const SECOND := 1_000_000_000

  class HeartbeatManager {
    const timeout: int
    const retryCount: int
    var lastPong: int

    constructor (timeout: int, retryCount: int)
      ensures this.timeout == timeout && this.retryCount == retryCount && lastPong == 0
    {
      this.timeout, this.retryCount, lastPong := timeout, retryCount, 0;
    }

    /** The answer for a value loaded from lastPong: before the first pong the peer counts
        as alive. */
    predicate AliveWith(pong: int, now: int) {
      pong == 0 || now - pong < timeout
    }

    predicate IsAlive(now: int)
      reads this
    {
      AliveWith(lastPong, now)
    }

    method HandlePong(now: int)
      modifies this`lastPong
      ensures lastPong == now
      ensures now != 0 && timeout > 0 ==> forall t :: now <= t ==> (IsAlive(t) <==> t < now + timeout)
    {
      lastPong := now;
    }

    /** Tries to reconnect, which never succeeds, sleeping one second longer after each
        attempt: n(n+1)/2 seconds for n retries, returned in nanoseconds. */
    method HandleTimeout() returns (slept: int)
      ensures retryCount >= 0 ==> 2 * slept == retryCount * (retryCount + 1) * 1_000_000_000
      ensures retryCount < 0 ==> slept == 0
    {
      slept := 0;
      var i := 0;
      while i < retryCount
        invariant 0 <= i && (0 < retryCount ==> i <= retryCount) && (retryCount <= 0 ==> i == 0)
        invariant 2 * slept == i * (i + 1) * SECOND
      {
        NextSleep(i);
        slept := slept + (i + 1) * SECOND;
        i := i + 1;
      }
    }

    /** checkLoop while pongs arrive: `seen` is what its ticks load from lastPong, and
        before tick `stopAfter` the select sees the heartbeat stopped.  Returns at the first
        Close the loop calls; that Close stops the heartbeat. */
    method CheckLoop(start: int, ghost pongs: seq<int>, seen: seq<int>, stopAfter: nat)
        returns (closed: bool, closedAt: int, ghost tick: nat)
      requires timeout > 0 && IsHistory(start, pongs) && TickReads(start, timeout, pongs, seen)
      ensures tick <= |seen| && tick <= stopAfter && (closed <==> tick < |seen| && tick < stopAfter)
      ensures forall j :: 0 <= j < tick ==> !Stale(seen[j], TickTime(start, timeout, j), timeout)
      ensures closed ==> Stale(seen[tick], TickTime(start, timeout, tick), timeout) && pongs != []
      ensures closed && retryCount >= 0 ==>
                2 * closedAt == 2 * (start + (tick + 1) * timeout) + retryCount * (retryCount + 1) * 1_000_000_000
      ensures closed && retryCount < 0 ==> closedAt == start + (tick + 1) * timeout
      ensures closed && retryCount >= 0 && Steady(pongs, timeout) ==>
                var last, sleeps := pongs[|pongs| - 1], retryCount * (retryCount + 1) * 1_000_000_000;
                2 * (last + timeout) + sleeps <= 2 * closedAt < 2 * (last + 2 * timeout) + sleeps
      ensures closed && retryCount < 0 && Steady(pongs, timeout) ==>
                var last := pongs[|pongs| - 1];
                last + timeout <= closedAt < last + 2 * timeout
      ensures !closed && |seen| <= stopAfter ==> !LongSilence(start, timeout, pongs, |seen|)
    {
      var n: nat := 0;
      while n < |seen| && n < stopAfter
        invariant n <= |seen| && n <= stopAfter
        invariant forall j :: 0 <= j < n ==> !Stale(seen[j], TickTime(start, timeout, j), timeout)
      {
        var now := TickTime(start, timeout, n);
        if !AliveWith(seen[n], now) {
          var slept := HandleTimeout();
          ClosingTick(start, pongs, timeout, retryCount, slept, seen, n);
          return true, now + slept, n;
        }
        n := n + 1;
      }
      closed, closedAt, tick := false, 0, n;
      if |seen| <= stopAfter {
        NotClosing(start, pongs, timeout, seen);
      }
    }
  }

  lemma NextSleep(i: int)
    ensures i * (i + 1) * SECOND + 2 * ((i + 1) * SECOND) == (i + 1) * (i + 2) * SECOND
  {
    assert (i + 1) * (i + 2) == i * (i + 1) + 2 * (i + 1);
  }

  // ----- The check loop -----

  /** The time of the k-th tick of a ticker started at `start`, counting from 0. */
  function TickTime(start: int, period: int, k: nat): int {
    start + (k + 1) * period
  }

  /** A pong time read at `now` at which checkLoop starts its timeout handling. */
  predicate Stale(lastPong: int, now: int, timeout: int) {
    lastPong != 0 && now - lastPong >= timeout
  }

  /** `v` is what lastPong can hold at `now`: the latest pong, or zero before the first.
      A pong at exactly `now` may or may not have been stored. */
  ghost predicate Reads(pongs: seq<int>, now: int, v: int) {
    && (v == 0 || (v in pongs && v <= now))
    && forall p :: p in pongs && p < now ==> v != 0 && p <= v
  }

  /** Pongs arrive after the start, in order. */
  ghost predicate IsHistory(start: int, pongs: seq<int>) {
    && 0 < start
    && (forall i :: 0 <= i < |pongs| ==> start <= pongs[i])
    && (forall i, j :: 0 <= i < j < |pongs| ==> pongs[i] < pongs[j])
  }

  /** Successive pongs are closer than the timeout. */
  ghost predicate Steady(pongs: seq<int>, timeout: int) {
    forall i :: 0 <= i < |pongs| - 1 ==> pongs[i + 1] - pongs[i] < timeout
  }

  /** While steady pongs continue past a tick, or for one timeout after the last of them,
      the tick does not find the peer timed out. */
  lemma SteadyNeverStale(start: int, pongs: seq<int>, timeout: int, now: int, v: int)
    requires IsHistory(start, pongs) && Steady(pongs, timeout) && Reads(pongs, now, v)
    requires pongs != [] ==> now < pongs[|pongs| - 1] + timeout
    ensures !Stale(v, now, timeout)
  {
    if v != 0 {
      var i :| 0 <= i < |pongs| && pongs[i] == v;
      if i < |pongs| - 1 {
        assert pongs[i + 1] in pongs && pongs[i + 1] > v;
      }
    }
  }

  /** A peer that never sent a pong is never timed out. */
  lemma SilentNeverStale(now: int, timeout: int, v: int)
    requires Reads([], now, v)
    ensures !Stale(v, now, timeout)
  {
  }

  /** After the last pong every later tick reads it, so it is stale from one timeout on. */
  lemma ReadsLast(start: int, pongs: seq<int>, timeout: int, now: int, v: int)
    requires IsHistory(start, pongs) && pongs != [] && Reads(pongs, now, v) && pongs[|pongs| - 1] < now
    ensures v == pongs[|pongs| - 1]
    ensures Stale(v, now, timeout) <==> now >= pongs[|pongs| - 1] + timeout
  {
    assert pongs[|pongs| - 1] in pongs;
  }

  /** The first tick at or after `time`. */
  function FirstTickFrom(start: int, period: int, time: int): (k: nat)
    requires period > 0 && start + period <= time
    ensures time <= TickTime(start, period, k) < time + period
    ensures forall j: nat :: j < k ==> TickTime(start, period, j) < time
  {
    var k: nat := (time - start - 1) / period;
    TickBounds(time - start, period, k);
    forall j: nat | j < k ensures TickTime(start, period, j) < time {
      TickOrder(start, period, j + 1, k);
    }
    k
  }

  lemma TickBounds(d: int, period: int, k: nat)
    requires period > 0 && d >= period && k == (d - 1) / period
    ensures d <= (k + 1) * period < d + period
  {
    assert d - 1 == k * period + (d - 1) % period;
    assert (k + 1) * period == k * period + period;
  }

  lemma TickOrder(start: int, period: int, j: nat, k: nat)
    requires period > 0 && j <= k
    ensures (j + 1) * period - period == j * period && j * period <= k * period
  {
    assert (j + 1) * period == j * period + period;
    assert k * period - j * period == (k - j) * period;
  }

  /** What each tick reads from lastPong. */
  ghost predicate TickReads(start: int, timeout: int, pongs: seq<int>, seen: seq<int>) {
    forall k :: 0 <= k < |seen| ==> Reads(pongs, TickTime(start, timeout, k), seen[k])
  }

  /** What the retries sleep in all. */
  predicate IsRetrySleep(retryCount: int, slept: int) {
    && (retryCount >= 0 ==> 2 * slept == retryCount * (retryCount + 1) * 1_000_000_000)
    && (retryCount < 0 ==> slept == 0)
  }

  /** After steady pongs, the last at T, the one tick that closes lies in
      [T + timeout, T + 2 timeout), and Close follows n(n+1)/2 seconds later. */
  lemma CloseWindow(start: int, pongs: seq<int>, timeout: int, retryCount: int, slept: int, seen: seq<int>, tick: nat)
    requires timeout > 0 && IsHistory(start, pongs) && pongs != [] && Steady(pongs, timeout)
    requires TickReads(start, timeout, pongs, seen) && tick < |seen|
    requires Stale(seen[tick], TickTime(start, timeout, tick), timeout)
    requires forall j :: 0 <= j < tick ==> !Stale(seen[j], TickTime(start, timeout, j), timeout)
    requires IsRetrySleep(retryCount, slept)
    ensures var last, closedAt := pongs[|pongs| - 1], start + (tick + 1) * timeout + slept;
            && (retryCount >= 0 ==>
                  var sleeps := retryCount * (retryCount + 1) * 1_000_000_000;
                  2 * (last + timeout) + sleeps <= 2 * closedAt < 2 * (last + 2 * timeout) + sleeps)
            && (retryCount < 0 ==> last + timeout <= closedAt < last + 2 * timeout)
  {
    var last := pongs[|pongs| - 1];
    var k := FirstTickFrom(start, timeout, last + timeout);
    var now := TickTime(start, timeout, tick);
    if now < last + timeout {
      SteadyNeverStale(start, pongs, timeout, now, seen[tick]);
    }
    if k < tick {
      assert Reads(pongs, TickTime(start, timeout, k), seen[k]);
      ReadsLast(start, pongs, timeout, TickTime(start, timeout, k), seen[k]);
    }
  }

  /** Conversely the loop does close: a stale tick occurs as soon as the ticks go on for
      two timeouts after the last pong. */
  lemma CloseHappens(start: int, pongs: seq<int>, timeout: int, seen: seq<int>)
    requires timeout > 0 && IsHistory(start, pongs) && pongs != []
    requires TickReads(start, timeout, pongs, seen) && seen != []
    requires TickTime(start, timeout, |seen| - 1) >= pongs[|pongs| - 1] + 2 * timeout
    ensures exists k :: 0 <= k < |seen| && Stale(seen[k], TickTime(start, timeout, k), timeout)
  {
    var last := |seen| - 1;
    assert Reads(pongs, TickTime(start, timeout, last), seen[last]);
    ReadsLast(start, pongs, timeout, TickTime(start, timeout, last), seen[last]);
  }

  /** A silence of two timeouts between successive pongs is always noticed, wherever the
      ticks fall, even though pongs resume. */
  lemma GapIsNoticed(start: int, pongs: seq<int>, timeout: int, seen: seq<int>, i: nat)
    requires timeout > 0 && IsHistory(start, pongs) && i + 1 < |pongs|
    requires pongs[i + 1] >= pongs[i] + 2 * timeout
    requires TickReads(start, timeout, pongs, seen)
    requires seen != [] && TickTime(start, timeout, |seen| - 1) >= pongs[i + 1]
    ensures exists k :: 0 <= k < |seen| && Stale(seen[k], TickTime(start, timeout, k), timeout)
  {
    var k := FirstTickFrom(start, timeout, pongs[i] + timeout);
    var now := TickTime(start, timeout, k);
    assert k < |seen|;
    assert Reads(pongs, now, seen[k]);
    assert pongs[i] in pongs && now < pongs[i + 1];
    var j :| 0 <= j < |pongs| && pongs[j] == seen[k];
    assert j <= i;
  }

  /** Without pongs the loop never closes, however long it runs. */
  lemma NeverClosesSilent(start: int, timeout: int, seen: seq<int>, k: nat)
    requires TickReads(start, timeout, [], seen) && k < |seen|
    ensures !Stale(seen[k], TickTime(start, timeout, k), timeout)
  {
    SilentNeverStale(TickTime(start, timeout, k), timeout, seen[k]);
  }

  /** Within `n` ticks, two timeouts passed after the last pong, or between two pongs. */
  ghost predicate LongSilence(start: int, timeout: int, pongs: seq<int>, n: nat) {
    n > 0 && pongs != [] &&
    (|| TickTime(start, timeout, n - 1) >= pongs[|pongs| - 1] + 2 * timeout
     || exists i :: 0 <= i < |pongs| - 1 && pongs[i + 1] >= pongs[i] + 2 * timeout
                    && TickTime(start, timeout, n - 1) >= pongs[i + 1])
  }

  /** What the tick that closes says about the pongs. */
  lemma ClosingTick(start: int, pongs: seq<int>, timeout: int, retryCount: int, slept: int, seen: seq<int>, tick: nat)
    requires timeout > 0 && IsHistory(start, pongs) && TickReads(start, timeout, pongs, seen) && tick < |seen|
    requires Stale(seen[tick], TickTime(start, timeout, tick), timeout)
    requires forall j :: 0 <= j < tick ==> !Stale(seen[j], TickTime(start, timeout, j), timeout)
    requires IsRetrySleep(retryCount, slept)
    ensures pongs != []
    ensures Steady(pongs, timeout) ==>
              var last, closedAt := pongs[|pongs| - 1], start + (tick + 1) * timeout + slept;
              && (retryCount >= 0 ==>
                    var sleeps := retryCount * (retryCount + 1) * 1_000_000_000;
                    2 * (last + timeout) + sleeps <= 2 * closedAt < 2 * (last + 2 * timeout) + sleeps)
              && (retryCount < 0 ==> last + timeout <= closedAt < last + 2 * timeout)
  {
    if pongs == [] {
      NeverClosesSilent(start, timeout, seen, tick);
    } else if Steady(pongs, timeout) {
      CloseWindow(start, pongs, timeout, retryCount, slept, seen, tick);
    }
  }

  /** And what it says about them that no tick closes. */
  lemma NotClosing(start: int, pongs: seq<int>, timeout: int, seen: seq<int>)
    requires timeout > 0 && IsHistory(start, pongs) && TickReads(start, timeout, pongs, seen)
    requires forall j :: 0 <= j < |seen| ==> !Stale(seen[j], TickTime(start, timeout, j), timeout)
    ensures !LongSilence(start, timeout, pongs, |seen|)
  {
    if LongSilence(start, timeout, pongs, |seen|) {
      if TickTime(start, timeout, |seen| - 1) >= pongs[|pongs| - 1] + 2 * timeout {
        CloseHappens(start, pongs, timeout, seen);
      } else {
        var i :| 0 <= i < |pongs| - 1 && pongs[i + 1] >= pongs[i] + 2 * timeout
                 && TickTime(start, timeout, |seen| - 1) >= pongs[i + 1];
        GapIsNoticed(start, pongs, timeout, seen, i);
      }
    }
  }

  // ----- Pings keep the connection from looking idle -----

  /** An open connection and its ping loop; `nextPing` is when the ticker fires next. */
  datatype Activity = Activity(now: int, lastActive: int, nextPing: int, pinging: bool, closed: bool)

  datatype Event = Advance(to: int) | Ping(sent: bool) | OtherSend | Receive | Close | SeeStopped

  /** Send marks activity before it asks the limiter, so a refused ping marks it too; any
      failed ping ends the loop. */
  ghost predicate Next(interval: int, a: Activity, e: Event, a': Activity) {
    match e
    case Advance(to) => a.now <= to && (a.pinging ==> to <= a.nextPing) && a' == a.(now := to)
    case Ping(sent) =>
      && a.pinging && a.now == a.nextPing
      && a' == if a.closed then a.(pinging := false)
               else a.(lastActive := a.now, nextPing := a.now + interval, pinging := sent)
    case OtherSend => a' == if a.closed then a else a.(lastActive := a.now)
    case Receive => a' == a.(lastActive := a.now)
    case Close => a' == a.(closed := true)
    case SeeStopped => a.closed && a' == a.(pinging := false)
  }

  ghost predicate IsRun(interval: int, states: seq<Activity>, events: seq<Event>) {
    && |states| == |events| + 1
    && states[0] == Activity(states[0].now, states[0].now, states[0].now + interval, true, false)
    && forall k: nat :: k < |events| ==> Next(interval, states[k], events[k], states[k + 1])
  }

  ghost predicate Fresh(interval: int, a: Activity) {
    a.pinging && !a.closed ==> a.now <= a.nextPing <= a.lastActive + interval && a.lastActive <= a.now
  }

  lemma {:induction false} AlwaysFresh(interval: int, states: seq<Activity>, events: seq<Event>, k: nat)
    requires interval > 0 && IsRun(interval, states, events) && k < |states|
    ensures Fresh(interval, states[k])
  {
    if k == 0 {
    } else {
      AlwaysFresh(interval, states, events, k - 1);
      assert Next(interval, states[k - 1], events[k - 1], states[k]);
    }
  }

  /** While the connection is open and its ping loop runs, the pool's idle rule does not
      select it, whatever the limiter answered, if the ping interval is within maxIdleTime. */
  lemma PingsMaskIdleness(interval: int, states: seq<Activity>, events: seq<Event>, k: nat,
                          l: Cleanups.Limits, o: Cleanups.Observation)
    requires interval > 0 && IsRun(interval, states, events) && k < |states|
    requires states[k].pinging && !states[k].closed && interval <= l.maxIdleTime
    requires o.idleTime == states[k].now - states[k].lastActive
    ensures o.idleTime <= interval && !Cleanups.IsIdle(l, o)
  {
    AlwaysFresh(interval, states, events, k);
  }
}
