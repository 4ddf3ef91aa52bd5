/** The limit on boots for the charge splash (common/chargesplash.c): a ring of the last request
    times, and a lockout. */
module Chargesplash {

  /** Requests allowed per period, and the period in seconds. */
  datatype Config = Config(limit: nat, period: nat)

  // ----- The policy, on the whole history -----

  /** The times of all requests since the last reset, and the lockout. */
  datatype State = State(requests: seq<nat>, locked: bool)

  predicate Expired(c: Config, time: nat, now: nat) {
    now - time >= c.period
  }

  /** The request `limit` places back is out of the period, or there is none. */
  predicate RingExpired(c: Config, s: State, now: nat)
    requires c.limit >= 1
  {
    |s.requests| < c.limit || Expired(c, s.requests[|s.requests| - c.limit], now)
  }

  /** Not locked out, or no request within the period. */
  predicate LockoutClears(c: Config, s: State, now: nat) {
    !s.locked || s.requests == [] || Expired(c, s.requests[|s.requests| - 1], now)
  }

  predicate Permitted(c: Config, s: State, now: nat)
    requires c.limit >= 1
  {
    LockoutClears(c, s, now) && RingExpired(c, s, now)
  }

  function Next(c: Config, s: State, now: nat): State
    requires c.limit >= 1
  {
    State(s.requests + [now], !LockoutClears(c, s, now) || !RingExpired(c, s, now))
  }

  // ----- The ring -----

  /** The slot written d requests ago, counting from the latest. */
  function Slot(size: nat, ptr: nat, d: nat): (i: nat)
    requires d < size && ptr < size
    ensures i < size
  {
    if d < ptr then ptr - 1 - d else ptr - 1 - d + size
  }

  /** Slot d holds the d-th latest request; 0 marks a slot that is not filled. */
  ghost predicate Holds(log: seq<nat>, ptr: nat, requests: seq<nat>) {
    && ptr < |log|
    && (forall d | 0 <= d < |log| ::
          log[Slot(|log|, ptr, d)] == if d < |requests| then requests[|requests| - 1 - d] else 0)
  }

  lemma Pushed(log: seq<nat>, ptr: nat, requests: seq<nat>, now: nat)
    requires Holds(log, ptr, requests)
    ensures Holds(log[ptr := now], if ptr + 1 == |log| then 0 else ptr + 1, requests + [now])
  {
    var size, ptr', log', all := |log|, if ptr + 1 == |log| then 0 else ptr + 1, log[ptr := now], requests + [now];
    forall d | 0 <= d < size
      ensures log'[Slot(size, ptr', d)] == if d < |all| then all[|all| - 1 - d] else 0
    {
      if d == 0 {
        assert Slot(size, ptr', 0) == ptr;
      } else {
        assert Slot(size, ptr', d) == Slot(size, ptr, d - 1) != ptr;
      }
    }
  }

  lemma Oldest(log: seq<nat>, ptr: nat, requests: seq<nat>)
    requires Holds(log, ptr, requests)
    ensures log[ptr] == if |requests| < |log| then 0 else requests[|requests| - |log|]
  {
    assert Slot(|log|, ptr, |log| - 1) == ptr;
  }

  /** Every slot is one of them. */
  function Age(size: nat, ptr: nat, i: nat): (d: nat)
    requires i < size && ptr < size
    ensures d < size && Slot(size, ptr, d) == i
  {
    if i < ptr then ptr - 1 - i else ptr - 1 - i + size
  }

  class Limiter {
    const config: Config
    const log: array<nat>
    var logPtr: nat
    var lockedOut: bool
    ghost var history: State

    ghost predicate Valid()
      reads this, log
    {
      && log.Length == config.limit >= 1 && logPtr < log.Length
      && lockedOut == history.locked
      && Increasing(history.requests)
      && Holds(log[..], logPtr, history.requests)
    }

    constructor (c: Config)
      requires c.limit >= 1
      ensures Valid() && config == c && history == State([], false) && fresh(log)
    {
      config := c;
      log := new nat[c.limit](_ => 0);
      logPtr, lockedOut, history := 0, false, State([], false);
    }

    /** timestamp_is_expired (lines 59-67). */
    predicate TimestampIsExpired(timestamp: nat, now: nat) {
      timestamp == 0 || now - timestamp >= config.period
    }

    /** lockout_can_be_cleared (lines 73-85). */
    method LockoutCanBeCleared(now: nat) returns (clear: bool)
      requires Valid() && InOrder(history.requests, now)
      ensures clear == LockoutClears(config, history, now)
    {
      if !lockedOut {
        return true;
      }
      for i := 0 to log.Length
        invariant forall k | 0 <= k < i :: TimestampIsExpired(log[k], now)
      {
        if !TimestampIsExpired(log[i], now) {
          ghost var d := Age(log.Length, logPtr, i);
          assert log[..][i] == history.requests[|history.requests| - 1 - d];
          return false;
        }
      }
      assert log[..][Slot(log.Length, logPtr, 0)] == log[Slot(log.Length, logPtr, 0)];
      return true;
    }

    /** log_request (lines 92-112): the ring decides as the whole history would. */
    method LogRequest(now: nat) returns (permitted: bool)
      requires Valid() && InOrder(history.requests, now)
      modifies this, log
      ensures Valid() && history == Next(config, old(history), now)
      ensures permitted == Permitted(config, old(history), now)
    {
      hide Holds;
      var inhibit := false;
      var clear := LockoutCanBeCleared(now);
      if clear {
        lockedOut := false;
      } else {
        inhibit := true;
      }
      Oldest(log[..], logPtr, history.requests);
      assert log[..][logPtr] == log[logPtr];
      if !TimestampIsExpired(log[logPtr], now) {
        lockedOut := true;
        inhibit := true;
      }
      Pushed(log[..], logPtr, history.requests, now);
      ghost var before := log[..];
      log[logPtr] := now;
      assert log[..] == before[logPtr := now];
      logPtr := if logPtr + 1 == log.Length then 0 else logPtr + 1;
      history := Next(config, history, now);
      return !inhibit;
    }

    /** reset_state (lines 115-121): the pointer stays where it is. */
    method ResetState()
      requires Valid()
      modifies this, log
      ensures Valid() && history == State([], false)
    {
      lockedOut := false;
      for i := 0 to log.Length
        modifies log
        invariant forall k | 0 <= k < i :: log[k] == 0
      {
        log[i] := 0;
      }
      history := State([], false);
    }
  }

  ghost predicate Increasing(times: seq<nat>) {
    && (forall i | 0 <= i < |times| :: times[i] > 0)
    && (forall i, j | 0 <= i < j < |times| :: times[i] <= times[j])
  }

  /** The clock, in seconds, is past zero and does not run backwards. */
  ghost predicate InOrder(times: seq<nat>, now: nat) {
    now > 0 && forall i | 0 <= i < |times| :: times[i] <= now
  }

  // ----- Runs -----

  /** The state after the first n requests of a run. */
  function After(c: Config, times: seq<nat>, n: nat): (s: State)
    requires c.limit >= 1 && n <= |times|
    ensures s.requests == times[..n]
  {
    if n == 0 then State([], false) else Next(c, After(c, times, n - 1), times[n - 1])
  }

  predicate PermittedAt(c: Config, times: seq<nat>, k: nat)
    requires c.limit >= 1 && k < |times|
  {
    Permitted(c, After(c, times, k), times[k])
  }

  /** How many of the requests from a to just before b were permitted. */
  function Boots(c: Config, times: seq<nat>, a: nat, b: nat): (n: nat)
    requires c.limit >= 1 && a <= b <= |times|
    ensures n <= b - a
  {
    if a == b then 0 else Boots(c, times, a, b - 1) + if PermittedAt(c, times, b - 1) then 1 else 0
  }

  /** A permitted request comes a full period after the one `limit` places back. */
  lemma PermittedSpans(c: Config, times: seq<nat>, k: nat)
    requires c.limit >= 1 && k < |times| && PermittedAt(c, times, k) && k >= c.limit
    ensures times[k] - times[k - c.limit] >= c.period
  {
    hide After;
    var s := After(c, times, k);
    assert s.requests[k - c.limit] == times[k - c.limit];
  }

  /** The rate limit: requests with more than `limit` boots among them span a full period, so no
      window shorter than the period sees more than `limit` boots. */
  lemma {:induction false} WindowLimit(c: Config, times: seq<nat>, a: nat, b: nat)
    requires c.limit >= 1 && a < b <= |times| && Increasing(times) && Boots(c, times, a, b) > c.limit
    ensures times[b - 1] - times[a] >= c.period
  {
    hide After, PermittedAt;
    if PermittedAt(c, times, b - 1) {
      PermittedSpans(c, times, b - 1);
    } else {
      WindowLimit(c, times, a, b - 1);
    }
  }

  /** While locked out, a request is permitted exactly when it comes a full period after the
      previous one; it then ends the lockout. */
  lemma LockedOutUntilQuiet(c: Config, times: seq<nat>, k: nat)
    requires c.limit >= 1 && 1 <= k < |times| && Increasing(times) && After(c, times, k).locked
    ensures PermittedAt(c, times, k) <==> times[k] - times[k - 1] >= c.period
    ensures After(c, times, k + 1).locked <==> !PermittedAt(c, times, k)
  {
    var s := After(c, times, k);
    assert s.requests[k - 1] == times[k - 1];
    if k >= c.limit {
      assert s.requests[k - c.limit] == times[k - c.limit];
    }
  }

  /** As long as requests keep coming within the period, a lockout lasts. */
  lemma {:induction false} LockoutLasts(c: Config, times: seq<nat>, j: nat, k: nat)
    requires c.limit >= 1 && 1 <= j <= k < |times| && Increasing(times) && After(c, times, j).locked
    requires forall i | j <= i <= k :: times[i] - times[i - 1] < c.period
    ensures After(c, times, k).locked && !PermittedAt(c, times, k)
  {
    hide After;
    if j < k {
      LockoutLasts(c, times, j, k - 1);
      LockedOutUntilQuiet(c, times, k - 1);
    }
    LockedOutUntilQuiet(c, times, k);
  }

  /** A lockout starts exactly with a request that comes too soon after the one `limit` places back. */
  lemma LockoutStarts(c: Config, times: seq<nat>, k: nat)
    requires c.limit >= 1 && k < |times| && !After(c, times, k).locked
    ensures After(c, times, k + 1).locked <==> !PermittedAt(c, times, k)
    ensures PermittedAt(c, times, k) <==> k < c.limit || times[k] - times[k - c.limit] >= c.period
  {
    var s := After(c, times, k);
    if k >= c.limit {
      assert s.requests[k - c.limit] == times[k - c.limit];
    }
  }
}
