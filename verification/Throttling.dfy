/**
The sliding-window rate limiter.  A call takes the lock, drops entries that have left the window, sleeps
if the window is still full, and records its start.  Times are the readings of the monotonic clock.
*/
module Throttling {
  import opened Wrappers

  /** The call that holds the lock while it sleeps: when it may go on, and when it took the lock. */
  datatype Sleep = Sleep(until: real, since: real)

  /** `entries` is the deque.  `clock` is the latest clock reading, `starts` all recorded starts, `taken`
      the times at which those calls took the lock. */
  datatype Throttle = Throttle(
    entries: seq<real>,
    sleeping: Option<Sleep>,
    clock: real,
    starts: seq<real>,
    taken: seq<real>)

  /** `Call`: a call takes the lock at `now`; if it need not sleep it reads the clock again at `later`.
      `Wake`: the sleep of the lock holder is over.  `Cancel`: it is cancelled instead. */
  datatype Action = Call(now: real, later: real) | Wake(now: real) | Cancel(now: real)

  // ----- The code -------------------------------------------------------------------------------

  function Cleanup(entries: seq<real>, period: real, now: real): seq<real> {
    if entries != [] && entries[0] + period <= now then Cleanup(entries[1..], period, now) else entries
  }

  function CallStep(t: Throttle, limit: nat, period: real, now: real, later: real): Throttle
    requires limit >= 1
  {
    var entries := Cleanup(t.entries, period, now);
    if |entries| >= limit && entries[0] + period - now > 0.0 then
      t.(entries := entries, sleeping := Some(Sleep(entries[0] + period, now)), clock := now)
    else
      t.(entries := entries + [later], clock := later, starts := t.starts + [later], taken := t.taken + [now])
  }

  function WakeStep(t: Throttle, now: real): Throttle
    requires t.sleeping.Some?
  {
    Throttle(t.entries + [now], None, now, t.starts + [now], t.taken + [t.sleeping.value.since])
  }

  function CancelStep(t: Throttle, now: real): Throttle {
    t.(sleeping := None, clock := now)
  }

  const START := Throttle([], None, 0.0, [], [])

  /** Only the lock holder moves on while the lock is held, the clock never runs backwards, and a sleep
      never ends early. */
  ghost predicate Possible(t: Throttle, a: Action) {
    match a
    case Call(now, later) => t.sleeping.None? && t.clock <= now <= later
    case Wake(now) => t.sleeping.Some? && t.clock <= now && t.sleeping.value.until <= now
    case Cancel(now) => t.sleeping.Some? && t.clock <= now
  }

  ghost function Step(t: Throttle, limit: nat, period: real, a: Action): Throttle
    requires limit >= 1 && Possible(t, a)
  {
    match a
    case Call(now, later) => CallStep(t, limit, period, now, later)
    case Wake(now) => WakeStep(t, now)
    case Cancel(now) => CancelStep(t, now)
  }

  // ----- The invariant --------------------------------------------------------------------------

  ghost predicate InOrder(times: seq<real>, i: nat, j: nat)
    requires i < |times| && j < |times|
  {
    times[i] <= times[j]
  }

  ghost predicate Sorted(times: seq<real>) {
    forall i, j {:trigger InOrder(times, i, j)} | 0 <= i < j < |times| :: InOrder(times, i, j)
  }

  ghost predicate Apart(starts: seq<real>, period: real, k: nat, l: nat)
    requires k < |starts| && l < |starts|
  {
    starts[k] + period <= starts[l]
  }

  /** The guarantee: a start and the `limit`-th start after it are at least a period apart. */
  ghost predicate Spaced(starts: seq<real>, limit: nat, period: real) {
    forall k, l {:trigger Apart(starts, period, k, l)} | 0 <= k < l < |starts| && l == k + limit ::
      Apart(starts, period, k, l)
  }

  /** The deque holds the latest starts; the others have left the window. */
  ghost predicate Window(starts: seq<real>, entries: seq<real>, period: real, clock: real) {
    && |entries| <= |starts|
    && entries == starts[|starts| - |entries|..]
    && (forall i | 0 <= i < |starts| - |entries| :: starts[i] + period <= clock)
  }

  ghost predicate History(starts: seq<real>, limit: nat, period: real, clock: real) {
    && Spaced(starts, limit, period)
    && Sorted(starts)
    && (forall i | 0 <= i < |starts| :: starts[i] <= clock)
  }

  ghost predicate Inv(t: Throttle, limit: nat, period: real) {
    && History(t.starts, limit, period, t.clock)
    && |t.starts| == |t.taken|
    && Window(t.starts, t.entries, period, t.clock)
    && match t.sleeping
       case None =>
         && |t.entries| <= limit + 1
         // one entry too many is possible after a sleep, but it has left the window by then
         && (|t.entries| == limit + 1 ==> t.entries[0] + period <= t.clock)
       case Some(sleep) =>
         |t.entries| == limit >= 1 && sleep.until == t.entries[0] + period > t.clock >= sleep.since
  }

  /** Cleaning drops exactly the leading entries that have left the window. */
  lemma {:induction false} CleanupDropsExpired(entries: seq<real>, period: real, now: real)
    ensures var kept := Cleanup(entries, period, now);
            && |kept| <= |entries|
            && kept == entries[|entries| - |kept|..]
            && (forall i | 0 <= i < |entries| - |kept| :: entries[i] + period <= now)
            && (kept != [] ==> now < kept[0] + period)
  {
    if entries != [] && entries[0] + period <= now {
      var rest := entries[1..];
      CleanupDropsExpired(rest, period, now);
      var kept := Cleanup(rest, period, now);
      forall i | 0 <= i < |entries| - |kept| ensures entries[i] + period <= now {
        assert i > 0 ==> entries[i] == rest[i - 1];
      }
    }
  }

  /** Recording a start keeps the guarantee when the start `limit` places back has left the window. */
  lemma RecordKeepsHistory(starts: seq<real>, limit: nat, period: real, clock: real, now: real)
    requires limit >= 1 && History(starts, limit, period, clock) && clock <= now
    requires |starts| >= limit ==> starts[|starts| - limit] + period <= now
    ensures History(starts + [now], limit, period, now)
  {
    var all := starts + [now];
    forall k, l | 0 <= k < l < |all| && l == k + limit ensures Apart(all, period, k, l) {
      assert l < |starts| ==> Apart(starts, period, k, l);
    }
    forall i, j | 0 <= i < j < |all| ensures InOrder(all, i, j) {
      assert j < |starts| ==> InOrder(starts, i, j);
    }
  }

  lemma RecordKeepsWindow(starts: seq<real>, entries: seq<real>, period: real, clock: real, now: real)
    requires Window(starts, entries, period, clock) && clock <= now
    ensures Window(starts + [now], entries + [now], period, now)
  {
    assert entries + [now] == (starts + [now])[|starts| - |entries|..];
  }

  /** After cleaning at most `limit` entries are left, and everything dropped has left the window. */
  lemma CleanedEntries(t: Throttle, limit: nat, period: real, now: real)
    requires limit >= 1 && Inv(t, limit, period) && t.sleeping.None? && t.clock <= now
    ensures var entries := Cleanup(t.entries, period, now);
            && |entries| <= limit
            && Window(t.starts, entries, period, now)
            && (entries != [] ==> now < entries[0] + period)
  {
    var entries, n := Cleanup(t.entries, period, now), |t.starts|;
    CleanupDropsExpired(t.entries, period, now);
    assert entries == t.starts[n - |entries|..];
    forall i | 0 <= i < n - |entries| ensures t.starts[i] + period <= now {
      assert i >= n - |t.entries| ==> t.starts[i] == t.entries[i - (n - |t.entries|)];
    }
    assert |entries| == |t.entries| ==> entries == t.entries;
  }

  lemma CallKeepsInv(t: Throttle, limit: nat, period: real, now: real, later: real)
    requires limit >= 1 && Inv(t, limit, period) && Possible(t, Call(now, later))
    ensures Inv(CallStep(t, limit, period, now, later), limit, period)
  {
    var entries := Cleanup(t.entries, period, now);
    CleanedEntries(t, limit, period, now);
    if |entries| < limit {
      assert History(t.starts, limit, period, now);
      RecordKeepsHistory(t.starts, limit, period, now, later);
      RecordKeepsWindow(t.starts, entries, period, now, later);
    }
  }

  lemma WakeKeepsInv(t: Throttle, limit: nat, period: real, now: real)
    requires limit >= 1 && Inv(t, limit, period) && Possible(t, Wake(now))
    ensures Inv(WakeStep(t, now), limit, period)
  {
    assert t.entries[0] == t.starts[|t.starts| - limit];
    RecordKeepsHistory(t.starts, limit, period, t.clock, now);
    RecordKeepsWindow(t.starts, t.entries, period, t.clock, now);
  }

  // ----- Runs -----------------------------------------------------------------------------------

  ghost predicate IsRun(t: Throttle, limit: nat, period: real, actions: seq<Action>)
    requires limit >= 1
    decreases |actions|
  {
    actions == [] || (Possible(t, actions[0]) && IsRun(Step(t, limit, period, actions[0]), limit, period, actions[1..]))
  }

  ghost function Last(t: Throttle, limit: nat, period: real, actions: seq<Action>): Throttle
    requires limit >= 1 && IsRun(t, limit, period, actions)
    decreases |actions|
  {
    if actions == [] then t else Last(Step(t, limit, period, actions[0]), limit, period, actions[1..])
  }

  lemma {:induction false} RunsKeepInv(t: Throttle, limit: nat, period: real, actions: seq<Action>)
    requires limit >= 1 && Inv(t, limit, period) && IsRun(t, limit, period, actions)
    ensures Inv(Last(t, limit, period, actions), limit, period)
    decreases |actions|
  {
    if actions != [] {
      match actions[0] {
        case Call(now, later) => CallKeepsInv(t, limit, period, now, later);
        case Wake(now) => WakeKeepsInv(t, limit, period, now);
        case Cancel(now) =>
      }
      RunsKeepInv(Step(t, limit, period, actions[0]), limit, period, actions[1..]);
    }
  }

  /** Over any history of calls, including cancelled ones, no window of one period, wherever it begins,
      contains more than `limit` starts. */
  lemma RateIsBounded(limit: nat, period: real, actions: seq<Action>, x: real, i: nat, j: nat)
    requires limit >= 1 && IsRun(START, limit, period, actions)
    ensures var starts := Last(START, limit, period, actions).starts;
            && Spaced(starts, limit, period)
            && (i <= j < |starts| && x <= starts[i] && starts[j] < x + period ==> j - i + 1 <= limit)
  {
    RunsKeepInv(START, limit, period, actions);
    var starts := Last(START, limit, period, actions).starts;
    if i + limit <= j < |starts| {
      assert Apart(starts, period, i, i + limit);
      assert i + limit < j ==> InOrder(starts, i + limit, j);
    }
  }

  /** Sleeps that end exactly on time and a clock that does not advance within a step. */
  ghost predicate OnTime(t: Throttle, a: Action) {
    match a
    case Call(now, later) => now == later
    case Wake(now) => t.sleeping.Some? && now == t.sleeping.value.until
    case Cancel(_) => true
  }

  ghost predicate IsOnTime(t: Throttle, limit: nat, period: real, actions: seq<Action>)
    requires limit >= 1 && IsRun(t, limit, period, actions)
    decreases |actions|
  {
    actions != [] ==>
      OnTime(t, actions[0]) && IsOnTime(Step(t, limit, period, actions[0]), limit, period, actions[1..])
  }

  /** A start is the earliest time the bound allows: when the call took the lock, or one period after the
      start `limit` places before it, whichever is later. */
  ghost predicate EarliestAt(starts: seq<real>, taken: seq<real>, limit: nat, period: real, k: nat)
    requires k < |starts| == |taken|
  {
    starts[k] == if k >= limit && taken[k] < starts[k - limit] + period then starts[k - limit] + period else taken[k]
  }

  ghost predicate Earliest(starts: seq<real>, taken: seq<real>, limit: nat, period: real) {
    && |starts| == |taken|
    && forall k {:trigger EarliestAt(starts, taken, limit, period, k)} | 0 <= k < |starts| ::
         EarliestAt(starts, taken, limit, period, k)
  }

  lemma RecordEarliest(starts: seq<real>, taken: seq<real>, limit: nat, period: real, start: real, lock: real)
    requires limit >= 1 && Earliest(starts, taken, limit, period)
    requires var n := |starts|;
             start == if n >= limit && lock < starts[n - limit] + period then starts[n - limit] + period else lock
    ensures Earliest(starts + [start], taken + [lock], limit, period)
  {
    forall k | 0 <= k <= |starts| ensures EarliestAt(starts + [start], taken + [lock], limit, period, k) {
      assert k < |starts| ==> EarliestAt(starts, taken, limit, period, k);
    }
  }

  lemma CallIsEarliest(t: Throttle, limit: nat, period: real, now: real)
    requires limit >= 1 && Inv(t, limit, period) && Possible(t, Call(now, now))
    requires Earliest(t.starts, t.taken, limit, period)
    ensures var u := CallStep(t, limit, period, now, now); Earliest(u.starts, u.taken, limit, period)
  {
    CleanedEntries(t, limit, period, now);
    if |Cleanup(t.entries, period, now)| < limit {
      RecordEarliest(t.starts, t.taken, limit, period, now, now);
    }
  }

  lemma WakeIsEarliest(t: Throttle, limit: nat, period: real, now: real)
    requires limit >= 1 && Inv(t, limit, period) && Possible(t, Wake(now))
    requires Earliest(t.starts, t.taken, limit, period) && now == t.sleeping.value.until
    ensures var u := WakeStep(t, now); Earliest(u.starts, u.taken, limit, period)
  {
    assert t.entries[0] == t.starts[|t.starts| - limit];
    RecordEarliest(t.starts, t.taken, limit, period, now, t.sleeping.value.since);
  }

  /** With sleeps that end on time no call waits longer than the bound requires. */
  lemma {:induction false} NoCallWaitsLonger(t: Throttle, limit: nat, period: real, actions: seq<Action>)
    requires limit >= 1 && Inv(t, limit, period) && Earliest(t.starts, t.taken, limit, period)
    requires IsRun(t, limit, period, actions) && IsOnTime(t, limit, period, actions)
    ensures var u := Last(t, limit, period, actions);
            Earliest(u.starts, u.taken, limit, period)
    decreases |actions|
  {
    if actions != [] {
      match actions[0] {
        case Call(now, later) =>
          CallKeepsInv(t, limit, period, now, later);
          CallIsEarliest(t, limit, period, now);
        case Wake(now) =>
          WakeKeepsInv(t, limit, period, now);
          WakeIsEarliest(t, limit, period, now);
        case Cancel(now) =>
      }
      NoCallWaitsLonger(Step(t, limit, period, actions[0]), limit, period, actions[1..]);
    }
  }

  /** A call sleeps exactly when `limit` calls started within the period before it took the lock, and until the first
      of them is that long ago; otherwise it starts at once. */
  lemma CallSleepsIff(t: Throttle, limit: nat, period: real, now: real, later: real)
    requires limit >= 1 && Inv(t, limit, period) && Possible(t, Call(now, later))
    ensures var u, n := CallStep(t, limit, period, now, later), |t.starts|;
            if n >= limit && now < t.starts[n - limit] + period then
              u.sleeping == Some(Sleep(t.starts[n - limit] + period, now)) && u.starts == t.starts && u.taken == t.taken
            else
              u.sleeping.None? && u.starts == t.starts + [later] && u.taken == t.taken + [now]
  {
    CleanedEntries(t, limit, period, now);
  }

  /** When a sleep is over the call starts; when it is cancelled nothing starts, and the lock is free either way. */
  lemma SleepEnds(t: Throttle, limit: nat, period: real, now: real)
    requires limit >= 1 && Inv(t, limit, period) && t.sleeping.Some? && t.clock <= now
    ensures var u := WakeStep(t, now);
            u.sleeping.None? && u.starts == t.starts + [now] && u.taken == t.taken + [t.sleeping.value.since]
    ensures var u := CancelStep(t, now); u.sleeping.None? && u.starts == t.starts && u.taken == t.taken
    ensures WakeStep(t, now).clock == CancelStep(t, now).clock == now
  {
  }

  // ----- The object -----------------------------------------------------------------------------

  class Throttled {
    const limit: nat
    const period: real
    var entries: seq<real>
    var locked: bool
    ghost var state: Throttle

    ghost predicate Valid()
      reads this
    {
      && limit >= 1
      && Inv(state, limit, period)
      && entries == state.entries
      && locked == state.sleeping.Some?
    }

    constructor (limit: nat, period: real)
      requires limit >= 1
      ensures Valid() && state == START && this.limit == limit && this.period == period
    {
      this.limit, this.period := limit, period;
      entries, locked, state := [], false, START;
    }

    /** The body of `async with lock` up to the sleep: how long to sleep, or nothing if the start was
        recorded at once. */
    method Enter(now: real, later: real) returns (waitFor: Option<real>)
      requires Valid() && Possible(state, Call(now, later))
      modifies this
      ensures Valid() && state == CallStep(old(state), limit, period, now, later)
      ensures match state.sleeping
              case None => waitFor == None
              case Some(sleep) => waitFor == Some(sleep.until - now) && waitFor.value > 0.0
    {
      CallKeepsInv(state, limit, period, now, later);
      CleanupDropsExpired(entries, period, now);
      while entries != [] && entries[0] + period <= now
        invariant Cleanup(entries, period, now) == Cleanup(old(entries), period, now)
        invariant state == old(state) && locked == old(locked)
        decreases |entries|
      {
        entries := entries[1..];
      }
      state := CallStep(state, limit, period, now, later);
      waitFor := None;
      if |entries| >= limit {
        var remaining := entries[0] + period - now;
        if remaining > 0.0 {
          locked := true;
          return Some(remaining);
        }
      }
      entries := entries + [later];
    }

    /** The body after the sleep. */
    method Wake(now: real)
      requires Valid() && Possible(state, Action.Wake(now))
      modifies this
      ensures Valid() && state == WakeStep(old(state), now)
    {
      WakeKeepsInv(state, limit, period, now);
      entries := entries + [now];
      locked := false;
      state := WakeStep(state, now);
    }

    /** A cancelled sleep releases the lock without a start. */
    method CancelSleep(now: real)
      requires Valid() && Possible(state, Cancel(now))
      modifies this
      ensures Valid() && state == CancelStep(old(state), now)
    {
      locked := false;
      state := CancelStep(state, now);
    }
  }
}
