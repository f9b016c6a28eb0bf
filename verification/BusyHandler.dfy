/** The busy handler: how long a statement waits for a lock before it gives up. */
module BusyHandler {
  import opened Outcome

  /** Durations and instants are in nanoseconds. */
  const MILLIS: nat := 1_000_000

  const I32_MAX: int := 0x7FFF_FFFF

  const DELAYS: seq<nat> := [1, 2, 5, 10, 15, 20, 25, 25, 25, 50, 50, 100]
  const TOTALS: seq<nat> := [0, 1, 3, 8, 18, 33, 53, 78, 103, 128, 178, 228]

  datatype Handler = NoHandler | Timeout(max: nat) | Custom(callback: int -> int)

  /** `Overflow` is the arithmetic overflow of the invocation count. */
  datatype Answer = Retry | GiveUp | Overflow

  // ----- the schedule -----

  function Min(a: nat, b: nat): nat {
    if a <= b then a else b
  }

  /** The delay of an iteration: the table, then 100 ms for ever. */
  function Delay(n: nat): (d: nat)
    ensures d > 0
  {
    DELAYS[Min(n, 11)] * MILLIS
  }

  /** The time the earlier iterations took, as the code computes it. */
  function Prior(n: nat): nat {
    TOTALS[Min(n, 11)] * MILLIS + (if n >= 12 then Delay(n) * (n - 11) else 0)
  }

  function DelaysUpTo(n: nat): nat {
    if n == 0 then 0 else DelaysUpTo(n - 1) + Delay(n - 1)
  }

  /** The cumulative table, with its continuation, is the partial sums of the delays. */
  lemma {:induction false} PriorIsSum(n: nat)
    ensures Prior(n) == DelaysUpTo(n)
  {
    if n > 0 {
      PriorIsSum(n - 1);
      PriorStep(n - 1);
    }
  }

  lemma PriorStep(n: nat)
    ensures Prior(n + 1) == Prior(n) + Delay(n)
  {
  }

  /** The delay granted at an iteration, if any. */
  function Grant(max: nat, n: nat): Option<nat> {
    if Prior(n) + Delay(n) <= max then Some(Delay(n))
    else if max > Prior(n) then Some(max - Prior(n))
    else None
  }

  // ----- one locking event -----

  /** The iteration reached and the delays granted after `n` invocations with the same timeout. */
  datatype Event = Event(iteration: nat, granted: seq<nat>, refused: bool)

  function After(max: nat, n: nat): Event {
    if n == 0 then Event(0, [], false) else Next(max, After(max, n - 1))
  }

  function Next(max: nat, e: Event): Event {
    match Grant(max, e.iteration)
    case None => e.(refused := true)
    case Some(d) => Event(e.iteration + 1, e.granted + [d], e.refused)
  }

  function Total(granted: seq<nat>): nat {
    if granted == [] then 0 else Total(granted[..|granted| - 1]) + granted[|granted| - 1]
  }

  /** Everything about an event follows from the iteration it reached. */
  predicate Follows(max: nat, n: nat, e: Event) {
    && e.iteration == |e.granted| <= n
    && Total(e.granted) == Min(Prior(e.iteration), max)
    && (e.refused ==> Prior(e.iteration) >= max)
    && (!e.refused ==> e.iteration == n)
  }

  lemma {:induction false} EventIs(max: nat, n: nat)
    ensures Follows(max, n, After(max, n))
  {
    hide *;
    if n == 0 {
      NothingGranted(max);
    } else {
      EventIs(max, n - 1);
      AfterStep(max, n - 1);
      FollowsStep(max, n - 1, After(max, n - 1));
    }
  }

  lemma NothingGranted(max: nat)
    ensures Follows(max, 0, After(max, 0))
  {
    assert Prior(0) == 0;
    hide Prior;
  }

  lemma FollowsStep(max: nat, n: nat, e: Event)
    requires Follows(max, n, e)
    ensures Follows(max, n + 1, Next(max, e))
  {
    hide Prior, Delay, Total;
    PriorStep(e.iteration);
    var g := Grant(max, e.iteration);
    if g.Some? {
      TotalStep(e.granted, g.value);
    }
  }

  lemma AfterStep(max: nat, n: nat)
    ensures After(max, n + 1) == Next(max, After(max, n))
  {
    hide Next;
  }

  lemma TotalStep(granted: seq<nat>, d: nat)
    ensures Total(granted + [d]) == Total(granted) + d
  {
    assert (granted + [d])[..|granted|] == granted;
  }

  /** The delays granted never add up to more than the timeout, and when the handler first refuses they
      add up to exactly that; then it refuses until it is reset. */
  lemma WaitsExactlyTheTimeout(max: nat, n: nat, k: nat)
    requires k <= |After(max, n).granted|
    ensures Total(After(max, n).granted[..k]) <= max
    ensures After(max, n).refused ==> Total(After(max, n).granted) == max && After(max, n + 1) == After(max, n)
  {
    EventIs(max, n);
    TotalGrows(After(max, n).granted, k);
    hide Prior, Delay, Total;
  }

  lemma {:induction false} TotalGrows(granted: seq<nat>, k: nat)
    requires k <= |granted|
    ensures Total(granted[..k]) <= Total(granted)
  {
    if k == |granted| {
      assert granted[..k] == granted;
    } else {
      var front := granted[..|granted| - 1];
      TotalGrows(front, k);
      assert front[..k] == granted[..k];
    }
  }

  lemma {:induction false} PriorAtLeast(n: nat)
    ensures Prior(n) >= n * MILLIS
  {
    if n > 0 {
      PriorAtLeast(n - 1);
      PriorStep(n - 1);
      DelayAtLeast(n - 1);
      hide Prior, Delay;
      assert n * MILLIS == (n - 1) * MILLIS + MILLIS;
    }
  }

  lemma DelayAtLeast(n: nat)
    ensures Delay(n) >= MILLIS
  {
  }

  /** The handler does refuse in the end. */
  lemma RefusesInTheEnd(max: nat)
    ensures After(max, max / MILLIS + 2).refused
  {
    var n := max / MILLIS + 1;
    EventIs(max, n);
    PriorAtLeast(n);
    hide Prior, Delay;
    assert n * MILLIS > max;
  }

  /** The counter overflows within one event only if the timeout is longer than the whole of its range. */
  lemma {:induction false} CounterSuffices(max: nat, n: nat)
    requires max <= Prior(I32_MAX)
    ensures After(max, n).iteration <= I32_MAX
    decreases n
  {
    if n > 0 {
      hide Prior;
      CounterSuffices(max, n - 1);
    }
  }

  // ----- the state -----

  class BusyHandlerState {
    var invocationCount: int
    var timeout: int
    var iteration: nat

    /** Every iteration is an invocation, so the narrowing of `iteration` to 32 bits loses nothing. */
    ghost predicate Valid()
      reads this
    {
      iteration <= invocationCount <= I32_MAX
    }

    constructor (now: int)
      ensures Valid() && invocationCount == 0 && timeout == now && iteration == 0
    {
      invocationCount, timeout, iteration := 0, now, 0;
    }

    method Reset(now: int)
      modifies this
      ensures Valid() && invocationCount == 0 && timeout == now && iteration == 0
    {
      invocationCount, timeout, iteration := 0, now, 0;
    }

    /** The iteration has moved on when the count overflows, and nothing else has. */
    twostate predicate Overflowed()
      reads this
    {
      iteration == old(iteration) + 1 && invocationCount == old(invocationCount) && timeout == old(timeout)
    }

    method Invoke(handler: Handler, now: int) returns (a: Answer)
      requires Valid()
      modifies this
      ensures a != Overflow ==> Valid()
      ensures handler.NoHandler? ==> a == GiveUp && unchanged(this)
      ensures handler.Timeout? ==>
        var grant := Grant(handler.max, old(iteration));
        && (grant.None? ==> a == GiveUp && unchanged(this))
        && (grant.Some? && old(invocationCount) == I32_MAX ==> a == Overflow && Overflowed())
        && (grant.Some? && old(invocationCount) < I32_MAX ==>
              && a == Retry && timeout == now + grant.value
              && iteration == old(iteration) + 1 && invocationCount == old(invocationCount) + 1)
      ensures handler.Custom? && old(invocationCount) == I32_MAX ==> a == Overflow && unchanged(this)
      ensures handler.Custom? && old(invocationCount) < I32_MAX ==>
        && invocationCount == old(invocationCount) + 1 && iteration == old(iteration)
        && a == (if handler.callback(old(invocationCount)) != 0 then Retry else GiveUp)
        && timeout == (if a == Retry then now + MILLIS else old(timeout))
    {
      match handler
      case NoHandler =>
        a := GiveUp;
      case Timeout(max) =>
        a := InvokeTimeoutHandler(max, now);
      case Custom(callback) =>
        var result := callback(invocationCount);
        if invocationCount == I32_MAX {
          return Overflow;
        }
        invocationCount := invocationCount + 1;
        if result != 0 {
          timeout := now + MILLIS;
          a := Retry;
        } else {
          a := GiveUp;
        }
    }

    method InvokeTimeoutHandler(max: nat, now: int) returns (a: Answer)
      requires Valid()
      modifies this
      ensures a != Overflow ==> Valid()
      ensures var grant := Grant(max, old(iteration));
        && (grant.None? ==> a == GiveUp && unchanged(this))
        && (grant.Some? && old(invocationCount) == I32_MAX ==> a == Overflow && Overflowed())
        && (grant.Some? && old(invocationCount) < I32_MAX ==>
              && a == Retry && timeout == now + grant.value
              && iteration == old(iteration) + 1 && invocationCount == old(invocationCount) + 1)
    {
      var idx := Min(iteration, 11);
      var delay := DELAYS[idx] * MILLIS;
      var prior := TOTALS[idx] * MILLIS;
      if iteration >= 12 {
        var narrowed := iteration % 0x1_0000_0000;
        prior := prior + delay * (narrowed - 11);
      }
      if prior + delay > max {
        delay := if max >= prior then max - prior else 0;
        if delay == 0 {
          return GiveUp;
        }
      }
      iteration := iteration + 1;
      if invocationCount == I32_MAX {
        return Overflow;
      }
      invocationCount := invocationCount + 1;
      timeout := now + delay;
      a := Retry;
    }

    /** What is left to wait. */
    function GetDelay(now: int): (d: nat)
      reads this
      ensures d == 0 <==> now >= timeout
      ensures now < timeout ==> now + d == timeout
    {
      if now >= timeout then 0 else timeout - now
    }
  }

  /** A statement that keeps failing to get its lock invokes the handler over and over; the waits it is
      given are those of the schedule. */
  method WaitForLock(max: nat, attempts: nat, now: int) returns (granted: seq<nat>, refused: bool, clock: int)
    requires max <= Prior(I32_MAX)
    ensures granted == After(max, attempts).granted && refused == After(max, attempts).refused
    ensures clock == now + Total(granted)
  {
    assert Total([]) == 0;
    hide Prior, Delay, Grant, Total;
    var state := new BusyHandlerState(now);
    granted, refused := [], false;
    clock := now;
    for n := 0 to attempts
      invariant state.Valid() && state.invocationCount == state.iteration
      invariant Event(state.iteration, granted, refused) == After(max, n)
      invariant fresh(state) && clock == now + Total(granted)
    {
      CounterSuffices(max, n + 1);
      var a := state.Invoke(Timeout(max), clock);
      if a == Retry {
        var d := state.GetDelay(clock);
        GrantPositive(max, |granted|);
        EventIs(max, n);
        TotalStep(granted, d);
        granted := granted + [d];
        clock := clock + d;
      } else {
        refused := true;
      }
    }
  }

  lemma GrantPositive(max: nat, n: nat)
    ensures Grant(max, n).Some? ==> Grant(max, n).value > 0
  {
  }
}
