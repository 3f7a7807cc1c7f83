/**
 * debounce and throttle, over a virtual clock.
 *
 * Each wrapper keeps the state its closure keeps (`timeout` for debounce,
 * `inThrottle` and the timer that clears it for throttle), the virtual time
 * it has seen, and the list of argument lists the wrapped function has been
 * run with.  setTimeout becomes a pending entry with a due time; the timer
 * fires when the clock reaches that time.  When a call and a due timer fall
 * on the same instant, the timer fires first.
 *
 * The step functions are the specification of the two classes' methods;
 * `Debounced` and `Throttled` say, for a whole chronological list of calls,
 * which calls run, and the replay lemmas prove the step functions meet them.
 */
module Timing {
  import opened Wrappers

  /** A call of the wrapper at virtual time `at` with arguments `args`. */
  datatype Call<A> = Call(at: int, args: A)

  predicate Chronological<A>(calls: seq<Call<A>>)
  {
    forall i, j :: 0 <= i < j < |calls| ==> calls[i].at <= calls[j].at
  }

  // ---------------------------------------------------------------------
  // debounce

  /** The closure's `timeout`: no timer, or a pending call of `later`. */
  datatype Timer<A> = Idle | Pending(due: int, args: A)

  datatype DebounceState<A> = DebounceState(clock: int, timeout: Timer<A>, ran: seq<A>)

  /** Let virtual time pass up to `t`: a pending `later` that is due runs the
      wrapped function with the arguments it captured. */
  function DebounceAdvance<A>(s: DebounceState<A>, t: int): (r: DebounceState<A>)
    requires s.clock <= t
  {
    if s.timeout.Pending? && s.timeout.due <= t
    then DebounceState(t, Idle, s.ran + [s.timeout.args])
    else s.(clock := t)
  }

  /** A call of the debounced wrapper: clearTimeout, then setTimeout(later, wait). */
  function DebounceCall<A>(s: DebounceState<A>, wait: nat, c: Call<A>): DebounceState<A>
    requires s.clock <= c.at
  {
    DebounceAdvance(s, c.at).(timeout := Pending(c.at + wait, c.args))
  }

  /** The state after the calls, one by one. */
  function DebounceReplay<A>(s: DebounceState<A>, wait: nat, calls: seq<Call<A>>): (r: DebounceState<A>)
    requires Chronological(calls) && (calls != [] ==> s.clock <= calls[0].at)
    ensures r.clock == if calls == [] then s.clock else calls[|calls| - 1].at
    ensures calls != [] ==> r.timeout == Pending(calls[|calls| - 1].at + wait, calls[|calls| - 1].args)
    decreases |calls|
  {
    if calls == [] then s
    else DebounceReplay(DebounceCall(s, wait, calls[0]), wait, calls[1..])
  }

  /** The first call of `calls` is followed by `wait` quiet milliseconds,
      before the next call or before `until`. */
  predicate QuietAfterFirst<A>(calls: seq<Call<A>>, wait: nat, until: int)
    requires calls != []
  {
    calls[0].at + wait <= if |calls| > 1 then calls[1].at else until
  }

  /** The arguments the wrapped function runs with, by time `until`: those of
      every call that no further call follows within `wait` ms. */
  function Debounced<A>(calls: seq<Call<A>>, wait: nat, until: int): seq<A>
  {
    if calls == [] then []
    else (if QuietAfterFirst(calls, wait, until) then [calls[0].args] else []) +
         Debounced(calls[1..], wait, until)
  }

  /** Replaying the calls and letting time run to `until` runs the wrapped
      function exactly as `Debounced` says, after whatever the state's own
      pending timer does before the first call. */
  lemma {:induction false} DebounceReplayRuns<A>(s: DebounceState<A>, wait: nat, calls: seq<Call<A>>, until: int)
    requires Chronological(calls) && calls != [] && s.clock <= calls[0].at
    requires calls[|calls| - 1].at <= until
    ensures DebounceAdvance(DebounceReplay(s, wait, calls), until).ran ==
            DebounceAdvance(s, calls[0].at).ran + Debounced(calls, wait, until)
    decreases |calls|
  {
    var s1 := DebounceCall(s, wait, calls[0]);
    var rest := calls[1..];
    var first := if QuietAfterFirst(calls, wait, until) then [calls[0].args] else [];
    assert Debounced(calls, wait, until) == first + Debounced(rest, wait, until);
    assert DebounceReplay(s, wait, calls) == DebounceReplay(s1, wait, rest);
    var next := if rest == [] then until else rest[0].at;
    assert DebounceAdvance(s1, next).ran == DebounceAdvance(s, calls[0].at).ran + first;
    if rest != [] {
      assert Chronological(rest);
      assert rest[|rest| - 1] == calls[|calls| - 1];
      DebounceReplayRuns(s1, wait, rest, until);
    }
  }

  /** From a fresh wrapper, the function runs with exactly the arguments
      `Debounced` lists. */
  lemma DebounceFromFresh<A>(start: int, wait: nat, calls: seq<Call<A>>, until: int)
    requires Chronological(calls) && calls != [] && start <= calls[0].at
    requires calls[|calls| - 1].at <= until
    ensures DebounceAdvance(DebounceReplay(DebounceState(start, Idle, []), wait, calls), until).ran ==
            Debounced(calls, wait, until)
  {
    DebounceReplayRuns(DebounceState(start, Idle, []), wait, calls, until);
  }

  /** Last call wins: a burst of calls each less than `wait` ms after the one
      before, followed by `wait` quiet ms, runs the function once, with the
      last call's arguments. */
  lemma {:induction false} LastCallWins<A>(calls: seq<Call<A>>, wait: nat, until: int)
    requires calls != []
    requires forall i :: 0 <= i < |calls| - 1 ==> calls[i + 1].at < calls[i].at + wait
    requires calls[|calls| - 1].at + wait <= until
    ensures Debounced(calls, wait, until) == [calls[|calls| - 1].args]
  {
    if |calls| > 1 {
      var rest := calls[1..];
      assert forall i :: 0 <= i < |rest| - 1 ==> rest[i + 1].at < rest[i].at + wait by {
        forall i | 0 <= i < |rest| - 1 ensures rest[i + 1].at < rest[i].at + wait {
          assert rest[i + 1] == calls[i + 2] && rest[i] == calls[i + 1];
        }
      }
      LastCallWins(rest, wait, until);
      assert !QuietAfterFirst(calls, wait, until);
    }
  }

  // ---------------------------------------------------------------------
  // throttle

  /** `inThrottle`, and the due time of the timer that will clear it. */
  datatype ThrottleState<A> = ThrottleState(clock: int, inThrottle: bool, release: Option<int>, ran: seq<A>)

  /** The timer is pending exactly while `inThrottle` is set. */
  predicate Consistent<A>(s: ThrottleState<A>)
  {
    s.inThrottle <==> s.release.Some?
  }

  function ThrottleAdvance<A>(s: ThrottleState<A>, t: int): (r: ThrottleState<A>)
    requires s.clock <= t
  {
    if s.release.Some? && s.release.value <= t
    then s.(clock := t, inThrottle := false, release := None)
    else s.(clock := t)
  }

  /** A call of the throttled wrapper: it runs the function and starts the
      `limit` window unless a window is open. */
  function ThrottleCall<A>(s: ThrottleState<A>, limit: nat, c: Call<A>): (r: ThrottleState<A>)
    requires s.clock <= c.at
    ensures r.clock == c.at
    ensures Consistent(s) ==> Consistent(r)
    ensures var open := s.inThrottle && !(s.release.Some? && s.release.value <= c.at);
            (open ==> r.ran == s.ran && r.inThrottle && r.release == s.release) &&
            (!open ==> r.ran == s.ran + [c.args] && r.inThrottle && r.release == Some(c.at + limit))
  {
    var s1 := ThrottleAdvance(s, c.at);
    if !s1.inThrottle
    then s1.(ran := s1.ran + [c.args], inThrottle := true, release := Some(c.at + limit))
    else s1
  }

  function ThrottleReplay<A>(s: ThrottleState<A>, limit: nat, calls: seq<Call<A>>): (r: ThrottleState<A>)
    requires Chronological(calls) && (calls != [] ==> s.clock <= calls[0].at)
    ensures Consistent(s) ==> Consistent(r)
    decreases |calls|
  {
    if calls == [] then s
    else ThrottleReplay(ThrottleCall(s, limit, calls[0]), limit, calls[1..])
  }

  /** The arguments the throttled function runs with: a call runs exactly
      when no call has run in the `limit` ms before it (`lastRun` is the time
      of the latest run); the others are dropped. */
  function Throttled<A>(calls: seq<Call<A>>, limit: nat, lastRun: Option<int>): seq<A>
  {
    if calls == [] then []
    else if lastRun.None? || lastRun.value + limit <= calls[0].at
    then [calls[0].args] + Throttled(calls[1..], limit, Some(calls[0].at))
    else Throttled(calls[1..], limit, lastRun)
  }

  /** When the last run happened, as far as the state remembers it. */
  function LastRun<A>(s: ThrottleState<A>, limit: nat): Option<int>
  {
    if s.release.Some? then Some(s.release.value - limit) else None
  }

  /** Replaying the calls runs the function exactly as `Throttled` says. */
  lemma {:induction false} ThrottleReplayRuns<A>(s: ThrottleState<A>, limit: nat, calls: seq<Call<A>>)
    requires Consistent(s)
    requires Chronological(calls) && (calls != [] ==> s.clock <= calls[0].at)
    ensures ThrottleReplay(s, limit, calls).ran == s.ran + Throttled(calls, limit, LastRun(s, limit))
    decreases |calls|
  {
    if calls != [] {
      var s1 := ThrottleCall(s, limit, calls[0]);
      var rest := calls[1..];
      assert Chronological(rest);
      ThrottleReplayRuns(s1, limit, rest);
    }
  }

  /** From a fresh wrapper, the function runs with exactly the arguments
      `Throttled` lists. */
  lemma ThrottleFromFresh<A>(start: int, limit: nat, calls: seq<Call<A>>)
    requires Chronological(calls) && (calls != [] ==> start <= calls[0].at)
    ensures ThrottleReplay(ThrottleState(start, false, None, []), limit, calls).ran == Throttled(calls, limit, None)
  {
    ThrottleReplayRuns(ThrottleState(start, false, None, []), limit, calls);
  }

  // ---------------------------------------------------------------------
  // The wrappers as objects with mutable closure state

  class Debouncer<A> {
    const wait: nat
    var clock: int
    var timeout: Timer<A>
    /** The argument lists the wrapped function has run with. */
    var ran: seq<A>

    function State(): DebounceState<A>
      reads this
    {
      DebounceState(clock, timeout, ran)
    }

    /** debounce(func, wait), created at virtual time `start`. */
    constructor (wait: nat, start: int)
      ensures this.wait == wait && State() == DebounceState(start, Idle, [])
    {
      this.wait := wait;
      clock := start;
      timeout := Idle;
      ran := [];
    }

    method AdvanceTo(t: int)
      requires clock <= t
      modifies this
      ensures State() == DebounceAdvance(old(State()), t)
    {
      if timeout.Pending? && timeout.due <= t {
        var args := timeout.args;
        timeout := Idle;
        ran := ran + [args];
      }
      clock := t;
    }

    /** The wrapper `executedFunction`, called at virtual time `at`. */
    method Invoke(at: int, args: A)
      requires clock <= at
      modifies this
      ensures State() == DebounceCall(old(State()), wait, Call(at, args))
    {
      AdvanceTo(at);
      timeout := Pending(at + wait, args);
    }
  }

  class Throttler<A> {
    const limit: nat
    var clock: int
    var inThrottle: bool
    var release: Option<int>
    /** The argument lists the wrapped function has run with. */
    var ran: seq<A>

    function State(): ThrottleState<A>
      reads this
    {
      ThrottleState(clock, inThrottle, release, ran)
    }

    /** throttle(func, limit), created at virtual time `start`. */
    constructor (limit: nat, start: int)
      ensures this.limit == limit && State() == ThrottleState(start, false, None, [])
    {
      this.limit := limit;
      clock := start;
      inThrottle := false;
      release := None;
      ran := [];
    }

    method AdvanceTo(t: int)
      requires clock <= t
      modifies this
      ensures State() == ThrottleAdvance(old(State()), t)
    {
      if release.Some? && release.value <= t {
        inThrottle := false;
        release := None;
      }
      clock := t;
    }

    /** The throttled wrapper, called at virtual time `at`. */
    method Invoke(at: int, args: A)
      requires clock <= at
      modifies this
      ensures State() == ThrottleCall(old(State()), limit, Call(at, args))
    {
      AdvanceTo(at);
      if !inThrottle {
        ran := ran + [args];
        inThrottle := true;
        release := Some(at + limit);
      }
    }
  }
}
