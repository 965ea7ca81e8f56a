/**
  `Utils.debounce(func, wait)`: every call cancels the pending timer and sets a
  new one, `wait` after the call, that runs `func` with that call's arguments.
 */
module Debounce {

  import opened Clock
  import opened Options

  /** The wrapper's `timeout`: nothing pending, or a timer due at `due` that will pass `args` to `func`. */
  datatype Timer<A> = Idle | Pending(due: int, args: A)

  datatype Step<A> = Step(timer: Timer<A>, invoked: Option<A>)

  /** One event seen by the debounced wrapper. */
  function Next<A>(wait: Delay, p: Timer<A>, e: Event<A>): (r: Step<A>)
    ensures e.Call? ==> r.timer == Pending(e.at + wait, e.args) && r.invoked == None
    ensures r.invoked.Some? <==> e.Fire? && p.Pending? && p.due <= e.at
    ensures r.invoked.Some? ==> r.invoked.value == p.args && r.timer == Idle
    ensures e.Fire? && r.invoked.None? ==> r.timer == p
  {
    match e
    case Call(t, a) => Step(Pending(t + wait, a), None)
    case Fire(t) =>
      if p.Pending? && p.due <= t then Step(Idle, Some(p.args)) else Step(p, None)
  }

  /** The timer after a trace, starting from a fresh wrapper, and the runs of `func`, in order. */
  function Run<A>(wait: Delay, trace: seq<Event<A>>): (Timer<A>, seq<Invocation<A>>)
    decreases |trace|
  {
    if |trace| == 0 then (Idle, [])
    else
      var before := Run(wait, trace[..|trace| - 1]);
      var e := trace[|trace| - 1];
      var s := Next(wait, before.0, e);
      (s.timer, before.1 + (if s.invoked.Some? then [Invocation(e.at, s.invoked.value)] else []))
  }

  /** The index of the last call in a trace, if there is one. */
  function LastCall<A>(trace: seq<Event<A>>): (r: Option<nat>)
    ensures r.Some? ==> r.value < |trace| && trace[r.value].Call?
    ensures r.Some? ==> forall m :: r.value < m < |trace| ==> trace[m].Fire?
    ensures r.None? ==> forall m :: 0 <= m < |trace| ==> trace[m].Fire?
    decreases |trace|
  {
    if |trace| == 0 then None
    else if trace[|trace| - 1].Call? then Some(|trace| - 1)
    else LastCall(trace[..|trace| - 1])
  }

  /** Some timer firing after the call at index `j` came once `wait` had passed since that call. */
  ghost predicate Elapsed<A>(wait: Delay, trace: seq<Event<A>>, j: nat)
    requires j < |trace|
  {
    exists m :: j < m < |trace| && trace[m].Fire? && trace[m].at >= trace[j].at + wait
  }

  /**
    A reference description of the debounced state, read off the trace alone:
    a timer is pending exactly when there was a call and no firing has come
    `wait` or more after the last one; it is due `wait` after that call and
    carries that call's arguments.
   */
  ghost function Expected<A>(wait: Delay, trace: seq<Event<A>>): Timer<A> {
    match LastCall(trace)
    case None => Idle
    case Some(j) =>
      if Elapsed(wait, trace, j) then Idle else Pending(trace[j].at + wait, trace[j].args)
  }

  /** The wrapper's timer is always the one the reference description predicts. */
  lemma {:induction false} RunMatchesExpected<A>(wait: Delay, trace: seq<Event<A>>)
    ensures Run(wait, trace).0 == Expected(wait, trace)
    decreases |trace|
  {
    if |trace| > 0 {
      var n := |trace| - 1;
      var prefix := trace[..n];
      RunMatchesExpected(wait, prefix);
      var e := trace[n];
      if e.Fire? {
        assert LastCall(trace) == LastCall(prefix);
        match LastCall(prefix)
        case None =>
        case Some(j) =>
          assert forall m :: 0 <= m < n ==> prefix[m] == trace[m];
          if Elapsed(wait, prefix, j) {
            var m :| j < m < |prefix| && prefix[m].Fire? && prefix[m].at >= prefix[j].at + wait;
            assert trace[m] == prefix[m];
            assert Elapsed(wait, trace, j);
          } else if e.at >= trace[j].at + wait {
            assert Elapsed(wait, trace, j);
          } else {
            assert !Elapsed(wait, trace, j);
          }
      }
    }
  }

  /**
    `func` runs at a firing exactly when there was a call, `wait` has passed
    since the last call, and no earlier firing already ran it; it then runs
    with the arguments of that last call. A call never runs `func`.
   */
  lemma FiresAfterQuietPeriod<A>(wait: Delay, trace: seq<Event<A>>, t: int)
    ensures var r := Next(wait, Run(wait, trace).0, Fire(t));
      && (r.invoked.Some? <==>
            LastCall(trace).Some? && !Elapsed(wait, trace, LastCall(trace).value)
            && trace[LastCall(trace).value].at + wait <= t)
      && (r.invoked.Some? ==> r.invoked.value == trace[LastCall(trace).value].args)
  {
    RunMatchesExpected(wait, trace);
  }
}
