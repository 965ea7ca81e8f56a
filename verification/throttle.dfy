/**
  `Utils.throttle(func, limit)`: the wrapper runs `func` on a call when its gate
  is open, then closes the gate and sets a `limit` timer whose callback reopens
  it. Calls while the gate is closed are dropped, not queued.
 */
module Throttle {

  import opened Clock
  import opened Options

  /**
    The wrapper's `inThrottle` flag together with its timer: the flag is set
    exactly while a reopening timer is pending, and `reopenAt` is the time that
    timer is due.
   */
  datatype Gate = Open | Closed(reopenAt: int)

  datatype Step<A> = Step(gate: Gate, invoked: Option<A>)

  /** One event seen by the throttled wrapper. */
  function Next<A>(limit: Delay, g: Gate, e: Event<A>): (r: Step<A>)
    ensures r.invoked.Some? <==> e.Call? && g.Open?
    ensures r.invoked.Some? ==> r.invoked.value == e.args && r.gate == Closed(e.at + limit)
    ensures e.Call? && g.Closed? ==> r.gate == g
    ensures g.Closed? && r.gate.Open? ==> e.Fire? && g.reopenAt <= e.at
    ensures g.Closed? && e.Fire? && g.reopenAt <= e.at ==> r.gate.Open?
    ensures e.Fire? && r.gate.Closed? ==> r.gate == g
  {
    match e
    case Call(t, a) =>
      if g.Open? then Step(Closed(t + limit), Some(a)) else Step(g, None)
    case Fire(t) =>
      if g.Closed? && g.reopenAt <= t then Step(Open, None) else Step(g, None)
  }

  /** The gate at the end of a trace and the runs of `func` it let through, in order. */
  function Run<A>(limit: Delay, g: Gate, trace: seq<Event<A>>): (Gate, seq<Invocation<A>>)
    decreases |trace|
  {
    if |trace| == 0 then (g, [])
    else
      var s := Next(limit, g, trace[0]);
      var rest := Run(limit, s.gate, trace[1..]);
      var now := if s.invoked.Some? then [Invocation(trace[0].at, s.invoked.value)] else [];
      (rest.0, now + rest.1)
  }

  /** Runs of `func` are at least `limit` apart. */
  ghost predicate Spaced<A>(limit: Delay, runs: seq<Invocation<A>>) {
    forall i, j :: 0 <= i < j < |runs| ==> runs[i].at + limit <= runs[j].at
  }

  /** Splits off the first step of a run. */
  lemma RunFirst<A>(limit: Delay, g: Gate, trace: seq<Event<A>>)
    requires |trace| > 0
    ensures var s := Next(limit, g, trace[0]);
      var rest := Run(limit, s.gate, trace[1..]).1;
      Run(limit, g, trace).1 == (if s.invoked.Some? then [Invocation(trace[0].at, s.invoked.value)] + rest else rest)
  {
  }

  /** Every run of `func` happens between the first and the last event of a chronological trace. */
  lemma {:induction false} RunsWithinTrace<A>(limit: Delay, g: Gate, trace: seq<Event<A>>)
    requires Chronological(trace)
    ensures forall k :: 0 <= k < |Run(limit, g, trace).1| ==> trace[0].at <= Run(limit, g, trace).1[k].at
    ensures forall k :: 0 <= k < |Run(limit, g, trace).1| ==> Run(limit, g, trace).1[k].at <= trace[|trace| - 1].at
    decreases |trace|
  {
    if |trace| > 0 {
      var s := Next(limit, g, trace[0]);
      var tail := trace[1..];
      ChronologicalTail(trace);
      RunsWithinTrace(limit, s.gate, tail);
      RunFirst(limit, g, trace);
      var rest := Run(limit, s.gate, tail).1;
      var runs := Run(limit, g, trace).1;
      var first := trace[0].at;
      var last := trace[|trace| - 1].at;
      assert first <= last;
      if |tail| > 0 {
        assert tail[0].at >= first;
        assert tail[|tail| - 1].at == last;
      }
      forall k | 0 <= k < |runs|
        ensures first <= runs[k].at <= last
      {
        if s.invoked.Some? && k == 0 {
          assert runs[k].at == first;
        } else {
          var j := if s.invoked.Some? then k - 1 else k;
          assert runs[k] == rest[j];
        }
      }
    }
  }

  /** While the gate is closed nothing runs before its timer is due. */
  lemma {:induction false} NoRunBeforeReopen<A>(limit: Delay, g: Gate, trace: seq<Event<A>>)
    requires Chronological(trace)
    requires g.Closed?
    ensures var runs := Run(limit, g, trace).1;
      forall k :: 0 <= k < |runs| ==> g.reopenAt <= runs[k].at
    decreases |trace|
  {
    if |trace| > 0 {
      var s := Next(limit, g, trace[0]);
      ChronologicalTail(trace);
      RunFirst(limit, g, trace);
      if s.gate.Closed? {
        assert s.gate == g;
        NoRunBeforeReopen(limit, s.gate, trace[1..]);
      } else {
        RunsWithinTrace(limit, s.gate, trace[1..]);
      }
    }
  }

  /** The last of several spaced runs comes at least `limit` after the first. */
  lemma SpacedEnds<A>(limit: Delay, runs: seq<Invocation<A>>)
    requires Spaced(limit, runs)
    ensures |runs| > 1 ==> runs[0].at + limit <= runs[|runs| - 1].at
  {
  }

  /**
    At most one run per window: along a chronological trace, successive runs of
    `func` are at least `limit` apart, whatever state the gate starts in.
   */
  lemma {:induction false} RunsSpaced<A>(limit: Delay, g: Gate, trace: seq<Event<A>>)
    requires Chronological(trace)
    ensures Spaced(limit, Run(limit, g, trace).1)
    decreases |trace|
  {
    if |trace| > 0 {
      var s := Next(limit, g, trace[0]);
      ChronologicalTail(trace);
      RunsSpaced(limit, s.gate, trace[1..]);
      RunFirst(limit, g, trace);
      var rest := Run(limit, s.gate, trace[1..]).1;
      if s.invoked.Some? {
        NoRunBeforeReopen(limit, s.gate, trace[1..]);
        var runs := [Invocation(trace[0].at, s.invoked.value)] + rest;
        forall i, j | 0 <= i < j < |runs|
          ensures runs[i].at + limit <= runs[j].at
        {
          assert runs[j] == rest[j - 1];
          if i > 0 {
            assert runs[i] == rest[i - 1];
          }
        }
      }
    }
  }

  /**
    The property the scroll listener relies on: however many calls arrive within
    one `limit` window, `func` runs at most once, whether the gate is open at
    the start of the window or still closed from an earlier run.
   */
  lemma AtMostOncePerWindow<A>(limit: Delay, g: Gate, trace: seq<Event<A>>)
    requires Chronological(trace)
    requires |trace| > 0 && trace[|trace| - 1].at < trace[0].at + limit
    ensures |Run(limit, g, trace).1| <= 1
  {
    RunsSpaced(limit, g, trace);
    RunsWithinTrace(limit, g, trace);
    SpacedEnds(limit, Run(limit, g, trace).1);
  }

  /**
    Calls while the gate is closed are dropped, not queued: a run of calls with
    no timer firing leaves a closed gate as it was and runs nothing, so no
    dropped call is replayed when the gate reopens.
   */
  lemma {:induction false} DroppedWhileClosed<A>(limit: Delay, reopenAt: int, trace: seq<Event<A>>)
    requires forall i :: 0 <= i < |trace| ==> trace[i].Call?
    ensures Run(limit, Closed(reopenAt), trace) == (Closed(reopenAt), [])
    decreases |trace|
  {
    if |trace| > 0 {
      assert forall i :: 0 <= i < |trace[1..]| ==> trace[1..][i] == trace[i + 1];
      DroppedWhileClosed(limit, reopenAt, trace[1..]);
      var s := Next(limit, Closed(reopenAt), trace[0]);
      assert s == Step(Closed(reopenAt), None);
      RunFirst(limit, Closed(reopenAt), trace);
    }
  }

  /** The scroll listener's interval: about one frame at 60 frames per second. */
  const ScrollLimit: Delay := 16

  /**
    The throttled scroll listener: however many scroll events arrive within
    16 ms of the first, its handler runs at most once, whatever state an
    earlier run left the gate in.
   */
  lemma ScrollHandlerOncePerFrame<A>(g: Gate, trace: seq<Event<A>>)
    requires Chronological(trace)
    requires |trace| > 0 && trace[|trace| - 1].at < trace[0].at + ScrollLimit
    ensures |Run(ScrollLimit, g, trace).1| <= 1
  {
    AtMostOncePerWindow(ScrollLimit, g, trace);
  }
}
