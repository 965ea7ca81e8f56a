/**
  A discrete clock for the timer-driven wrappers in `Utils`. An input is either
  a call of the wrapped handler at some time, or the firing of the wrapper's
  pending `setTimeout` callback at some time.
 */
module Clock {

  /**
    A `setTimeout` delay in whole milliseconds. The browser converts the delay
    to a 32-bit signed integer, so only 0 .. 2^31 - 1 keeps its meaning.
   */
  type Delay = d: nat | d < 0x8000_0000

  datatype Event<A> = Call(at: int, args: A) | Fire(at: int)

  /** One run of the wrapped function: when it ran and with which arguments. */
  datatype Invocation<A> = Invocation(at: int, args: A)

  /** Events are listed in the order they happen, so their times never go back. */
  ghost predicate Chronological<A>(trace: seq<Event<A>>) {
    forall i, j :: 0 <= i < j < |trace| ==> trace[i].at <= trace[j].at
  }

  /** Every suffix of a chronological trace is chronological and starts no earlier than the trace. */
  lemma ChronologicalTail<A>(trace: seq<Event<A>>)
    requires Chronological(trace)
    requires |trace| > 0
    ensures Chronological(trace[1..])
    ensures forall i :: 0 <= i < |trace[1..]| ==> trace[0].at <= trace[1..][i].at
  {
    assert forall i :: 0 <= i < |trace[1..]| ==> trace[1..][i] == trace[i + 1];
  }
}
