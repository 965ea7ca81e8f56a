/**
  `FormController`: submitting a form cancels the real submission, shows a
  loading state on its submit button and, 2000 ms later, shows a success
  banner, resets the form and takes the loading state away again.
 */
module Forms {

  import opened Options

  const SendingLabel := "Mengirim..."
  const IdleLabel := "Kirim Pesan"
  /** The simulated network delay, in milliseconds. */
  const SubmitDelay := 2000

  /** A `button[type="submit"]`: whether it is disabled and its text. */
  datatype Button = Button(disabled: bool, text: string)

  /** The observable effects of a completion, in the order they happen. */
  datatype Effect = SuccessShown | FieldsReset | LoadingHidden

  /**
    A form: its field values, the default values `reset()` restores, its submit
    button if it has one, the due times of the completion timers set by
    submissions, and the effects of completions so far.
   */
  datatype Form = Form(values: seq<string>, defaults: seq<string>, button: Option<Button>,
                       pending: seq<int>, effects: seq<Effect>)

  /** `showLoadingState`: a present button becomes disabled and reads "Mengirim...". */
  function ShowLoading(button: Option<Button>): (r: Option<Button>)
    ensures r.Some? <==> button.Some?
    ensures r.Some? ==> r.value.disabled && r.value.text == SendingLabel
  {
    match button
    case None => None
    case Some(_) => Some(Button(true, SendingLabel))
  }

  /** `hideLoadingState`: a present button becomes enabled and reads "Kirim Pesan". */
  function HideLoading(button: Option<Button>): (r: Option<Button>)
    ensures r.Some? <==> button.Some?
    ensures r.Some? ==> !r.value.disabled && r.value.text == IdleLabel
  {
    match button
    case None => None
    case Some(_) => Some(Button(false, IdleLabel))
  }

  /**
    `handleSubmit` for a submit event at time `t`: the loading state is shown at
    once and a completion is scheduled `SubmitDelay` later. The field values are
    left alone until the completion.
   */
  function Submit(f: Form, t: int): (r: Form)
    ensures r.button.Some? <==> f.button.Some?
    ensures r.button.Some? ==> r.button.value == Button(true, SendingLabel)
    ensures r.pending == f.pending + [t + SubmitDelay]
    ensures r.values == f.values && r.defaults == f.defaults && r.effects == f.effects
  {
    f.(button := ShowLoading(f.button), pending := f.pending + [t + SubmitDelay])
  }

  /**
    The completion callback: success banner, then `form.reset()`, then
    `hideLoadingState`, recorded in that order.
   */
  function Complete(f: Form): (r: Form)
    ensures r.values == f.defaults && r.defaults == f.defaults
    ensures r.button.Some? <==> f.button.Some?
    ensures r.button.Some? ==> r.button.value == Button(false, IdleLabel)
    ensures |r.effects| == |f.effects| + 3 && r.effects[..|f.effects|] == f.effects
    ensures r.effects[|f.effects|..] == [SuccessShown, FieldsReset, LoadingHidden]
    ensures r.pending == f.pending
  {
    var shown := f.(effects := f.effects + [SuccessShown]);
    var reset := shown.(values := shown.defaults, effects := shown.effects + [FieldsReset]);
    reset.(button := HideLoading(reset.button), effects := reset.effects + [LoadingHidden])
  }

  /**
    The clock reaching time `t`: the earliest pending completion runs once it
    is due; before that nothing changes.
   */
  function Tick(f: Form, t: int): (r: Form)
    ensures |f.pending| == 0 || f.pending[0] > t ==> r == f
    ensures |f.pending| > 0 && f.pending[0] <= t ==>
      && r.pending == f.pending[1..]
      && r.values == f.defaults
      && r.defaults == f.defaults
      && (r.button.Some? <==> f.button.Some?)
      && (r.button.Some? ==> r.button.value == Button(false, IdleLabel))
      && r.effects == f.effects + [SuccessShown, FieldsReset, LoadingHidden]
  {
    if |f.pending| > 0 && f.pending[0] <= t then Complete(f).(pending := f.pending[1..]) else f
  }

  /** A form with a submit button in its resting state, with nothing scheduled. */
  predicate Resting(f: Form) {
    f.button.Some? && !f.button.value.disabled && |f.pending| == 0
  }

  /**
    The loading state lasts exactly the simulated delay: after a submit at `t`,
    the button stays disabled at every moment before `t + 2000`, and at
    `t + 2000` it is enabled again, reads "Kirim Pesan" and the fields are reset.
   */
  lemma LoadingLastsTheDelay(f: Form, t: int, early: int)
    requires Resting(f)
    requires early < t + SubmitDelay
    ensures Tick(Submit(f, t), early).button == Some(Button(true, SendingLabel))
    ensures Tick(Submit(f, t), early) == Submit(f, t)
    ensures Tick(Submit(f, t), t + SubmitDelay).button == Some(Button(false, IdleLabel))
    ensures Tick(Submit(f, t), t + SubmitDelay).values == f.defaults
    ensures Tick(Submit(f, t), t + SubmitDelay).pending == []
  {
  }

  /**
    The label after a round trip is the original one exactly when the button
    originally read "Kirim Pesan": completion writes that fixed text rather
    than restoring what was there.
   */
  lemma LabelRestoredIffIdleLabel(f: Form, t: int)
    requires Resting(f)
    ensures Tick(Submit(f, t), t + SubmitDelay).button == f.button <==> f.button.value.text == IdleLabel
  {
  }

  /** A form without a submit button never gets one, and its button state never changes. */
  lemma NoButtonUnchanged(f: Form, t: int, u: int)
    requires f.button.None?
    ensures Submit(f, t).button.None?
    ensures Tick(Submit(f, t), u).button.None?
  {
  }

  /** Inputs to a form over time: a submit event, or the clock reaching a time. */
  datatype FormEvent = SubmitAt(t: int) | TickAt(t: int)

  /**
    Whether the browser dispatches a submit event: the disabled submit button
    is the only guard against a second submission while one is in flight.
   */
  predicate CanSubmit(f: Form) {
    f.button.None? || !f.button.value.disabled
  }

  /**
    One event: a submit the browser lets through starts the loading state and
    schedules one more completion; a submit it blocks changes nothing; the
    clock never adds a completion and never adds or removes the button.
   */
  function Apply(f: Form, e: FormEvent): (r: Form)
    ensures e.SubmitAt? && !CanSubmit(f) ==> r == f
    ensures e.SubmitAt? && CanSubmit(f) ==> |r.pending| == |f.pending| + 1 && r.values == f.values
    ensures e.SubmitAt? && CanSubmit(f) && r.button.Some? ==> r.button.value.disabled
    ensures e.TickAt? ==> |r.pending| <= |f.pending|
    ensures r.button.Some? <==> f.button.Some?
  {
    match e
    case SubmitAt(t) => if CanSubmit(f) then Submit(f, t) else f
    case TickAt(t) => Tick(f, t)
  }

  function RunForm(f: Form, events: seq<FormEvent>): Form
    decreases |events|
  {
    if |events| == 0 then f else RunForm(Apply(f, events[0]), events[1..])
  }

  /**
    For a form with a button: the button is disabled exactly while a completion
    is pending, it then reads "Mengirim...", and at most one completion is ever
    pending.
   */
  predicate Guarded(f: Form) {
    f.button.Some? ==>
      && |f.pending| <= 1
      && (f.button.value.disabled <==> |f.pending| == 1)
      && (f.button.value.disabled ==> f.button.value.text == SendingLabel)
  }

  /**
    Without the browser's guard nothing stops overlap: two submits in a row
    schedule two completions, whether or not the form has a button.
   */
  lemma UnguardedSubmitsOverlap(f: Form, t: int, u: int)
    requires |f.pending| == 0
    ensures |Submit(Submit(f, t), u).pending| == 2
    ensures !Guarded(Submit(Submit(f, t), u)) <==> f.button.Some?
  {
  }

  /** The disabled button keeps submissions from overlapping, along any sequence of events. */
  lemma {:induction false} GuardedAlways(f: Form, events: seq<FormEvent>)
    requires Guarded(f)
    ensures Guarded(RunForm(f, events))
    ensures RunForm(f, events).button.Some? <==> f.button.Some?
    decreases |events|
  {
    if |events| > 0 {
      var next := Apply(f, events[0]);
      assert Guarded(next);
      GuardedAlways(next, events[1..]);
    }
  }
}
