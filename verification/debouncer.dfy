/** `Debouncer` driven by the test timer: `Signal` is one atomic exchange of the busy
    flag, a timer firing runs the timer callback in two steps (the action starts, then
    its `finally` clears the flag), and the timer is the test double whose due time and
    period are set by `Change` and whose `Fire` requires a finite due time. Time spans
    are counts of 100-nanosecond ticks. */
module Debouncer {
  import opened Wrappers

  type TimeSpan = int

  /** `Timeout.InfiniteTimeSpan`, minus one millisecond. */
  const InfiniteTimeSpan: TimeSpan := -10000

  /** The test timer: its due time and period. */
  datatype Timer = Timer(dueTime: TimeSpan, period: TimeSpan)

  /** The test timer's constructor as the test double writes it: it keeps neither
      argument, so both properties start at `TimeSpan.Zero`. */
  function CreateTimerAsWritten(dueTime: TimeSpan, period: TimeSpan): (t: Timer)
    ensures t.dueTime != InfiniteTimeSpan
  {
    Timer(0, 0)
  }

  /** The constructor as evidently intended: the timer starts with the due time and the
      period it was created with. */
  function CreateTimer(dueTime: TimeSpan, period: TimeSpan): (t: Timer)
    ensures t.dueTime == dueTime && t.period == period
  {
    Timer(dueTime, period)
  }

  /** `ITimer.Change`. */
  function Change(t: Timer, dueTime: TimeSpan, period: TimeSpan): Timer {
    Timer(dueTime, period)
  }

  /** `isWaitingOrActing`, and whether the action is between its start and its
      `finally`; `calls` counts the action's invocations. */
  datatype Debouncer = Debouncer(delay: TimeSpan, timer: Timer, busy: bool, acting: bool, calls: nat)

  datatype FireError = NotDue

  /** The constructor, creating its timer with infinite due time and period. */
  function New(delay: TimeSpan): (d: Debouncer)
    ensures !d.busy && !d.acting && d.calls == 0
    ensures d.timer == Timer(InfiniteTimeSpan, InfiniteTimeSpan)
  {
    Debouncer(delay, CreateTimer(InfiniteTimeSpan, InfiniteTimeSpan), false, false, 0)
  }

  /** The constructor with the test timer as written. */
  function NewAsWritten(delay: TimeSpan): Debouncer {
    Debouncer(delay, CreateTimerAsWritten(InfiniteTimeSpan, InfiniteTimeSpan), false, false, 0)
  }

  /** `Signal`: the exchange sets the flag; only the call that found it clear arms the
      timer, once, with the delay. */
  function Signal(d: Debouncer): (r: Debouncer)
    ensures r.busy && r.acting == d.acting && r.calls == d.calls
    ensures d.busy ==> r == d
    ensures !d.busy ==> r.timer == Timer(d.delay, InfiniteTimeSpan)
  {
    if d.busy then d.(busy := true)
    else d.(busy := true, timer := Change(d.timer, d.delay, InfiniteTimeSpan))
  }

  /** `Fire` on the test timer: not due fails; otherwise the due time becomes the period
      and the callback starts the action. */
  function Fire(d: Debouncer): (r: Result<Debouncer, FireError>)
    ensures r.Ok? <==> d.timer.dueTime != InfiniteTimeSpan
    ensures r.Ok? ==> r.value.calls == d.calls + 1 && r.value.acting && r.value.timer.dueTime == d.timer.period
    ensures r.Ok? ==> r.value.busy == d.busy && r.value.timer.period == d.timer.period && r.value.delay == d.delay
  {
    if d.timer.dueTime == InfiniteTimeSpan then Err(NotDue)
    else Ok(d.(timer := d.timer.(dueTime := d.timer.period), acting := true, calls := d.calls + 1))
  }

  /** The callback's `finally`: the flag is cleared whether or not the action threw. */
  function EndAction(d: Debouncer): (r: Debouncer)
    requires d.acting
    ensures !r.busy && !r.acting && r.timer == d.timer && r.calls == d.calls
  {
    d.(busy := false, acting := false)
  }

  /** What the steps keep when the timer starts disarmed: the timer is never periodic;
      idle means disarmed; armed means due after the delay; during the action the timer
      is disarmed and the flag is set. */
  predicate Inv(d: Debouncer) {
    && d.timer.period == InfiniteTimeSpan
    && (!d.busy ==> !d.acting && d.timer.dueTime == InfiniteTimeSpan)
    && (d.acting ==> d.busy && d.timer.dueTime == InfiniteTimeSpan)
  }

  lemma NewInv(delay: TimeSpan)
    ensures Inv(New(delay))
  {
  }

  lemma SignalInv(d: Debouncer)
    requires Inv(d)
    ensures Inv(Signal(d))
  {
  }

  lemma FireInv(d: Debouncer)
    requires Inv(d) && Fire(d).Ok?
    ensures Inv(Fire(d).value)
  {
  }

  lemma EndActionInv(d: Debouncer)
    requires Inv(d) && d.acting
    ensures Inv(EndAction(d))
  {
  }

  /** The timer fires only between a `Signal` that armed it and the start of the action. */
  lemma FiresOnlyWhenArmed(d: Debouncer)
    requires Inv(d)
    ensures Fire(d).Ok? <==> d.busy && !d.acting && d.timer.dueTime != InfiniteTimeSpan
  {
  }

  /** `n` signals in a row. */
  function Signals(d: Debouncer, n: nat): (r: Debouncer)
    ensures n > 0 ==> r.busy
    decreases n
  {
    if n == 0 then d else Signal(Signals(d, n - 1))
  }

  /** A burst of signals from idle arms the timer once; firing runs the action once and
      leaves the timer disarmed, so it cannot fire again. */
  lemma {:induction false} BurstRunsOnce(d: Debouncer, n: nat)
    requires Inv(d) && !d.busy && n > 0 && d.delay != InfiniteTimeSpan
    ensures Signals(d, n).timer == Timer(d.delay, InfiniteTimeSpan)
    ensures Fire(Signals(d, n)).Ok?
    ensures Fire(Signals(d, n)).value.calls == d.calls + 1
    ensures Fire(Fire(Signals(d, n)).value).Err?
    decreases n
  {
    if n > 1 {
      BurstRunsOnce(d, n - 1);
    }
  }

  /** A signal while the action runs is dropped, and once the action ends the timer is
      still disarmed: no second invocation follows from it. */
  lemma SignalDuringAction(d: Debouncer)
    requires Inv(d) && d.acting
    ensures Signal(d) == d
    ensures Fire(Signal(d)).Err?
    ensures Fire(EndAction(Signal(d))).Err?
    ensures Signal(EndAction(Signal(d))).timer == Timer(d.delay, InfiniteTimeSpan)
  {
  }

  // ---- Whole histories ----

  datatype Step = SignalStep | FireStep | EndStep

  /** Runs steps from a state; a `Fire` that fails and an `EndStep` with no action
      running leave the state as it is. Also returns how many signals were sent. */
  function Run(d: Debouncer, steps: seq<Step>): (r: (Debouncer, nat))
    decreases |steps|
  {
    if steps == [] then (d, 0)
    else
      var (before, signals) := Run(d, steps[..|steps| - 1]);
      match steps[|steps| - 1]
      case SignalStep => (Signal(before), signals + 1)
      case FireStep => (if Fire(before).Ok? then Fire(before).value else before, signals)
      case EndStep => (if before.acting then EndAction(before) else before, signals)
  }

  /** The action never runs more often than `Signal` is called; an armed timer holds one
      more run in reserve. */
  lemma {:induction false} CallsBounded(delay: TimeSpan, steps: seq<Step>)
    ensures var (d, signals) := Run(New(delay), steps);
            Inv(d) && d.calls + (if d.busy && !d.acting then 1 else 0) <= signals
    decreases |steps|
  {
    if steps != [] {
      CallsBounded(delay, steps[..|steps| - 1]);
    }
  }

  // ---- The test timer as written ----

  /** With the test timer as written, a fresh debouncer's timer is due at once: it fires
      without any signal, and since its period is zero it stays due and fires again. */
  lemma AsWrittenFiresUnsignalled(delay: TimeSpan)
    ensures Fire(NewAsWritten(delay)).Ok?
    ensures Fire(NewAsWritten(delay)).value.calls == 1
    ensures Fire(Fire(NewAsWritten(delay)).value).Ok?
    ensures !Inv(NewAsWritten(delay))
  {
  }

  /** With the intended constructor, a fresh debouncer does not fire before a signal. */
  lemma NotDueBeforeSignal(delay: TimeSpan)
    ensures Fire(New(delay)).Err?
  {
  }
}
