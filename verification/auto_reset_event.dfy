/** `AsyncAutoResetEvent` as a sequential transition system: every call runs under the
    event's lock, so each is one atomic step. `currentWait` is either null, the completed
    task (signaled), or the incomplete task of a `TaskCompletionSource`; tasks are named by
    fresh ids, and the event remembers which ids it has completed. */
module AutoResetEvent {

  /** A task `WaitAsync` hands out. */
  datatype Task = CompletedTask | Source(id: nat)

  /** `currentWait`. */
  datatype Wait = NoWait | Signaled | Pending(id: nat)

  datatype Event = Event(current: Wait, nextId: nat, completed: set<nat>)

  const Initial := Event(NoWait, 0, {})

  /** `Task.IsCompleted`. */
  predicate IsCompleted(ev: Event, t: Task) {
    t.CompletedTask? || t.id in ev.completed
  }

  /** The states the steps keep: a pending task is one handed out and not yet completed,
      and only handed-out tasks are completed. */
  predicate Inv(ev: Event) {
    && (ev.current.Pending? ==> ev.current.id < ev.nextId && ev.current.id !in ev.completed)
    && (forall id :: id in ev.completed ==> id < ev.nextId)
  }

  /** `Set`: signal when nobody waits, complete the pending wait, nothing when already
      signaled. */
  function Set(ev: Event): (r: Event)
    ensures Inv(ev) ==> Inv(r)
    ensures ev.completed <= r.completed && r.nextId == ev.nextId
    ensures !r.current.Pending?
  {
    match ev.current
    case NoWait => ev.(current := Signaled)
    case Signaled => ev
    case Pending(id) => ev.(current := NoWait, completed := ev.completed + {id})
  }

  /** `WaitAsync`: a new incomplete task when nobody waits, the completed task (consuming
      the signal) when signaled, the same pending task otherwise. */
  function WaitAsync(ev: Event): (r: (Event, Task))
    ensures Inv(ev) ==> Inv(r.0)
    ensures r.0.completed == ev.completed
    ensures Inv(ev) ==> (IsCompleted(r.0, r.1) <==> ev.current.Signaled?)
    ensures !r.0.current.Signaled?
  {
    match ev.current
    case NoWait => (ev.(current := Pending(ev.nextId), nextId := ev.nextId + 1), Source(ev.nextId))
    case Signaled => (ev.(current := NoWait), CompletedTask)
    case Pending(id) => (ev, Source(id))
  }

  lemma InitialInv()
    ensures Inv(Initial)
  {
  }

  /** A fresh event is not signaled. */
  lemma InitiallyNotSignaled()
    ensures !IsCompleted(WaitAsync(Initial).0, WaitAsync(Initial).1)
  {
  }

  /** Signaled before anybody waits: the next wait completes at once and the event
      resets. */
  lemma SetBeforeWait(ev: Event)
    requires Inv(ev) && ev.current.NoWait?
    ensures IsCompleted(WaitAsync(Set(ev)).0, WaitAsync(Set(ev)).1)
    ensures WaitAsync(Set(ev)).0.current == NoWait
  {
  }

  /** Signaled while a wait is pending: that wait's task completes and the event resets. */
  lemma SetAfterWait(ev: Event)
    requires Inv(ev) && ev.current.NoWait?
    ensures var (waiting, task) := WaitAsync(ev);
            !IsCompleted(waiting, task) && IsCompleted(Set(waiting), task) && Set(waiting).current == NoWait
  {
  }

  /** Auto-reset: once a signal has been consumed, whether by a pending wait or by the
      next wait, a further wait does not complete. */
  lemma AutoReset(ev: Event)
    requires Inv(ev)
    ensures var after := Set(WaitAsync(ev).0);
            !IsCompleted(WaitAsync(after).0, WaitAsync(after).1) || ev.current.Signaled?
    ensures ev.current.NoWait? ==>
              var consumed := WaitAsync(Set(ev)).0;
              !IsCompleted(WaitAsync(consumed).0, WaitAsync(consumed).1)
  {
  }

  /** Setting twice signals no more waits than setting once. */
  lemma SetTwice(ev: Event)
    requires !ev.current.Pending?
    ensures Set(Set(ev)) == Set(ev)
  {
  }

  /** Waits while a wait is pending get the same task. */
  lemma SameTaskWhilePending(ev: Event)
    requires Inv(ev) && !ev.current.Signaled?
    ensures var (first, t1) := WaitAsync(ev);
            var (second, t2) := WaitAsync(first);
            t1 == t2 && second == first && !IsCompleted(second, t2)
  {
  }

  // ---- Whole histories ----

  datatype Call = SetCall | WaitCall

  /** Running calls from a state: the final state, the number of `Set` calls and the
      number of waits that completed at once. */
  function Run(ev: Event, calls: seq<Call>): (r: (Event, nat, nat))
    decreases |calls|
  {
    if calls == [] then (ev, 0, 0)
    else
      var last := calls[|calls| - 1];
      var (before, sets, immediate) := Run(ev, calls[..|calls| - 1]);
      match last
      case SetCall => (Set(before), sets + 1, immediate)
      case WaitCall =>
        var (after, task) := WaitAsync(before);
        (after, sets, immediate + (if IsCompleted(after, task) then 1 else 0))
  }

  /** Waits that complete at once never outnumber the `Set` calls; a pending signal is
      counted against the sets too. */
  lemma {:induction false} ImmediateWaitsBounded(calls: seq<Call>)
    ensures var (ev, sets, immediate) := Run(Initial, calls);
            Inv(ev) && immediate + (if ev.current.Signaled? then 1 else 0) <= sets
    decreases |calls|
  {
    if calls != [] {
      ImmediateWaitsBounded(calls[..|calls| - 1]);
    }
  }
}
