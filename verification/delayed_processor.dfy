/** `DelayedProcessor<TWorkItem>` as a transition system over its queue. `Enqueue`,
    `CompleteAsync` and one pass of the run loop are the steps; each works on the queue
    under its lock, so each is atomic. The processing callback only receives the drained
    batch and never touches the queue, so a pass is modelled as drain, then deliver. The
    wake-up event and the debouncer only decide WHEN a pass runs, so a pass may run at any
    time: every property below holds whatever the timing. */
module DelayedProcessor {
  import opened Wrappers
  import opened Linq
  import Discovered
  import ResultState

  /** The queue, `isCompleted`, the batches handed to the callback so far, and whether
      the run loop has left. */
  datatype Processor<T> = Processor(queue: seq<T>, completed: bool, delivered: seq<seq<T>>, exited: bool)

  /** The two `InvalidOperationException`s. */
  datatype ProcessorError = EnqueueAfterComplete | CompleteTwice

  function New<T>(): Processor<T> {
    Processor([], false, [], false)
  }

  /** `Enqueue`: refused once completion was requested; otherwise the items join the end
      of the queue. */
  function Enqueue<T>(p: Processor<T>, items: seq<T>): (r: Result<Processor<T>, ProcessorError>)
    ensures r.Err? <==> p.completed
    ensures r.Err? ==> r.error == EnqueueAfterComplete
    ensures r.Ok? ==> r.value.queue == p.queue + items && r.value.delivered == p.delivered
    ensures r.Ok? ==> r.value.completed == p.completed && r.value.exited == p.exited
  {
    if p.completed then Err(EnqueueAfterComplete) else Ok(p.(queue := p.queue + items))
  }

  /** `CompleteAsync`, up to the point where it waits for the run loop: refused the
      second time; otherwise it marks the processor completed. */
  function Complete<T>(p: Processor<T>): (r: Result<Processor<T>, ProcessorError>)
    ensures r.Err? <==> p.completed
    ensures r.Err? ==> r.error == CompleteTwice
    ensures r.Ok? ==> r.value.completed && r.value.queue == p.queue && r.value.delivered == p.delivered
    ensures r.Ok? ==> r.value.exited == p.exited
  {
    if p.completed then Err(CompleteTwice) else Ok(p.(completed := true))
  }

  /** One pass of the run loop after a wake-up: drain the queue and read the completed
      flag together, hand the batch over if it is not empty, and leave if the flag was
      set. */
  function Pass<T>(p: Processor<T>): (r: Processor<T>)
    requires !p.exited
    ensures r.queue == [] && r.completed == p.completed && r.exited == p.completed
    ensures Flatten(r.delivered) == Flatten(p.delivered) + p.queue
    ensures p.queue == [] ==> r.delivered == p.delivered
    ensures p.queue != [] ==> r.delivered == p.delivered + [p.queue]
  {
    var batch := p.queue;
    var delivered := if batch != [] then p.delivered + [batch] else p.delivered;
    FlattenAppend(p.delivered, [batch]);
    assert Flatten([batch]) == batch + Flatten([]);
    Processor([], p.completed, delivered, p.completed)
  }

  /** What every reachable processor keeps: nothing accepted is lost or reordered (the
      delivered batches followed by the queue are exactly the accepted items), no batch
      handed over is empty, and once the loop has left, completion was requested and the
      queue is empty. */
  ghost predicate Inv<T>(p: Processor<T>, accepted: seq<T>) {
    && Flatten(p.delivered) + p.queue == accepted
    && (forall i :: 0 <= i < |p.delivered| ==> p.delivered[i] != [])
    && (p.exited ==> p.completed && p.queue == [])
  }

  // ---- Whole histories ----

  /** A call on the processor: by a producer (`Enqueue`, `CompleteAsync`) or a pass of
      the run loop. */
  datatype Op<T> = EnqueueOp(items: seq<T>) | CompleteOp | PassOp

  /** Runs operations from a new processor. A refused call throws to its caller and
      changes nothing; the loop does not pass again once it has left. Also returns the
      items the processor accepted. */
  function Run<T>(ops: seq<Op<T>>): (r: (Processor<T>, seq<T>))
    decreases |ops|
  {
    if ops == [] then (New(), [])
    else
      var (p, accepted) := Run(ops[..|ops| - 1]);
      match ops[|ops| - 1]
      case EnqueueOp(items) =>
        (match Enqueue(p, items)
         case Ok(q) => (q, accepted + items)
         case Err(_) => (p, accepted))
      case CompleteOp =>
        (match Complete(p)
         case Ok(q) => (q, accepted)
         case Err(_) => (p, accepted))
      case PassOp => (if p.exited then p else Pass(p), accepted)
  }

  lemma PassInv<T>(p: Processor<T>, accepted: seq<T>)
    requires Inv(p, accepted) && !p.exited
    ensures Inv(Pass(p), accepted)
  {
    var r := Pass(p);
    if p.queue != [] {
      assert forall i :: 0 <= i < |r.delivered| ==> r.delivered[i] != [] by {
        forall i | 0 <= i < |r.delivered|
          ensures r.delivered[i] != []
        {
          if i < |p.delivered| {
            assert r.delivered[i] == p.delivered[i];
          }
        }
      }
    }
  }

  /** Every history keeps the invariant with the items it accepted. */
  lemma {:induction false} RunInv<T>(ops: seq<Op<T>>)
    ensures Inv(Run(ops).0, Run(ops).1)
    decreases |ops|
  {
    if ops != [] {
      var prefix := ops[..|ops| - 1];
      RunInv(prefix);
      var (p, accepted) := Run(prefix);
      match ops[|ops| - 1]
      case EnqueueOp(items) =>
        if !p.completed {
          assert Flatten(p.delivered) + (p.queue + items) == accepted + items;
        }
      case CompleteOp =>
      case PassOp =>
        if !p.exited {
          PassInv(p, accepted);
        }
    }
  }

  /** After the loop has left, every accepted item was handed to the callback exactly
      once and in order, in non-empty batches. */
  lemma AllDelivered<T>(ops: seq<Op<T>>)
    requires Run(ops).0.exited
    ensures Flatten(Run(ops).0.delivered) == Run(ops).1
    ensures forall b :: b in Run(ops).0.delivered ==> b != []
  {
    RunInv(ops);
  }

  /** `CompleteAsync` returns: once completion was requested, the next pass of the loop
      delivers whatever is still queued and leaves. */
  lemma {:induction false} CompletionDrains<T>(ops: seq<Op<T>>)
    requires Run(ops).0.completed && !Run(ops).0.exited
    ensures Run(ops + [PassOp]).0.exited
    ensures Run(ops + [PassOp]).1 == Run(ops).1
    ensures Flatten(Run(ops + [PassOp]).0.delivered) == Run(ops).1
  {
    var ops' := ops + [PassOp];
    assert ops'[..|ops'| - 1] == ops;
    RunInv(ops);
  }

  /** Nothing can be accepted after completion was requested. */
  lemma EnqueueAfterCompleteRefused<T>(ops: seq<Op<T>>, items: seq<T>)
    requires Run(ops).0.completed
    ensures Run(ops + [EnqueueOp(items)]) == Run(ops)
  {
    var ops' := ops + [EnqueueOp(items)];
    assert ops'[..|ops'| - 1] == ops;
  }

  // ---- The result formatter's pipeline ----

  /** The formatter's callback run over every batch handed to it. */
  function IngestEach(s: ResultState.State, batches: seq<seq<Discovered.Item>>): ResultState.State
    decreases |batches|
  {
    if batches == [] then s else IngestEach(ResultState.Ingest(s, batches[0]), batches[1..])
  }

  /** Ingesting batch by batch is ingesting their concatenation. */
  lemma {:induction false} IngestEachFlatten(s: ResultState.State, batches: seq<seq<Discovered.Item>>)
    ensures IngestEach(s, batches) == ResultState.Ingest(s, Flatten(batches))
    decreases |batches|
  {
    if batches != [] {
      IngestEachFlatten(ResultState.Ingest(s, batches[0]), batches[1..]);
      ResultState.IngestBatches(s, batches[0], Flatten(batches[1..]));
    }
  }

  /** When the formatter's processor has finished, its state is what ingesting every
      accepted item in the order it was enqueued gives, however the items were batched. */
  lemma FormatterIngestsAll(ops: seq<Op<Discovered.Item>>)
    requires Run(ops).0.exited
    ensures IngestEach(ResultState.Initial, Run(ops).0.delivered) == ResultState.Ingest(ResultState.Initial, Run(ops).1)
  {
    AllDelivered(ops);
    IngestEachFlatten(ResultState.Initial, Run(ops).0.delivered);
  }
}
