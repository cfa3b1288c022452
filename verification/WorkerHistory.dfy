/** The order lifecycle inside the orders table: what the workers of src/background/ commit to an order while
    API handlers and other workers interleave with them, reading rows that may be stale when they write. */
module WorkerHistory {
  import opened Options
  import opened Bytes
  import opened TransitionCbor
  import opened OrdersTable
  import TimeLock

  type OrderData = TimeLock.OrderData
  type WorkerStep = TimeLock.WorkerStep

  /** How workers write order data into a blob and read it back under the row's id. */
  datatype Codec = Codec(encode: (Id, OrderData) -> Bytes, decode: (Id, Bytes) -> Option<OrderData>)

  ghost predicate Readable(c: Codec) {
    forall id, d :: c.decode(id, c.encode(id, d)) == Some(d)
  }

  /** The UPDATE a step runs: a cancellation sets the blob alone, all others the expiry bucket as well. */
  function WriteOf(c: Codec, id: Id, e: OrderData, step: WorkerStep): Write {
    if step.PaymentExpired? then SetOrder(c.encode(id, e))
    else SetOrderAndExpiry(c.encode(id, e), TimeLock.ExpiryBucket(e))
  }

  /** What a worker decides to write after reading a row; it skips rows it cannot decrypt. */
  function WorkOf(c: Codec, step: WorkerStep, id: Id, row: Row): Option<Write> {
    match c.decode(id, row.orderBlob)
    case None => None
    case Some(d) =>
      match TimeLock.StepUpdate(d, step)
      case None => None
      case Some(e) => Some(WriteOf(c, id, e, step))
  }

  /** The jobs of the world are worker steps. */
  ghost predicate RunsWorkers(world: World, c: Codec, stepOf: nat -> WorkerStep) {
    Readable(c) && forall job, id, row :: world.work(job, id, row) == WorkOf(c, stepOf(job), id, row)
  }

  /** A worker that can read a row writes exactly when its step applies to the data there, and what it writes
      reads back as the data after the step. */
  lemma WorkIsDone(world: World, c: Codec, stepOf: nat -> WorkerStep, job: nat, id: Id, row: Row, d: OrderData)
    requires RunsWorkers(world, c, stepOf) && c.decode(id, row.orderBlob) == Some(d)
    ensures world.work(job, id, row).Some? <==> TimeLock.StepUpdate(d, stepOf(job)).Some?
    ensures world.work(job, id, row).Some? ==>
      var w := world.work(job, id, row).value;
      (w.SetOrder? || w.SetOrderAndExpiry?) && Some(c.decode(id, w.blob)) == Some(TimeLock.StepUpdate(d, stepOf(job)))
  {
    assert world.work(job, id, row) == WorkOf(c, stepOf(job), id, row);
    var update := TimeLock.StepUpdate(d, stepOf(job));
    if update.Some? { assert c.decode(id, c.encode(id, update.value)) == update; }
  }

  lemma WorkersWriteOrdersOnly(world: World, c: Codec, stepOf: nat -> WorkerStep)
    requires RunsWorkers(world, c, stepOf)
    ensures WorkersKeepToOrders(world)
  {
    forall job, id, row | world.work(job, id, row).Some?
      ensures world.work(job, id, row).value.SetOrder? || world.work(job, id, row).value.SetOrderAndExpiry?
    {
      assert world.work(job, id, row) == WorkOf(c, stepOf(job), id, row);
    }
  }

  /** The worker steps committed to one order in a piece of the log. */
  function StepsIn(log: seq<Event>, id: Id, stepOf: nat -> WorkerStep): seq<WorkerStep> {
    if log == [] then []
    else StepsIn(log[..|log| - 1], id, stepOf) + StepOfEvent(log[|log| - 1], id, stepOf)
  }

  function StepOfEvent(e: Event, id: Id, stepOf: nat -> WorkerStep): seq<WorkerStep> {
    if e.Wrote? && e.request.WorkerJob? && e.request.id == id then [stepOf(e.request.job)] else []
  }

  /** A client stores a new blob for this order; chat and dispute writes do not. */
  predicate IsClientBlob(e: Event, id: Id) {
    e.Wrote? && e.request.UpdateOrder? && e.request.id == id
  }

  /** No client stores a new order blob at these points of the log. */
  ghost predicate NoClientBlobs(log: seq<Event>, j: nat, k: nat, id: Id) {
    forall i :: j <= i < k && i < |log| ==> !IsClientBlob(log[i], id)
  }

  lemma NoneFirst(log: seq<Event>, i: nat, k: nat, id: Id)
    requires i < k <= |log| && NoClientBlobs(log, i, k, id)
    ensures !IsClientBlob(log[i], id) && NoClientBlobs(log, i + 1, k, id)
  {}

  /** The data workers read in an order's row. */
  function DataIn(c: Codec, t: Table, id: Id): Option<OrderData> {
    if id in t then c.decode(id, t[id].orderBlob) else None
  }

  /** A committed event that is not a client's blob takes the order one worker step on, or leaves it. */
  lemma EventSteps(world: World, c: Codec, stepOf: nat -> WorkerStep, t: Table, e: Event, t': Table, id: Id, d: OrderData)
    requires RunsWorkers(world, c, stepOf)
    requires Atomically(world, t, e) == Some(t') && DataIn(c, t, id) == Some(d)
    requires !IsClientBlob(e, id)
    ensures DataIn(c, t', id) == Some(TimeLock.RunOrder(d, StepOfEvent(e, id, stepOf)))
  {
    if e.Wrote? && e.request.id == id {
      var r := e.request;
      if r.WorkerJob? {
        var step := stepOf(r.job);
        assert world.work(r.job, id, t[id]) == WorkOf(c, step, id, t[id]);
        var steps := [step];
        assert steps[..0] == [];
        assert TimeLock.RunOrder(d, steps) == TimeLock.StepOrder(d, step);
      }
    }
  }

  lemma {:induction false} RunOrderAppends(d: OrderData, a: seq<WorkerStep>, b: seq<WorkerStep>)
    ensures TimeLock.RunOrder(d, a + b) == TimeLock.RunOrder(TimeLock.RunOrder(d, a), b)
  {
    if b == [] {
      assert a + b == a;
    } else {
      assert (a + b)[..|a + b| - 1] == a + b[..|b| - 1];
      RunOrderAppends(d, a, b[..|b| - 1]);
    }
  }

  lemma StepsInGrow(log: seq<Event>, j: nat, k: nat, id: Id, stepOf: nat -> WorkerStep)
    requires j <= k < |log|
    ensures StepsIn(log[j..k + 1], id, stepOf) == StepsIn(log[j..k], id, stepOf) + StepOfEvent(log[k], id, stepOf)
  {
    assert log[j..k + 1][..k - j] == log[j..k] && log[j..k + 1][k - j] == log[k];
  }

  /** After k commits the order reads as what the steps committed since j make of d0. */
  ghost predicate ReadsAs(world: World, c: Codec, stepOf: nat -> WorkerStep, log: seq<Event>, j: nat, k: nat, id: Id, d0: OrderData)
    requires j <= k <= |log|
  {
    var t := TableBefore(world, log, k);
    t.Some? && DataIn(c, t.value, id) == Some(TimeLock.RunOrder(d0, StepsIn(log[j..k], id, stepOf)))
  }

  lemma StepsCompose(log: seq<Event>, j: nat, k: nat, id: Id, stepOf: nat -> WorkerStep, d0: OrderData)
    requires j <= k < |log|
    ensures TimeLock.RunOrder(TimeLock.RunOrder(d0, StepsIn(log[j..k], id, stepOf)), StepOfEvent(log[k], id, stepOf)) ==
            TimeLock.RunOrder(d0, StepsIn(log[j..k + 1], id, stepOf))
  {
    StepsInGrow(log, j, k, id, stepOf);
    RunOrderAppends(d0, StepsIn(log[j..k], id, stepOf), StepOfEvent(log[k], id, stepOf));
  }

  lemma HistoryStart(world: World, c: Codec, stepOf: nat -> WorkerStep, log: seq<Event>, j: nat, id: Id, d0: OrderData)
    requires j <= |log| && TableBefore(world, log, j).Some? && DataIn(c, TableBefore(world, log, j).value, id) == Some(d0)
    ensures ReadsAs(world, c, stepOf, log, j, j, id, d0)
  {
    assert log[j..j] == [];
  }

  lemma HistoryStep(world: World, c: Codec, stepOf: nat -> WorkerStep, log: seq<Event>, j: nat, k: nat, id: Id, d0: OrderData)
    requires RunsWorkers(world, c, stepOf) && Serial(world, log).Some? && j <= k < |log|
    requires !IsClientBlob(log[k], id)
    requires ReadsAs(world, c, stepOf, log, j, k, id, d0)
    ensures ReadsAs(world, c, stepOf, log, j, k + 1, id, d0)
  {
    SerialStep(world, log, k);
    EventSteps(world, c, stepOf, TableBefore(world, log, k).value, log[k], TableBefore(world, log, k + 1).value,
               id, TimeLock.RunOrder(d0, StepsIn(log[j..k], id, stepOf)));
    StepsCompose(log, j, k, id, stepOf, d0);
  }

  lemma {:induction false} HistoryGoesOn(world: World, c: Codec, stepOf: nat -> WorkerStep,
                                         log: seq<Event>, j: nat, i: nat, k: nat, id: Id, d0: OrderData)
    requires RunsWorkers(world, c, stepOf) && Serial(world, log).Some?
    requires j <= i <= k <= |log| && NoClientBlobs(log, i, k, id)
    requires ReadsAs(world, c, stepOf, log, j, i, id, d0)
    ensures ReadsAs(world, c, stepOf, log, j, k, id, d0)
    decreases k - i
  {
    if i < k {
      NoneFirst(log, i, k, id);
      HistoryStep(world, c, stepOf, log, j, i, id, d0);
      HistoryGoesOn(world, c, stepOf, log, j, i + 1, k, id, d0);
    }
  }

  /** Between two client writes of its blob an order goes through the committed worker steps, one after the
      other, each computed from the data the one before left: stale reads never commit. */
  lemma BlobsFormHistory(world: World, c: Codec, stepOf: nat -> WorkerStep,
                         log: seq<Event>, j: nat, k: nat, id: Id, d0: OrderData)
    requires RunsWorkers(world, c, stepOf) && Serial(world, log).Some?
    requires j <= k <= |log| && NoClientBlobs(log, j, k, id)
    requires TableBefore(world, log, j).Some? && DataIn(c, TableBefore(world, log, j).value, id) == Some(d0)
    ensures ReadsAs(world, c, stepOf, log, j, k, id, d0)
  {
    HistoryStart(world, c, stepOf, log, j, id, d0);
    HistoryGoesOn(world, c, stepOf, log, j, j, k, id, d0);
  }

  /** Worker clocks are floored to six hours. */
  ghost predicate FlooredClock(stepOf: nat -> WorkerStep) {
    forall job :: stepOf(job).Tick? ==> TimeLock.Floored(stepOf(job).now)
  }

  lemma {:induction false} StepsAreFloored(log: seq<Event>, id: Id, stepOf: nat -> WorkerStep)
    requires FlooredClock(stepOf)
    ensures TimeLock.FlooredTicks(StepsIn(log, id, stepOf))
  {
    if log != [] { StepsAreFloored(log[..|log| - 1], id, stepOf); }
  }

  /** In every interleaved run: if an order reads as funded after j commits, as refunded after k, and no
      client stored its blob between, then auto-refund waited a full lock after the dispute and three locks
      after funding. */
  lemma RefundWaitsInEveryRun(world: World, c: Codec, stepOf: nat -> WorkerStep, run: seq<Step>,
                              j: nat, k: nat, id: Id, d0: OrderData, d: OrderData)
    requires RunsWorkers(world, c, stepOf) && FlooredClock(stepOf)
    requires var log := Run(world, run).log;
             && j <= k <= |log| && NoClientBlobs(log, j, k, id)
             && TableBefore(world, log, j).Some? && DataIn(c, TableBefore(world, log, j).value, id) == Some(d0)
             && TableBefore(world, log, k).Some? && DataIn(c, TableBefore(world, log, k).value, id) == Some(d)
    requires d0.state == "funded" && d.state == "refunded"
    ensures TimeLock.WaitedThreeLocks(d0, d)
  {
    var log := Run(world, run).log;
    EveryRunIsSerial(world, run);
    BlobsFormHistory(world, c, stepOf, log, j, k, id, d0);
    StepsAreFloored(log[j..k], id, stepOf);
    TimeLock.AutoRefundWaitsThreeLocks(d0, StepsIn(log[j..k], id, stepOf));
  }

  /** In every interleaved run, an order that reads as pending after j commits is funded exactly by a confirmed
      payment and cancelled exactly by an expired one, whichever committed first, until a client stores its
      blob. */
  lemma PendingFollowsPaymentsInEveryRun(world: World, c: Codec, stepOf: nat -> WorkerStep, run: seq<Step>,
                                         j: nat, k: nat, id: Id, d0: OrderData)
    requires RunsWorkers(world, c, stepOf)
    requires var log := Run(world, run).log;
             && j <= k <= |log| && NoClientBlobs(log, j, k, id)
             && TableBefore(world, log, j).Some? && DataIn(c, TableBefore(world, log, j).value, id) == Some(d0)
    requires d0.state == "pending"
    ensures var log := Run(world, run).log;
            && TableBefore(world, log, k).Some? && DataIn(c, TableBefore(world, log, k).value, id).Some?
            && TimeLock.PendingFate(DataIn(c, TableBefore(world, log, k).value, id).value,
                                    TimeLock.FirstPayment(StepsIn(log[j..k], id, stepOf)))
  {
    var log := Run(world, run).log;
    EveryRunIsSerial(world, run);
    BlobsFormHistory(world, c, stepOf, log, j, k, id, d0);
    TimeLock.PendingOrdersFollowPayments(d0, StepsIn(log[j..k], id, stepOf));
  }

  /** A committed worker step leaves the row's expiry bucket at the floored expiry of the data it stored; a
      cancellation leaves the bucket as it was. */
  lemma CommittedBucket(world: World, c: Codec, stepOf: nat -> WorkerStep, t: Table, r: Request, t': Table)
    requires RunsWorkers(world, c, stepOf) && r.WorkerJob?
    requires Atomically(world, t, Wrote(r)) == Some(t')
    ensures r.id in t && r.id in t' && DataIn(c, t', r.id).Some?
    ensures if stepOf(r.job).PaymentExpired? then t'[r.id].expiryBucket == t[r.id].expiryBucket
            else TimeLock.FlooredBucket(t'[r.id].expiryBucket, DataIn(c, t', r.id).value.expiresAt)
  {
    var step := stepOf(r.job);
    assert world.work(r.job, r.id, t[r.id]) == WorkOf(c, step, r.id, t[r.id]);
    var d := c.decode(r.id, t[r.id].orderBlob).value;
    var e := TimeLock.StepUpdate(d, step).value;
    assert c.decode(r.id, c.encode(r.id, e)) == Some(e);
    TimeLock.ExpiryBucketFloors(e);
  }

  /** In every interleaved run, once a worker-readable status has no outgoing edge it stays until a client
      stores the blob. */
  lemma TerminalStatusStays(world: World, c: Codec, stepOf: nat -> WorkerStep, run: seq<Step>,
                            j: nat, k: nat, id: Id, d0: OrderData)
    requires RunsWorkers(world, c, stepOf)
    requires var log := Run(world, run).log;
             && j <= k <= |log| && NoClientBlobs(log, j, k, id)
             && TableBefore(world, log, j).Some? && DataIn(c, TableBefore(world, log, j).value, id) == Some(d0)
    requires TimeLock.Terminal(d0.state)
    ensures var log := Run(world, run).log;
            && TableBefore(world, log, k).Some? && DataIn(c, TableBefore(world, log, k).value, id).Some?
            && DataIn(c, TableBefore(world, log, k).value, id).value.state == d0.state
  {
    var log := Run(world, run).log;
    EveryRunIsSerial(world, run);
    BlobsFormHistory(world, c, stepOf, log, j, k, id, d0);
    TimeLock.TerminalAbsorbs(d0, StepsIn(log[j..k], id, stepOf));
  }
}
