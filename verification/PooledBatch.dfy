/**
  Pipelined extraction whose groups may be processed by the worker pool. The pool hands
  entries to the sink in any order, so what is compared with serial delivery is what the
  sink holds as a multiset, and the statistics.
 */
module PooledBatch {
  import opened Wrappers
  import opened Bytes
  import opened Archive
  import opened Readers
  import opened Batch
  import opened PipelinedBatch
  import Pipeline
  import PipelineSafety
  import PipelineRuns
  import WorkerPool

  /** What the sink holds, whatever the order, and the bytes counted modulo 2^64. */
  datatype Totals = Totals(delivered: multiset<Delivery>, totalBytes: U64)

  function TotalsOf(o: Outcome): Totals {
    Totals(multiset(o.delivered), o.totalBytes)
  }

  function Plus(a: Totals, b: Totals): Totals {
    Totals(a.delivered + b.delivered, WrapAdd(a.totalBytes, b.totalBytes))
  }

  // ----- the pool over one group -----

  function EntrySizes(es: seq<Entry>): (sizes: seq<U64>)
    ensures |sizes| == |es| && forall i :: 0 <= i < |es| ==> sizes[i] == es[i].originalSize
  {
    seq(|es|, i requires 0 <= i < |es| => es[i].originalSize)
  }

  function PoolOf(h: Handler, es: seq<Entry>, workers: nat): WorkerPool.Config {
    WorkerPool.Config(EntrySizes(es), workers, (i: nat) => i < |es| && h(es[i]).Ok?)
  }

  /** What the entries in X among the first k leave in the sink. */
  function Delivered(h: Handler, es: seq<Entry>, X: set<nat>, k: nat): multiset<Delivery>
    requires k <= |es|
  {
    if k == 0 then multiset{}
    else
      var m := Delivered(h, es, X, k - 1);
      if k - 1 in X && h(es[k - 1]).Ok? then m + multiset{Delivery(es[k - 1].path, h(es[k - 1]).value)} else m
  }

  /** What a pool leaves behind: every counted entry went to the sink. */
  function PoolTotals(h: Handler, es: seq<Entry>, s: WorkerPool.State): Totals {
    Totals(Delivered(h, es, s.counted, |es|), s.totalBytes)
  }

  /** Serial delivery on top of `before`, counted as the pool counts. */
  lemma {:induction false} SerialTotals(h: Handler, before: Outcome, es: seq<Entry>, X: set<nat>, k: nat)
    requires k <= |es| && (forall i :: 0 <= i < k ==> i in X) && before.result.Ok?
    requires forall i :: 0 <= i < k ==> h(es[i]).Ok?
    ensures var o := DeliverFrom(h, before, es, k);
            && o.result.Ok?
            && var bytes := WorkerPool.SerialBytes(EntrySizes(es), k);
               TotalsOf(o) == Plus(TotalsOf(before), Totals(Delivered(h, es, X, k), bytes))
  {
    if k > 0 {
      SerialTotals(h, before, es, X, k - 1);
      var o, e := DeliverFrom(h, before, es, k - 1), es[k - 1];
      AdvanceTotals(o, e, h(e).value);
      PlusOne(TotalsOf(before), Delivered(h, es, X, k - 1), WorkerPool.SerialBytes(EntrySizes(es), k - 1),
              Delivery(e.path, h(e).value), e.originalSize);
    }
  }

  lemma AdvanceTotals(o: Outcome, e: Entry, content: Bytes)
    ensures TotalsOf(Advance(o, e, Ok(content))) ==
            Totals(multiset(o.delivered) + multiset{Delivery(e.path, content)}, WrapAdd(o.totalBytes, e.originalSize))
  {
  }

  lemma PlusOne(a: Totals, m: multiset<Delivery>, n: U64, d: Delivery, size: U64)
    ensures var b := Plus(a, Totals(m, n));
            Totals(b.delivered + multiset{d}, WrapAdd(b.totalBytes, size)) ==
            Plus(a, Totals(m + multiset{d}, WrapAdd(n, size)))
  {
    assert a.delivered + m + multiset{d} == a.delivered + (m + multiset{d});
  }

  lemma {:induction false} SerialFails(h: Handler, before: Outcome, es: seq<Entry>, k: nat, i: nat)
    requires i < k <= |es| && h(es[i]).Err?
    ensures DeliverFrom(h, before, es, k).result.Err?
    decreases k
  {
    if i < k - 1 { SerialFails(h, before, es, k - 1, i); }
  }

  /** Whatever the schedule, a pool succeeds on a group exactly when serial processing does,
      and then the sink holds the same and the statistics agree. */
  lemma {:induction false} PoolAgreesWithSerial(h: Handler, before: Outcome, es: seq<Entry>, workers: nat,
                                                s: WorkerPool.State)
    requires workers > 0 && before.result.Ok?
    requires WorkerPool.Reachable(PoolOf(h, es, workers), s) && WorkerPool.Final(s)
    ensures var o := DeliverFrom(h, before, es, |es|);
            && (s.slot.None? <==> o.result.Ok?)
            && (s.slot.None? ==> TotalsOf(o) == Plus(TotalsOf(before), PoolTotals(h, es, s)))
  {
    var pool := PoolOf(h, es, workers);
    WorkerPool.PoolResult(pool, s);
    if s.slot.None? {
      forall i | 0 <= i < |es| ensures h(es[i]).Ok? { assert pool.ok(i); }
      SerialTotals(h, before, es, s.counted, |es|);
    } else {
      SerialFails(h, before, es, |es|, s.slot.value);
    }
  }

  // ----- the pipeline -----

  /** How group i is processed: serially, or by a pool that ends in the given state. */
  datatype How = Serially | Pooled(workers: nat, end: WorkerPool.State)

  ghost predicate Possible(h: Handler, es: seq<Entry>, how: How) {
    how.Pooled? ==>
      how.workers > 0 && WorkerPool.Reachable(PoolOf(h, es, how.workers), how.end) && WorkerPool.Final(how.end)
  }

  function ProcessGroupAs(h: Handler, es: seq<Entry>, how: How, o: Totals): Pipeline.Outcome<Totals> {
    match how
    case Serially =>
      var d := DeliverFrom(h, EMPTY, es, |es|);
      Pipeline.Outcome(Plus(o, TotalsOf(d)), d.result.Ok?)
    case Pooled(_, end) => Pipeline.Outcome(Plus(o, PoolTotals(h, es, end)), end.slot.None?)
  }

  function PooledPipe(h: Handler, gs: seq<Group>, how: nat -> How, readers: nat, limit: Option<nat>,
                      readOk: nat -> bool): Pipeline.Config<Totals>
  {
    Pipeline.Config(
      Sizes(gs), readers, limit, readOk,
      (o: Totals, i: nat) =>
        if i < |gs| then ProcessGroupAs(h, gs[i].entries, how(i), o) else Pipeline.Outcome(o, false),
      Totals(multiset{}, 0))
  }

  /** Either way of processing a group agrees with continuing the serial delivery. */
  lemma EitherAgrees(h: Handler, before: Outcome, es: seq<Entry>, how: How)
    requires Possible(h, es, how) && before.result.Ok?
    ensures var o, p := DeliverFrom(h, before, es, |es|), ProcessGroupAs(h, es, how, TotalsOf(before));
            (p.ok <==> o.result.Ok?) && (p.ok ==> p.sink == TotalsOf(o))
  {
    if how.Pooled? {
      PoolAgreesWithSerial(h, before, es, how.workers, how.end);
    } else if forall i :: 0 <= i < |es| ==> h(es[i]).Ok? {
      var X := WorkerPool.AllEntries(|es|);
      SerialTotals(h, before, es, X, |es|);
      SerialTotals(h, EMPTY, es, X, |es|);
    } else {
      var i :| 0 <= i < |es| && h(es[i]).Err?;
      SerialFails(h, before, es, |es|, i);
      SerialFails(h, EMPTY, es, |es|, i);
    }
  }

  /** As long as serial delivery succeeds, the sink holds what it delivers. */
  lemma {:induction false} SinkIsTotals(h: Handler, gs: seq<Group>, order: seq<Entry>, data: Bytes, bs: seq<nat>,
                                        how: nat -> How, pipe: Pipeline.Config<Totals>, k: nat)
    requires Ready(gs, order, data, bs) && k <= |gs| && forall i :: 0 <= i < |gs| ==> Possible(h, gs[i].entries, how(i))
    requires pipe == PooledPipe(h, gs, how, pipe.readers, pipe.limit, pipe.readOk)
    requires bs[k] <= |order| && Deliver(h, order, bs[k]).result.Ok?
    ensures PipelineSafety.SinkAt(pipe, k) == TotalsOf(Deliver(h, order, bs[k]))
    ensures GroupsOk(pipe, k)
  {
    if k > 0 {
      GroupIsReady(h, gs[k - 1], order, data, bs[k - 1], bs[k]);
      if Deliver(h, order, bs[k - 1]).result.Err? { DeliverStops(h, EMPTY, order, bs[k - 1], bs[k]); }
      SinkIsTotals(h, gs, order, data, bs, how, pipe, k - 1);
      GroupAgrees(h, gs, order, data, bs, how, pipe, k - 1);
      OneMoreOk(pipe, k - 1);
    } else {
      assert TotalsOf(EMPTY) == Totals(multiset{}, 0);
    }
  }

  /** The first k groups succeed in turn. */
  ghost predicate GroupsOk(pipe: Pipeline.Config<Totals>, k: nat) {
    forall i :: 0 <= i < k ==> pipe.apply(PipelineSafety.SinkAt(pipe, i), i).ok
  }

  lemma OneMoreOk(pipe: Pipeline.Config<Totals>, k: nat)
    requires GroupsOk(pipe, k) && pipe.apply(PipelineSafety.SinkAt(pipe, k), k).ok
    ensures GroupsOk(pipe, k + 1)
  {
  }

  /** One group further, from a sink that holds what serial delivery has delivered. */
  lemma GroupAgrees(h: Handler, gs: seq<Group>, order: seq<Entry>, data: Bytes, bs: seq<nat>,
                    how: nat -> How, pipe: Pipeline.Config<Totals>, k: nat)
    requires Ready(gs, order, data, bs) && k < |gs| && Possible(h, gs[k].entries, how(k))
    requires pipe == PooledPipe(h, gs, how, pipe.readers, pipe.limit, pipe.readOk)
    requires bs[k] <= |order| && Deliver(h, order, bs[k]).result.Ok?
    requires PipelineSafety.SinkAt(pipe, k) == TotalsOf(Deliver(h, order, bs[k]))
    ensures bs[k + 1] <= |order|
    ensures pipe.apply(PipelineSafety.SinkAt(pipe, k), k).ok <==> Deliver(h, order, bs[k + 1]).result.Ok?
    ensures Deliver(h, order, bs[k + 1]).result.Ok? ==>
              PipelineSafety.SinkAt(pipe, k + 1) == TotalsOf(Deliver(h, order, bs[k + 1]))
  {
    GroupIsReady(h, gs[k], order, data, bs[k], bs[k + 1]);
    var before := Deliver(h, order, bs[k]);
    EitherAgrees(h, before, gs[k].entries, how(k));
    assert pipe.apply(TotalsOf(before), k) == ProcessGroupAs(h, gs[k].entries, how(k), TotalsOf(before));
  }

  /** The group in which serial delivery fails fails in the pipeline as well. */
  lemma {:induction false} SomeGroupFails(h: Handler, gs: seq<Group>, order: seq<Entry>, data: Bytes, bs: seq<nat>,
                                          how: nat -> How, pipe: Pipeline.Config<Totals>, k: nat)
    requires Ready(gs, order, data, bs) && k <= |gs| && forall i :: 0 <= i < |gs| ==> Possible(h, gs[i].entries, how(i))
    requires pipe == PooledPipe(h, gs, how, pipe.readers, pipe.limit, pipe.readOk)
    requires bs[k] <= |order| && Deliver(h, order, bs[k]).result.Err?
    ensures exists i :: 0 <= i < k && !pipe.apply(PipelineSafety.SinkAt(pipe, i), i).ok
  {
    if k > 0 {
      GroupIsReady(h, gs[k - 1], order, data, bs[k - 1], bs[k]);
      var before := Deliver(h, order, bs[k - 1]);
      if before.result.Err? {
        SomeGroupFails(h, gs, order, data, bs, how, pipe, k - 1);
      } else {
        SinkIsTotals(h, gs, order, data, bs, how, pipe, k - 1);
        GroupAgrees(h, gs, order, data, bs, how, pipe, k - 1);
        assert !pipe.apply(PipelineSafety.SinkAt(pipe, k - 1), k - 1).ok;
      }
    }
  }

  /** Every complete run of pipelined extraction, with each group processed serially or by a
      pool under any schedule: it succeeds exactly when every group read succeeds and every
      entry verifies and is taken, and then the sink holds exactly what delivering the
      entries one by one leaves there, with the same byte count. */
  lemma {:induction false} PooledExtraction(
    h: Handler, gs: seq<Group>, order: seq<Entry>, data: Bytes, how: nat -> How, readers: nat, limit: Option<nat>,
    readOk: nat -> bool, s: Pipeline.State<Totals>)
    requires gs != [] && Grouped(gs, |data|) && Flatten(gs) == order && Readable(order, data)
    requires forall i :: 0 <= i < |gs| ==> Possible(h, gs[i].entries, how(i))
    requires readers > 0 && Pipeline.Reachable(PooledPipe(h, gs, how, readers, limit, readOk), s) && Pipeline.Final(s)
    ensures !s.cancelled <==>
            (forall i :: 0 <= i < |gs| ==> readOk(i)) && forall i :: 0 <= i < |order| ==> h(order[i]).Ok?
    ensures !s.cancelled ==> s.sink == TotalsOf(Deliver(h, order, |order|))
  {
    var pipe := PooledPipe(h, gs, how, readers, limit, readOk);
    var bs := LocateGroups(gs, order, |data|);
    PipelineRuns.FinalIff(pipe, s);
    DeliverAllIff(h, order, |order|);
    if Deliver(h, order, |order|).result.Ok? {
      SinkIsTotals(h, gs, order, data, bs, how, pipe, |gs|);
    } else {
      SomeGroupFails(h, gs, order, data, bs, how, pipe, |gs|);
    }
  }

  /** Extraction of a batch with pools, from the caller's entries to the sink: a complete run
      succeeds exactly when every group read succeeds and every selected entry can be read on
      its own and is taken, and then the sink holds exactly what those reads return. */
  lemma {:induction false} PooledAgreesWithReads(
    c: Codec, sink: Sink, es: seq<Entry>, want: Entry -> bool, data: Bytes, maxFileSize: U64,
    order: seq<Entry>, gs: seq<Group>, how: nat -> How, readers: nat, limit: Option<nat>, readOk: nat -> bool,
    s: Pipeline.State<Totals>)
    returns (delivered: seq<Delivery>)
    requires BatchOf(es, want, data, maxFileSize, order, gs)
    requires forall i :: 0 <= i < |gs| ==> Possible(HandlerOf(c, sink, data), gs[i].entries, how(i))
    requires readers > 0 && Pipeline.Final(s)
    requires Pipeline.Reachable(PooledPipe(HandlerOf(c, sink, data), gs, how, readers, limit, readOk), s)
    ensures !s.cancelled <==>
            && (forall i :: 0 <= i < |gs| ==> readOk(i))
            && forall e :: e in es && want(e) ==> Arrives(c, sink, e, data, maxFileSize)
    ensures !s.cancelled ==>
            && s.sink.delivered == multiset(delivered) && |delivered| == |order|
            && forall i :: 0 <= i < |order| ==>
                 && ReadEntry(c, order[i], data, maxFileSize) == Ok(delivered[i].content)
                 && delivered[i].path == order[i].path
    ensures !s.cancelled ==>
              forall d :: s.sink.delivered[d] == CountOf(es, (e: Entry) => want(e) && Gives(c, e, data, maxFileSize, d))
  {
    var h := HandlerOf(c, sink, data);
    ValidatedReadable(order, data, maxFileSize);
    PooledExtraction(h, gs, order, data, how, readers, limit, readOk, s);
    BatchArrives(c, sink, es, want, data, maxFileSize, order);
    delivered := Deliver(h, order, |order|).delivered;
    if !s.cancelled { DeliveredCounts(c, es, want, data, maxFileSize, order, delivered); }
  }
}
