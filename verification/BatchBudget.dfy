/**
  The byte budget of pipelined extraction, in terms of the entries: what the semaphore
  counts is the stored bytes of the entries in the groups that are being held, and whether
  extraction can deadlock is a question of those bytes.
 */
module BatchBudget {
  import opened Wrappers
  import opened Sums
  import opened Bytes
  import opened Archive
  import opened Batch
  import opened PipelinedBatch
  import PooledBatch
  import Pipeline
  import PipelineSafety
  import PipelineRuns
  import PipelineLiveness

  /** The stored bytes of the entries. */
  function StoredBytes(es: seq<Entry>): nat {
    if es == [] then 0 else StoredBytes(es[..|es| - 1]) + es[|es| - 1].dataSize
  }

  lemma {:induction false} StoredConcat(a: seq<Entry>, b: seq<Entry>)
    ensures StoredBytes(a + b) == StoredBytes(a) + StoredBytes(b)
  {
    if b == [] {
      assert a + b == a;
    } else {
      StoredConcat(a, b[..|b| - 1]);
      assert (a + b)[..|a + b| - 1] == a + b[..|b| - 1];
    }
  }

  /** Adjacent entries span exactly their bytes. */
  lemma {:induction false} SpanIsBytes(es: seq<Entry>)
    requires es != [] && Adjacent(es)
    ensures es[0].dataOffset + StoredBytes(es) == es[|es| - 1].dataOffset + es[|es| - 1].dataSize
  {
    var n := |es| - 1;
    if n > 0 {
      SpanIsBytes(es[..n]);
      assert es[n - 1].dataOffset + es[n - 1].dataSize == es[n].dataOffset;
    } else {
      assert StoredBytes(es[..n]) == 0;
    }
  }

  /** The size that a group is charged for. */
  lemma SizeIsBytes(gs: seq<Group>, size: nat, i: nat)
    requires Grouped(gs, size) && i < |gs|
    ensures Sizes(gs)[i] == StoredBytes(gs[i].entries)
  {
    SpanIsBytes(gs[i].entries);
  }

  /** The stored bytes of the groups below k that are in X. */
  function BytesOf(gs: seq<Group>, X: set<nat>, k: nat): nat
    requires k <= |gs|
  {
    if k == 0 then 0 else BytesOf(gs, X, k - 1) + if k - 1 in X then StoredBytes(gs[k - 1].entries) else 0
  }

  lemma {:induction false} SumIsBytes(gs: seq<Group>, size: nat, X: set<nat>, k: nat)
    requires Grouped(gs, size) && k <= |gs|
    ensures SumIn(Sizes(gs), X, k) == BytesOf(gs, X, k)
  {
    if k > 0 {
      SumIsBytes(gs, size, X, k - 1);
      SizeIsBytes(gs, size, k - 1);
    }
  }

  lemma {:induction false} RangeIsBytes(gs: seq<Group>, size: nat, k: nat)
    requires Grouped(gs, size) && k <= |gs|
    ensures SumRange(Sizes(gs), 0, k) == StoredBytes(Flatten(gs[..k]))
  {
    if k > 0 {
      RangeIsBytes(gs, size, k - 1);
      SizeIsBytes(gs, size, k - 1);
      assert gs[..k][..k - 1] == gs[..k - 1];
      StoredConcat(Flatten(gs[..k - 1]), gs[k - 1].entries);
    }
  }

  // ----- what is held -----

  lemma HeldIsBytes<S(!new)>(pipe: Pipeline.Config<S>, gs: seq<Group>, size: nat, s: Pipeline.State<S>)
    requires gs != [] && Grouped(gs, size) && pipe.sizes == Sizes(gs) && pipe.readers > 0 && Pipeline.Reachable(pipe, s)
    ensures s.held == BytesOf(gs, PipelineSafety.Outstanding(s), |gs|)
    ensures pipe.limit.Some? ==> s.held <= pipe.limit.value
  {
    PipelineRuns.BudgetConserved(pipe, s);
    SumIsBytes(gs, size, PipelineSafety.Outstanding(s), |gs|);
  }

  /** In every reachable state of pipelined extraction the semaphore holds the stored bytes of
      the entries in the groups acquired and not released, and no more than the limit. */
  lemma PipelinedHolds(h: Handler, gs: seq<Group>, size: nat, readers: nat, limit: Option<nat>, readOk: nat -> bool,
                       s: Pipeline.State<Outcome>)
    requires gs != [] && Grouped(gs, size) && readers > 0
    requires Pipeline.Reachable(PipeOf(h, gs, readers, limit, readOk), s)
    ensures s.held == BytesOf(gs, PipelineSafety.Outstanding(s), |gs|)
    ensures limit.Some? ==> BytesOf(gs, PipelineSafety.Outstanding(s), |gs|) <= limit.value
  {
    HeldIsBytes(PipeOf(h, gs, readers, limit, readOk), gs, size, s);
  }

  /** The same with worker pools. */
  lemma PooledHolds(h: Handler, gs: seq<Group>, size: nat, how: nat -> PooledBatch.How, readers: nat,
                    limit: Option<nat>, readOk: nat -> bool, s: Pipeline.State<PooledBatch.Totals>)
    requires gs != [] && Grouped(gs, size) && readers > 0
    requires Pipeline.Reachable(PooledBatch.PooledPipe(h, gs, how, readers, limit, readOk), s)
    ensures s.held == BytesOf(gs, PipelineSafety.Outstanding(s), |gs|)
    ensures limit.Some? ==> BytesOf(gs, PipelineSafety.Outstanding(s), |gs|) <= limit.value
  {
    HeldIsBytes(PooledBatch.PooledPipe(h, gs, how, readers, limit, readOk), gs, size, s);
  }

  // ----- deadlock -----

  /** One reader needs each group's bytes to fit, several need all entries' bytes to fit. */
  ghost predicate BytesFit(gs: seq<Group>, readers: nat, limit: Option<nat>) {
    limit.Some? ==>
      if readers == 1 then forall i :: 0 <= i < |gs| ==> StoredBytes(gs[i].entries) <= limit.value
      else StoredBytes(Flatten(gs)) <= limit.value
  }

  lemma SufficesIffFit(gs: seq<Group>, size: nat, readers: nat, limit: Option<nat>)
    requires Grouped(gs, size)
    ensures PipelineLiveness.BudgetSuffices(Sizes(gs), readers, limit) <==> BytesFit(gs, readers, limit)
  {
    RangeIsBytes(gs, size, |gs|);
    assert gs[..|gs|] == gs;
    forall i | 0 <= i < |gs| ensures Sizes(gs)[i] == StoredBytes(gs[i].entries) { SizeIsBytes(gs, size, i); }
  }

  lemma FinishesIfFit<S(!new)>(pipe: Pipeline.Config<S>, gs: seq<Group>, size: nat)
    requires gs != [] && Grouped(gs, size) && pipe.sizes == Sizes(gs) && pipe.readers > 0
    requires BytesFit(gs, pipe.readers, pipe.limit)
    ensures PipelineLiveness.AlwaysFinishes(pipe)
  {
    SufficesIffFit(gs, size, pipe.readers, pipe.limit);
    forall s: Pipeline.State<S> | Pipeline.Reachable(pipe, s) ensures !Pipeline.Stuck(pipe, s) {
      PipelineRuns.ReachableInv(pipe, s);
      if !Pipeline.Final(s) { var a := PipelineLiveness.Progress(pipe, s); }
    }
  }

  lemma StuckIfNot<S(!new)>(pipe: Pipeline.Config<S>, gs: seq<Group>, size: nat)
    requires gs != [] && Grouped(gs, size) && pipe.sizes == Sizes(gs) && pipe.readers > 0
    requires !BytesFit(gs, pipe.readers, pipe.limit) && PipelineSafety.ClearTo(pipe, |gs|)
    ensures !PipelineLiveness.AlwaysFinishes(pipe)
  {
    SufficesIffFit(gs, size, pipe.readers, pipe.limit);
    PipelineRuns.SequentialIff(pipe, 0);
    assert PipelineSafety.SinkAt(pipe, 0) == pipe.sink0;
    var t := PipelineLiveness.InsufficientBudgetCanBeStuck(pipe);
  }

  function Accepting(): Handler {
    _ => Ok([])
  }

  lemma {:induction false} AllGoodSink(gs: seq<Group>, readers: nat, limit: Option<nat>, k: nat)
    requires k <= |gs|
    ensures PipelineSafety.SinkAt(PipeOf(Accepting(), gs, readers, limit, _ => true), k).result.Ok?
  {
    if k > 0 {
      AllGoodSink(gs, readers, limit, k - 1);
      var before := PipelineSafety.SinkAt(PipeOf(Accepting(), gs, readers, limit, _ => true), k - 1);
      AllHandled(Accepting(), before, gs[k - 1].entries, |gs[k - 1].entries|);
    }
  }

  /** When pipelined extraction of a batch cannot deadlock, whatever fails: exactly when the
      entries' stored bytes fit the budget, group by group for one reader, all together for
      several. */
  lemma PipelinedDeadlockFreeIff(gs: seq<Group>, size: nat, readers: nat, limit: Option<nat>)
    requires gs != [] && Grouped(gs, size) && readers > 0
    ensures (forall h, readOk :: PipelineLiveness.AlwaysFinishes(PipeOf(h, gs, readers, limit, readOk)))
            <==> BytesFit(gs, readers, limit)
  {
    if BytesFit(gs, readers, limit) {
      forall h, readOk ensures PipelineLiveness.AlwaysFinishes(PipeOf(h, gs, readers, limit, readOk)) {
        FinishesIfFit(PipeOf(h, gs, readers, limit, readOk), gs, size);
      }
    } else {
      var pipe := PipeOf(Accepting(), gs, readers, limit, _ => true);
      forall i | 0 <= i < |gs| ensures pipe.readOk(i) && pipe.apply(PipelineSafety.SinkAt(pipe, i), i).ok {
        AllGoodSink(gs, readers, limit, i);
        AllHandled(Accepting(), PipelineSafety.SinkAt(pipe, i), gs[i].entries, |gs[i].entries|);
      }
      StuckIfNot(pipe, gs, size);
    }
  }

  lemma {:induction false} AllGoodPooled(gs: seq<Group>, i: nat, o: PooledBatch.Totals)
    requires i < |gs|
    ensures PooledBatch.ProcessGroupAs(Accepting(), gs[i].entries, PooledBatch.Serially, o).ok
  {
    AllHandled(Accepting(), EMPTY, gs[i].entries, |gs[i].entries|);
  }

  /** The same when groups are processed by pools, under any schedules. */
  lemma PooledDeadlockFreeIff(gs: seq<Group>, size: nat, readers: nat, limit: Option<nat>)
    requires gs != [] && Grouped(gs, size) && readers > 0
    ensures (forall h: Handler, how: nat -> PooledBatch.How, readOk: nat -> bool ::
               (forall i :: 0 <= i < |gs| ==> PooledBatch.Possible(h, gs[i].entries, how(i))) ==>
                 PipelineLiveness.AlwaysFinishes(PooledBatch.PooledPipe(h, gs, how, readers, limit, readOk)))
            <==> BytesFit(gs, readers, limit)
  {
    if BytesFit(gs, readers, limit) {
      forall h: Handler, how: nat -> PooledBatch.How, readOk: nat -> bool
        ensures PipelineLiveness.AlwaysFinishes(PooledBatch.PooledPipe(h, gs, how, readers, limit, readOk))
      {
        FinishesIfFit(PooledBatch.PooledPipe(h, gs, how, readers, limit, readOk), gs, size);
      }
    } else {
      var how: nat -> PooledBatch.How := _ => PooledBatch.Serially;
      var pipe := PooledBatch.PooledPipe(Accepting(), gs, how, readers, limit, _ => true);
      forall i | 0 <= i < |gs| ensures pipe.readOk(i) && pipe.apply(PipelineSafety.SinkAt(pipe, i), i).ok {
        AllGoodPooled(gs, i, PipelineSafety.SinkAt(pipe, i));
      }
      StuckIfNot(pipe, gs, size);
      assert forall i :: 0 <= i < |gs| ==> PooledBatch.Possible(Accepting(), gs[i].entries, how(i));
    }
  }
}
