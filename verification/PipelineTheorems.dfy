/**
  Safety over whole runs of the pipeline: order, refinement of the sequential loop
  and the byte budget.
 */
module PipelineRuns {
  import opened Wrappers
  import opened Sums
  import opened Pipeline
  import opened PipelineSafety

  lemma {:induction false} ExecInv<S(!new)>(c: Config<S>, acts: seq<Action>)
    requires c.Valid() && Exec(c, acts).Some?
    ensures Inv(c, Exec(c, acts).value)
  {
    if acts == [] {
      InitInv(c);
    } else {
      var before := acts[..|acts| - 1];
      ExecInv(c, before);
      StepInv(c, Exec(c, before).value, acts[|acts| - 1], Exec(c, acts).value);
    }
  }

  lemma ReachableInv<S(!new)>(c: Config<S>, s: State<S>)
    requires c.Valid() && Reachable(c, s)
    ensures Inv(c, s)
  {
    var acts :| Exec(c, acts) == Some(s);
    ExecInv(c, acts);
  }

  /** The sequential loop hands the sink groups k, k+1, ... in index order. */
  lemma {:induction false} SequentialOrder<S(!new)>(c: Config<S>, sink: S, k: nat)
    requires k <= |c.sizes|
    ensures var t := Sequential(c, sink, k).trace;
            && |t| <= |c.sizes| - k
            && (forall i :: 0 <= i < |t| ==> t[i] == k + i)
            && (Sequential(c, sink, k).ok ==> |t| == |c.sizes| - k)
    decreases |c.sizes| - k
  {
    if k < |c.sizes| && c.readOk(k) && c.apply(sink, k).ok {
      SequentialOrder(c, c.apply(sink, k).sink, k + 1);
    }
  }

  /** The sequential loop from group k on succeeds exactly when each remaining read and
      each remaining group does. */
  lemma {:induction false} SequentialIff<S(!new)>(c: Config<S>, k: nat)
    requires k <= |c.sizes|
    ensures var run := Sequential(c, SinkAt(c, k), k);
            && (run.ok <==> forall i :: k <= i < |c.sizes| ==> c.readOk(i) && c.apply(SinkAt(c, i), i).ok)
            && (run.ok ==> run.sink == SinkAt(c, |c.sizes|))
    decreases |c.sizes| - k
  {
    if k < |c.sizes| { SequentialIff(c, k + 1); }
  }

  /** A complete run succeeds exactly when every read and every group succeeds in turn. */
  lemma FinalIff<S(!new)>(c: Config<S>, s: State<S>)
    requires c.Valid() && Reachable(c, s) && Final(s)
    ensures !s.cancelled <==> ClearTo(c, |c.sizes|)
    ensures !s.cancelled ==> s.sink == SinkAt(c, |c.sizes|)
  {
    PipelineRefinesSequential(c, s);
    SequentialIff(c, 0);
    assert SinkAt(c, 0) == c.sink0;
    var run := Sequential(c, SinkAt(c, 0), 0);
    assert run.ok <==> ClearTo(c, |c.sizes|);
  }

  /** In every interleaving the sink has seen a prefix of what the sequential loop
      shows it: groups 0, 1, ... each once and in index order; and the sink's state
      is the state after exactly those groups. */
  lemma SinkSeesSequentialPrefix<S(!new)>(c: Config<S>, s: State<S>)
    requires c.Valid() && Reachable(c, s)
    ensures s.trace <= Sequential(c, c.sink0, 0).trace
    ensures forall i :: 0 <= i < |s.trace| ==> s.trace[i] == i
    ensures s.sink == Replay(c, s.trace)
  {
    ReachableInv(c, s);
    SequentialOrder(c, c.sink0, 0);
    var t := Sequential(c, c.sink0, 0).trace;
    assert t[..|s.trace|] == s.trace;
    assert forall i :: 0 <= i < |s.trace| ==> s.trace[i] == t[i];
  }

  /** When every goroutine has returned, the pipeline reports success exactly when
      the sequential loop does, and then the sink saw the same groups and ended in
      the same state. */
  lemma PipelineRefinesSequential<S(!new)>(c: Config<S>, s: State<S>)
    requires c.Valid() && Reachable(c, s) && Final(s)
    ensures !s.cancelled <==> Sequential(c, c.sink0, 0).ok
    ensures !s.cancelled ==> s.trace == Sequential(c, c.sink0, 0).trace && s.sink == Sequential(c, c.sink0, 0).sink
  {
    ReachableInv(c, s);
    if s.cancelled {
      NoFailureWhenOk(c, s.failure.value);
    } else {
      var rest := Sequential(c, s.sink, s.next);
      assert s.next == |c.sizes|;
      assert s.trace + rest.trace == s.trace;
    }
  }

  /** In every reachable state the semaphore's counter is the sum of the sizes of the
      groups acquired and not yet released, and these are the groups some reader is
      reading or sending, or that are buffered or being processed (or were abandoned
      there by an error); it respects the limit; no group is released twice. */
  lemma BudgetConserved<S(!new)>(c: Config<S>, s: State<S>)
    requires c.Valid() && Reachable(c, s)
    ensures s.held == SumIn(c.sizes, Outstanding(s), |c.sizes|)
    ensures Outstanding(s) == HeldByReaders(s.readers) + Buffered(s)
    ensures c.limit.Some? ==> s.held <= c.limit.value
    ensures forall i, j :: 0 <= i < j < |s.released| ==> s.released[i] != s.released[j]
    ensures forall i :: i in s.released ==> i in s.acquired
  {
    ReachableInv(c, s);
  }

  /** Until an error is returned or reported, every group dispatched and not yet consumed
      is in exactly one place: with one reader, or buffered. */
  lemma NoGroupLost<S(!new)>(c: Config<S>, s: State<S>)
    requires c.Valid() && Reachable(c, s) && !s.cancelled && !s.consumer.Failing?
    ensures forall i :: s.next <= i < s.sent <==> i in Tasks(s.readers) + Buffered(s)
    ensures Tasks(s.readers) !! Buffered(s) && DistinctTasks(s.readers)
  {
    ReachableInv(c, s);
    forall i | s.next <= i < s.sent ensures i in Tasks(s.readers) + Buffered(s) {}
    forall i | i in Tasks(s.readers) + Buffered(s) ensures s.next <= i < s.sent {}
  }

  /** processGroupsSequential: read and process one group after the other. */
  method RunSequential<S(!new)>(c: Config<S>) returns (run: Run<S>)
    ensures run == Sequential(c, c.sink0, 0)
  {
    var trace: seq<nat>, sink := [], c.sink0;
    var k := 0;
    while k < |c.sizes|
      invariant 0 <= k <= |c.sizes|
      invariant var rest := Sequential(c, sink, k);
                Sequential(c, c.sink0, 0) == Run(trace + rest.trace, rest.sink, rest.ok)
    {
      if !c.readOk(k) { return Run(trace + [], sink, false); }
      var o := c.apply(sink, k);
      if !o.ok { return Run(trace + [k], o.sink, false); }
      assert forall rest: seq<nat> :: trace + ([k] + rest) == (trace + [k]) + rest;
      trace, sink := trace + [k], o.sink;
      k := k + 1;
    }
    assert trace + [] == trace;
    run := Run(trace, sink, true);
  }
}
