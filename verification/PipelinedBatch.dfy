/**
  Pipelined extraction as a whole: the pipeline over the groups of a validated batch. In
  every interleaving, with any number of readers and any byte budget, the sink holds the
  deliveries of the first groups in order, and a run that reports success has delivered
  what reading the entries one by one delivers.
 */
module PipelinedBatch {
  import opened Wrappers
  import opened Bytes
  import opened Archive
  import opened Readers
  import opened Batch
  import Pipeline
  import PipelineSafety
  import PipelineRuns

  function GroupSize(g: Group): nat {
    if g.start <= g.end then g.end - g.start else 0
  }

  function Sizes(gs: seq<Group>): (sizes: seq<nat>)
    ensures |sizes| == |gs| && forall i :: 0 <= i < |gs| ==> sizes[i] == GroupSize(gs[i])
  {
    seq(|gs|, i requires 0 <= i < |gs| => GroupSize(gs[i]))
  }

  function ApplyGroup(h: Handler, gs: seq<Group>, o: Outcome, i: nat): Pipeline.Outcome<Outcome>
    requires i < |gs|
  {
    var r := DeliverFrom(h, o, gs[i].entries, |gs[i].entries|);
    Pipeline.Outcome(r, r.result.Ok?)
  }

  /** The pipeline over the groups; `readOk` says which group reads succeed. */
  function PipeOf(h: Handler, gs: seq<Group>, readers: nat, limit: Option<nat>, readOk: nat -> bool)
    : Pipeline.Config<Outcome>
  {
    Pipeline.Config(
      Sizes(gs), readers, limit, readOk,
      (o: Outcome, i: nat) => if i < |gs| then ApplyGroup(h, gs, o, i) else Pipeline.Outcome(o, false),
      EMPTY)
  }

  /** A validated batch and its groups, located in it. */
  ghost predicate Ready(gs: seq<Group>, order: seq<Entry>, data: Bytes, bs: seq<nat>) {
    && gs != [] && Readable(order, data)
    && |bs| == |gs| + 1 && bs[0] == 0 && bs[|gs|] == |order|
    && (forall i :: 0 <= i < |gs| ==> Located(gs[i], order, |data|, bs[i], bs[i + 1]))
  }

  /** The sink after groups 0, ..., k - 1. */
  lemma {:induction false} SinkIsDeliver(h: Handler, gs: seq<Group>, order: seq<Entry>, data: Bytes, bs: seq<nat>,
                                         pipe: Pipeline.Config<Outcome>, k: nat)
    requires Ready(gs, order, data, bs) && k <= |gs|
    requires pipe == PipeOf(h, gs, pipe.readers, pipe.limit, pipe.readOk)
    ensures bs[k] <= |order| && PipelineSafety.SinkAt(pipe, k) == Deliver(h, order, bs[k])
  {
    if k > 0 {
      SinkIsDeliver(h, gs, order, data, bs, pipe, k - 1);
      GroupIsReady(h, gs[k - 1], order, data, bs[k - 1], bs[k]);
    }
  }

  lemma {:induction false} ReplayIsSinkAt(pipe: Pipeline.Config<Outcome>, t: seq<nat>)
    requires forall i :: 0 <= i < |t| ==> t[i] == i
    ensures PipelineSafety.Replay(pipe, t) == PipelineSafety.SinkAt(pipe, |t|)
  {
    if t != [] { ReplayIsSinkAt(pipe, t[..|t| - 1]); }
  }

  /** Every reachable state of pipelined extraction: the sink has received the entries of
      the first groups, in offset order, up to the first that fails. */
  lemma SinkHoldsFirstGroups(h: Handler, gs: seq<Group>, order: seq<Entry>, data: Bytes, bs: seq<nat>,
                             pipe: Pipeline.Config<Outcome>, s: Pipeline.State<Outcome>)
    requires Ready(gs, order, data, bs) && pipe.readers > 0
    requires pipe == PipeOf(h, gs, pipe.readers, pipe.limit, pipe.readOk)
    requires Pipeline.Reachable(pipe, s)
    ensures |s.trace| <= |gs| && bs[|s.trace|] <= |order|
    ensures s.sink == Deliver(h, order, bs[|s.trace|])
  {
    PipelineRuns.SinkSeesSequentialPrefix(pipe, s);
    PipelineRuns.SequentialOrder(pipe, pipe.sink0, 0);
    ReplayIsSinkAt(pipe, s.trace);
    SinkIsDeliver(h, gs, order, data, bs, pipe, |s.trace|);
  }

  /** Every group succeeds in turn exactly when every entry does. */
  lemma ClearIff(h: Handler, gs: seq<Group>, order: seq<Entry>, data: Bytes, bs: seq<nat>,
                 pipe: Pipeline.Config<Outcome>)
    requires Ready(gs, order, data, bs)
    requires pipe == PipeOf(h, gs, pipe.readers, pipe.limit, pipe.readOk)
    ensures PipelineSafety.ClearTo(pipe, |gs|) <==>
            (forall i :: 0 <= i < |gs| ==> pipe.readOk(i)) && forall i :: 0 <= i < |order| ==> h(order[i]).Ok?
  {
    DeliverAllIff(h, order, |order|);
    forall i | 0 <= i < |gs|
      ensures pipe.apply(PipelineSafety.SinkAt(pipe, i), i).ok <==> Deliver(h, order, bs[i + 1]).result.Ok?
      ensures Deliver(h, order, bs[i + 1]).result.Err? ==> Deliver(h, order, |order|).result.Err?
    {
      GroupSucceeds(h, gs, order, data, bs, pipe, i);
    }
    assert PipelineSafety.ClearTo(pipe, |gs|) ==> pipe.apply(PipelineSafety.SinkAt(pipe, |gs| - 1), |gs| - 1).ok;
  }

  lemma GroupSucceeds(h: Handler, gs: seq<Group>, order: seq<Entry>, data: Bytes, bs: seq<nat>,
                      pipe: Pipeline.Config<Outcome>, i: nat)
    requires Ready(gs, order, data, bs) && i < |gs|
    requires pipe == PipeOf(h, gs, pipe.readers, pipe.limit, pipe.readOk)
    ensures bs[i + 1] <= |order|
    ensures pipe.apply(PipelineSafety.SinkAt(pipe, i), i).ok <==> Deliver(h, order, bs[i + 1]).result.Ok?
    ensures Deliver(h, order, bs[i + 1]).result.Err? ==> Deliver(h, order, |order|).result.Err?
  {
    SinkIsDeliver(h, gs, order, data, bs, pipe, i);
    GroupIsReady(h, gs[i], order, data, bs[i], bs[i + 1]);
    if Deliver(h, order, bs[i + 1]).result.Err? { DeliverStops(h, EMPTY, order, bs[i + 1], |order|); }
  }

  /** Every complete run of pipelined extraction, whatever the schedule, the number of
      readers and the byte budget: it succeeds exactly when every group read succeeds and
      every entry verifies and is taken, and then the sink and the statistics are those of
      delivering the entries one by one. */
  lemma {:induction false} PipelinedExtraction(
    h: Handler, gs: seq<Group>, order: seq<Entry>, data: Bytes, readers: nat, limit: Option<nat>, readOk: nat -> bool,
    s: Pipeline.State<Outcome>)
    requires gs != [] && Grouped(gs, |data|) && Flatten(gs) == order && Readable(order, data)
    requires readers > 0 && Pipeline.Reachable(PipeOf(h, gs, readers, limit, readOk), s) && Pipeline.Final(s)
    ensures !s.cancelled <==>
            (forall i :: 0 <= i < |gs| ==> readOk(i)) && forall i :: 0 <= i < |order| ==> h(order[i]).Ok?
    ensures !s.cancelled ==> s.sink == Deliver(h, order, |order|)
  {
    var pipe := PipeOf(h, gs, readers, limit, readOk);
    var bs := LocateGroups(gs, order, |data|);
    PipelineRuns.FinalIff(pipe, s);
    ClearIff(h, gs, order, data, bs, pipe);
    SinkIsDeliver(h, gs, order, data, bs, pipe, |gs|);
  }

  /** The groups of a selected, validated and sorted batch. */
  ghost predicate BatchOf(es: seq<Entry>, want: Entry -> bool, data: Bytes, maxFileSize: U64,
                          order: seq<Entry>, gs: seq<Group>) {
    && |data| <= MAX_INT64 && SortedByOffset(order)
    && (forall e :: multiset(order)[e] == if want(e) then multiset(es)[e] else 0)
    && (forall e :: e in order ==> ValidateAll(e, |data|, maxFileSize).Ok?)
    && gs != [] && Grouped(gs, |data|) && Flatten(gs) == order
  }

  /** What Process does before it starts the pipeline: nothing to do, a refusal, or groups. */
  method Prepare(es: seq<Entry>, want: Entry -> bool, data: Bytes, maxFileSize: U64)
    returns (r: Result<seq<Group>>, order: seq<Entry>)
    requires |data| <= MAX_INT64
    ensures r.Err? <==> exists e :: e in es && want(e) && ValidateAll(e, |data|, maxFileSize).Err?
    ensures r == Ok([]) ==> forall e :: e in es ==> !want(e)
    ensures r.Ok? && r.value != [] ==> BatchOf(es, want, data, maxFileSize, order, r.value)
  {
    var chosen := Selected(es, want);
    order := SortByOffset(chosen);
    SelectedCounts(es, want);
    ChosenMembers(es, want, order);
    ChosenMembers(es, want, chosen);
    for i := 0 to |chosen|
      invariant forall k :: 0 <= k < i ==> ValidateAll(chosen[k], |data|, maxFileSize).Ok?
    {
      var v := ValidateAll(chosen[i], |data|, maxFileSize);
      if v.Err? {
        assert chosen[i] in chosen;
        return Err(v.error), order;
      }
    }
    if chosen == [] { return Ok([]), order; }
    assert chosen[0] in chosen;
    ValidatedReadable(order, data, maxFileSize);
    var gs := GroupAdjacent(order, |data|);
    r := Ok(gs);
  }

  /** Pipelined extraction of a batch, from the caller's entries to the sink: a complete run
      succeeds exactly when every group read succeeds and every selected entry can be read on
      its own and is taken, and then the sink holds, in offset order, what those reads return. */
  lemma {:induction false} PipelinedAgreesWithReads(
    c: Codec, sink: Sink, es: seq<Entry>, want: Entry -> bool, data: Bytes, maxFileSize: U64,
    order: seq<Entry>, gs: seq<Group>, readers: nat, limit: Option<nat>, readOk: nat -> bool,
    s: Pipeline.State<Outcome>)
    requires BatchOf(es, want, data, maxFileSize, order, gs) && readers > 0
    requires Pipeline.Reachable(PipeOf(HandlerOf(c, sink, data), gs, readers, limit, readOk), s) && Pipeline.Final(s)
    ensures !s.cancelled <==>
            && (forall i :: 0 <= i < |gs| ==> readOk(i))
            && forall e :: e in es && want(e) ==> Arrives(c, sink, e, data, maxFileSize)
    ensures !s.cancelled ==>
            && |s.sink.delivered| == |order|
            && forall i :: 0 <= i < |order| ==>
                 && ReadEntry(c, order[i], data, maxFileSize) == Ok(s.sink.delivered[i].content)
                 && s.sink.delivered[i].path == order[i].path
    ensures !s.cancelled ==>
              forall d :: multiset(s.sink.delivered)[d] ==
                          CountOf(es, (e: Entry) => want(e) && Gives(c, e, data, maxFileSize, d))
  {
    var h := HandlerOf(c, sink, data);
    ValidatedReadable(order, data, maxFileSize);
    PipelinedExtraction(h, gs, order, data, readers, limit, readOk, s);
    BatchArrives(c, sink, es, want, data, maxFileSize, order);
    if !s.cancelled { DeliveredCounts(c, es, want, data, maxFileSize, order, s.sink.delivered); }
  }

  /** Every entry of the batch is handled exactly when every selected entry arrives. */
  lemma {:induction false} BatchArrives(c: Codec, sink: Sink, es: seq<Entry>, want: Entry -> bool, data: Bytes,
                                        maxFileSize: U64, order: seq<Entry>)
    requires forall e :: multiset(order)[e] == if want(e) then multiset(es)[e] else 0
    requires forall e :: e in order ==> ValidateAll(e, |data|, maxFileSize).Ok?
    ensures var h := HandlerOf(c, sink, data);
            var o := Deliver(h, order, |order|);
            && ((forall i :: 0 <= i < |order| ==> h(order[i]).Ok?) <==>
                forall e :: e in es && want(e) ==> Arrives(c, sink, e, data, maxFileSize))
            && ((forall i :: 0 <= i < |order| ==> h(order[i]).Ok?) ==>
                  && |o.delivered| == |order|
                  && forall i :: 0 <= i < |order| ==>
                       && ReadEntry(c, order[i], data, maxFileSize) == Ok(o.delivered[i].content)
                       && o.delivered[i].path == order[i].path)
  {
    ChosenMembers(es, want, order);
    DeliverIsReads(c, sink, order, data, maxFileSize);
    DeliverAllIff(HandlerOf(c, sink, data), order, |order|);
  }
}
