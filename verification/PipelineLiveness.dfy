/**
  Termination and deadlock. Every step lowers a measure, so every run is bounded.
  Whether a run can get stuck depends only on the group sizes, the number of readers
  and the byte budget, and `DeadlockFreeIff` says exactly when.
 */
module PipelineLiveness {
  import opened Wrappers
  import opened Sums
  import opened Pipeline
  import opened PipelineSafety
  import opened PipelineRuns

  // ----- a measure that every step lowers -----

  function Weight(p: Phase): nat {
    match p
    case Exited => 0
    case Idle => 1
    case Returned(_) => 1
    case Sending(_) => 9
    case Reading(_) => 10
    case Granted(_) => 11
    case Queued(_) => 12
    case Doomed(_) => 12
    case Got(_) => 13
  }

  function Weights(rs: seq<Phase>): nat {
    if rs == [] then 0 else Weights(rs[..|rs| - 1]) + Weight(rs[|rs| - 1])
  }

  lemma {:induction false} WeightsUpdate(rs: seq<Phase>, r: nat, p: Phase)
    requires r < |rs|
    ensures Weights(rs[r := p]) == Weights(rs) - Weight(rs[r]) + Weight(p)
  {
    var n := |rs| - 1;
    if r < n {
      WeightsUpdate(rs[..n], r, p);
      assert rs[r := p][..n] == rs[..n][r := p];
    } else {
      assert rs[r := p][..n] == rs[..n];
    }
  }

  function ConsumerWeight(k: Consumer): nat {
    match k
    case Finished => 0
    case Failing(_) => 1
    case Selecting => 2
    case Draining => 3
    case Processing => 6
  }

  function Measure<S(!new)>(c: Config<S>, s: State<S>): int {
    13 * (|c.sizes| - s.sent) + (if s.producing then 1 else 0) + Weights(s.readers)
    + 7 * |s.ready| + 4 * |s.pending| + ConsumerWeight(s.consumer)
  }

  lemma WaitingLowersMeasure<S(!new)>(c: Config<S>, s: State<S>, a: Action, r: nat, s': State<S>)
    requires TaskInRange(c, s, r) && (DoWaiting(c, s, a, r) == Some(s') || DoSemaphore(c, s, a, r) == Some(s'))
    ensures Measure(c, s') < Measure(c, s)
  {
    WeightsUpdate(s.readers, r, s'.readers[r]);
  }

  lemma HoldingLowersMeasure<S(!new)>(c: Config<S>, s: State<S>, a: Action, r: nat, s': State<S>)
    requires TaskInRange(c, s, r) && DoHolding(c, s, a, r) == Some(s')
    ensures Measure(c, s') < Measure(c, s)
  {
    WeightsUpdate(s.readers, r, s'.readers[r]);
  }

  lemma ReportLowersMeasure<S(!new)>(c: Config<S>, s: State<S>, r: nat, s': State<S>)
    requires r < |s.readers| && DoReport(s, r) == Some(s')
    ensures Measure(c, s') < Measure(c, s)
  {
    WeightsUpdate(s.readers, r, Exited);
  }

  lemma SharedLowersMeasure<S(!new)>(c: Config<S>, s: State<S>, a: Action, s': State<S>)
    requires DoShared(c, s, a) == Some(s')
    ensures Measure(c, s') < Measure(c, s)
  {
    assert a.Receive? ==> |s'.pending| <= |s.pending| + 1 && |s'.ready| == |s.ready| - 1;
    assert a.Drain? && s.next in s.pending ==> |s'.pending| == |s.pending| - 1;
  }

  lemma StepLowersMeasure<S(!new)>(c: Config<S>, s: State<S>, a: Action, s': State<S>)
    requires Do(c, s, a) == Some(s')
    ensures Measure(c, s') < Measure(c, s)
  {
    if a.Dispatch? || a.GiveUp? || a.Quit? || a.Start? || a.Grant? {
      WaitingLowersMeasure(c, s, a, a.r, s');
    } else if a.Resume? || a.Read? || a.Send? || a.AbortSend? {
      HoldingLowersMeasure(c, s, a, a.r, s');
    } else if a.Report? {
      ReportLowersMeasure(c, s, a.r, s');
    } else {
      SharedLowersMeasure(c, s, a, s');
    }
  }

  /** Every run, whatever the schedule and whatever fails, has a bounded length. */
  lemma {:induction false} RunsAreBounded<S(!new)>(c: Config<S>, acts: seq<Action>)
    requires c.Valid() && Exec(c, acts).Some?
    ensures |acts| + Measure(c, Exec(c, acts).value) <= Measure(c, Init(c))
    ensures 0 <= Measure(c, Exec(c, acts).value)
  {
    ExecInv(c, acts);
    if acts != [] {
      var before := acts[..|acts| - 1];
      RunsAreBounded(c, before);
      StepLowersMeasure(c, Exec(c, before).value, acts[|acts| - 1], Exec(c, acts).value);
    }
  }

  // ----- when the budget suffices -----

  /** One reader needs each group to fit on its own; two or more need all of them to
      fit together. */
  predicate BudgetSuffices(sizes: seq<nat>, readers: nat, limit: Option<nat>) {
    limit.Some? ==>
      if readers == 1 then forall i :: 0 <= i < |sizes| ==> sizes[i] <= limit.value
      else SumRange(sizes, 0, |sizes|) <= limit.value
  }

  // ----- progress -----

  lemma NoTasksWhenDone<S(!new)>(c: Config<S>, s: State<S>, r: nat)
    requires Shape(c, s) && Complete(c, s) && !s.cancelled && s.consumer.Finished? && r < |s.readers|
    ensures !s.readers[r].HasTask()
  {
    TaskIsIn(s.readers, r);
  }

  lemma TaskIsIn(rs: seq<Phase>, r: nat)
    requires r < |rs|
    ensures rs[r].HasTask() ==> rs[r].task in Tasks(rs)
  {
  }

  /** The reader at the head of the queue can be served: everything held is pending,
      and what is pending fits together with its request. */
  lemma HeadFits<S(!new)>(c: Config<S>, s: State<S>)
    requires c.Valid() && Inv(c, s) && BudgetSuffices(c.sizes, c.readers, c.limit)
    requires !s.cancelled && s.consumer.Selecting? && s.ready == [] && s.queue != []
    requires forall r :: 0 <= r < |s.readers| ==> !s.readers[r].Holds()
    ensures TaskInRange(c, s, s.queue[0]) && s.readers[s.queue[0]].Queued?
    ensures c.Fits(s.held, s.readers[s.queue[0]].task)
  {
    var q := s.queue[0];
    assert q in s.queue;
    var i := s.readers[q].task;
    assert i in Tasks(s.readers) - HeldByReaders(s.readers);
    if c.readers == 1 {
      assert forall j :: j in Tasks(s.readers) ==> j == i;
      assert forall j :: j in s.pending ==> s.next < j < s.sent;
      assert s.next in Tasks(s.readers) || s.next in Buffered(s);
      assert Outstanding(s) == {};
      SumEmpty(c.sizes, |c.sizes|);
    } else {
      SumAdd(c.sizes, Outstanding(s), i, |c.sizes|);
      SumInBelowRange(c.sizes, Outstanding(s) + {i}, 0, |c.sizes|);
    }
  }

  lemma NobodyDoomed<S(!new)>(c: Config<S>, s: State<S>, r: nat)
    requires Shape(c, s) && QueueOk(c, s) && BudgetSuffices(c.sizes, c.readers, c.limit) && r < |s.readers|
    ensures !s.readers[r].Doomed?
  {
    if s.readers[r].Doomed? {
      var i := s.readers[r].task;
      assert i in Tasks(s.readers);
      SumRangeSplit(c.sizes, 0, i, |c.sizes|);
      SumRangeSplit(c.sizes, i, i + 1, |c.sizes|);
      assert SumRange(c.sizes, i, i) == 0;
    }
  }

  /** The step a reader can take on its own, if it has one. */
  lemma ReaderStep<S(!new)>(c: Config<S>, s: State<S>, r: nat) returns (a: Action)
    requires Shape(c, s) && r < |s.readers|
    requires s.producing ==> !s.cancelled && s.sent < |c.sizes|
    requires var p := s.readers[r];
             || p.Idle? || p.Got? || p.Granted? || p.Reading? || p.Returned?
             || (p.Sending? && (s.cancelled || |s.ready| < c.readers)) || (s.cancelled && p.HasTask())
    ensures Do(c, s, a).Some?
  {
    var p := s.readers[r];
    if p.HasTask() { assert p.task in Tasks(s.readers); }
    match p {
      case Idle => a := if s.producing then Dispatch(r) else Quit(r);
      case Got(_) => a := Start(r);
      case Granted(_) => a := Resume(r);
      case Reading(_) => a := Read(r);
      case Sending(_) => a := if s.cancelled then AbortSend(r) else Send(r);
      case Returned(_) => a := Report(r);
      case _ => a := GiveUp(r);
    }
  }

  /** No error, nothing to receive, no reader that can move alone: the semaphore can. */
  lemma QuietProgress<S(!new)>(c: Config<S>, s: State<S>) returns (a: Action)
    requires c.Valid() && Inv(c, s) && BudgetSuffices(c.sizes, c.readers, c.limit)
    requires !s.cancelled && s.consumer.Selecting? && s.ready == []
    requires forall r :: 0 <= r < |s.readers| ==> s.readers[r].Queued? || s.readers[r].Doomed? || s.readers[r].Exited?
    ensures Do(c, s, a).Some?
  {
    if AllExited(s) { return ReceiveClosed; }
    var r :| 0 <= r < |s.readers| && !s.readers[r].Exited?;
    NobodyDoomed(c, s, r);
    assert r in s.queue;
    HeadFits(c, s);
    return Grant(s.queue[0]);
  }

  lemma DoneIsFinal<S(!new)>(c: Config<S>, s: State<S>)
    requires c.Valid() && Inv(c, s) && !s.cancelled && s.consumer.Finished?
    requires forall r :: 0 <= r < |s.readers| ==> !s.readers[r].Idle?
    ensures Final(s)
  {
    forall r | 0 <= r < |s.readers| ensures s.readers[r].Exited? { NoTasksWhenDone(c, s, r); }
    assert s.readers[0].Exited?;
  }

  /** After an error everybody can leave. */
  lemma CancelledProgress<S(!new)>(c: Config<S>, s: State<S>) returns (a: Action)
    requires Shape(c, s) && s.cancelled && !Final(s) && (s.consumer.Processing? ==> s.next < |c.sizes|)
    ensures Do(c, s, a).Some?
  {
    if s.producing {
      a := StopProducer;
    } else if r :| 0 <= r < |s.readers| && !s.readers[r].Exited? {
      a := ReaderStep(c, s, r);
    } else {
      a := ConsumerStep(c, s);
    }
  }

  predicate CanMoveAlone(p: Phase, room: bool) {
    p.Idle? || p.Got? || p.Granted? || p.Reading? || p.Returned? || (p.Sending? && room)
  }

  /** With a sufficient budget some goroutine can always move until all have returned. */
  lemma Progress<S(!new)>(c: Config<S>, s: State<S>) returns (a: Action)
    requires c.Valid() && Inv(c, s) && BudgetSuffices(c.sizes, c.readers, c.limit) && !Final(s)
    ensures Do(c, s, a).Some?
  {
    if s.cancelled {
      a := CancelledProgress(c, s);
    } else if s.producing && s.sent == |c.sizes| {
      a := StopProducer;
    } else if r :| 0 <= r < |s.readers| && CanMoveAlone(s.readers[r], |s.ready| < c.readers) {
      a := ReaderStep(c, s, r);
    } else {
      a := ConsumerProgress(c, s);
    }
  }

  /** No error and no reader that can move alone: the consumer or the semaphore can. */
  lemma ConsumerProgress<S(!new)>(c: Config<S>, s: State<S>) returns (a: Action)
    requires c.Valid() && Inv(c, s) && BudgetSuffices(c.sizes, c.readers, c.limit) && !Final(s) && !s.cancelled
    requires forall r :: 0 <= r < |s.readers| ==> !CanMoveAlone(s.readers[r], |s.ready| < c.readers)
    ensures Do(c, s, a).Some?
  {
    if s.consumer.Finished? {
      DoneIsFinal(c, s);
    } else if s.consumer.Selecting? && s.ready == [] {
      a := QuietProgress(c, s);
    } else {
      a := ConsumerStep(c, s);
    }
  }

  /** The step that the consumer can take on its own. */
  lemma ConsumerStep<S(!new)>(c: Config<S>, s: State<S>) returns (a: Action)
    requires !s.consumer.Finished? && (s.consumer.Selecting? ==> s.ready != [] || s.cancelled)
    requires s.consumer.Processing? ==> s.next < |c.sizes|
    ensures Do(c, s, a).Some?
  {
    a := match s.consumer
         case Draining => Drain
         case Processing => Process
         case Failing(_) => ReportConsumer
         case _ => if s.ready != [] then Receive else AbortSelect;
  }

  // ----- the other direction: an insufficient budget can be stuck -----

  /** Reader a waits for group j and can never be served: the group is larger than the
      whole budget, or the reader heads the queue while the groups after j up to k sit
      in `pending` and leave too little room; they leave only after group j. */
  ghost predicate Trapped<S(!new)>(c: Config<S>, s: State<S>, a: nat, j: nat, k: nat) {
    && a < |s.readers| && c.limit.Some?
    && (|| s.readers[a] == Doomed(j)
        || (&& s.readers[a] == Queued(j) && s.queue != [] && s.queue[0] == a
            && s.next == j < k <= |c.sizes| && SumRange(c.sizes, j, k) > c.limit.value
            && (forall i :: j < i < k ==> i in s.pending)))
  }

  lemma TrappedHeadDoesNotFit<S(!new)>(c: Config<S>, s: State<S>, a: nat, j: nat, k: nat)
    requires Inv(c, s) && Trapped(c, s, a, j, k) && s.readers[a].Queued?
    ensures !c.Fits(s.held, j)
  {
    forall i | j + 1 <= i < k ensures i in Outstanding(s) { assert i in Buffered(s); }
    SumInAboveRange(c.sizes, Outstanding(s), j + 1, k, |c.sizes|);
    SumRangeSplit(c.sizes, j, j + 1, k);
    assert SumRange(c.sizes, j, j) == 0;
  }

  lemma TrappedWaiting<S(!new)>(c: Config<S>, s: State<S>, act: Action, r: nat, s': State<S>, a: nat, j: nat, k: nat)
    requires Trapped(c, s, a, j, k) && !s.cancelled && TaskInRange(c, s, r)
    requires DoWaiting(c, s, act, r) == Some(s') || DoHolding(c, s, act, r) == Some(s')
    ensures Trapped(c, s', a, j, k)
  {
    assert r != a ==> s'.readers[a] == s.readers[a];
  }

  lemma TrappedSemaphore<S(!new)>(c: Config<S>, s: State<S>, act: Action, r: nat, s': State<S>, a: nat, j: nat, k: nat)
    requires Trapped(c, s, a, j, k) && !s.cancelled && TaskInRange(c, s, r)
    requires s.readers[a].Queued? && j < |c.sizes| ==> !c.Fits(s.held, j)
    requires DoSemaphore(c, s, act, r) == Some(s')
    ensures Trapped(c, s', a, j, k)
  {
    assert r != a ==> s'.readers[a] == s.readers[a];
  }

  lemma TrappedShared<S(!new)>(c: Config<S>, s: State<S>, act: Action, s': State<S>, a: nat, j: nat, k: nat)
    requires Trapped(c, s, a, j, k) && !s.cancelled && DoShared(c, s, act) == Some(s')
    requires s.readers[a].Queued? ==> s.next !in Buffered(s)
    ensures Trapped(c, s', a, j, k)
  {
  }

  lemma TrappedStep<S(!new)>(c: Config<S>, s: State<S>, act: Action, s': State<S>, a: nat, j: nat, k: nat)
    requires Inv(c, s) && Trapped(c, s, a, j, k) && !s.cancelled && Do(c, s, act) == Some(s')
    ensures Trapped(c, s', a, j, k)
  {
    TaskNotBuffered(c, s, a);
    if s.readers[a].Queued? { TrappedHeadDoesNotFit(c, s, a, j, k); }
    if act.Start? || act.Grant? {
      TrappedSemaphore(c, s, act, act.r, s', a, j, k);
    } else if act.Dispatch? || act.GiveUp? || act.Quit? || act.Resume? || act.Read? || act.Send? || act.AbortSend? {
      TrappedWaiting(c, s, act, act.r, s', a, j, k);
    } else if act.Report? {
      assert act.r != a ==> s'.readers[a] == s.readers[a];
    } else {
      TrappedShared(c, s, act, s', a, j, k);
    }
  }

  lemma TaskNotBuffered<S(!new)>(c: Config<S>, s: State<S>, a: nat)
    requires OnePlace(s) && a < |s.readers| && s.readers[a].HasTask()
    ensures s.readers[a].task !in Buffered(s)
  {
    assert s.readers[a].task in Tasks(s.readers);
  }

  lemma ReachableTrapped<S(!new)>(c: Config<S>, s: State<S>, act: Action, s': State<S>, a: nat, j: nat, k: nat)
    requires c.Valid() && Sequential(c, c.sink0, 0).ok && Reachable(c, s) && Trapped(c, s, a, j, k)
    requires Do(c, s, act) == Some(s')
    ensures Reachable(c, s') && Trapped(c, s', a, j, k)
  {
    ReachableInv(c, s);
    ReachableNotCancelled(c, s);
    TrappedStep(c, s, act, s', a, j, k);
    ReachableStep(c, s, act, s');
  }

  lemma ReachableMeasure<S(!new)>(c: Config<S>, s: State<S>)
    requires c.Valid() && Reachable(c, s)
    ensures 0 <= Measure(c, s)
  {
    ReachableInv(c, s);
  }

  /** A trapped run goes on until nobody can move, and reader a is still waiting then. */
  lemma TrappedEndsStuck<S(!new)>(c: Config<S>, s: State<S>, a: nat, j: nat, k: nat) returns (t: State<S>)
    requires c.Valid() && Sequential(c, c.sink0, 0).ok
    requires Reachable(c, s) && Trapped(c, s, a, j, k)
    ensures Reachable(c, t) && Stuck(c, t)
    decreases Measure(c, s)
  {
    if act :| Do(c, s, act).Some? {
      var s' := Do(c, s, act).value;
      ReachableTrapped(c, s, act, s', a, j, k);
      StepLowersMeasure(c, s, act, s');
      ReachableMeasure(c, s');
      t := TrappedEndsStuck(c, s', a, j, k);
    } else {
      t := s;
    }
  }

  /** Between fetches: the readers from `busy` on are idle and the consumer is waiting. */
  ghost predicate Quiet<S(!new)>(c: Config<S>, s: State<S>, busy: nat) {
    && Reachable(c, s) && s.producing && !s.cancelled && s.consumer.Selecting?
    && s.queue == [] && s.ready == []
    && busy <= |s.readers| && (forall r :: busy <= r < |s.readers| ==> s.readers[r].Idle?)
  }

  /** Idle reader r takes the next group, acquires its budget and reads it. */
  lemma FetchRead<S(!new)>(c: Config<S>, s: State<S>, r: nat) returns (t: State<S>)
    requires Reachable(c, s) && s.producing && !s.cancelled && s.queue == []
    requires r < |s.readers| && s.readers[r].Idle?
    requires s.sent < |c.sizes| && c.Fits(s.held, s.sent) && c.readOk(s.sent)
    ensures Reachable(c, t)
    ensures t == s.(sent := s.sent + 1, held := s.held + c.sizes[s.sent], acquired := s.acquired + {s.sent},
                    readers := s.readers[r := Sending(s.sent)])
  {
    var s1 := Do(c, s, Dispatch(r)).value;
    ReachableStep(c, s, Dispatch(r), s1);
    var s2 := Do(c, s1, Start(r)).value;
    ReachableStep(c, s1, Start(r), s2);
    t := Do(c, s2, Read(r)).value;
    ReachableStep(c, s2, Read(r), t);
    assert t.readers == s.readers[r := Sending(s.sent)];
  }

  /** Idle reader r fetches the next group into `pending`. */
  lemma Fetch<S(!new)>(c: Config<S>, s: State<S>, busy: nat, r: nat) returns (t: State<S>)
    requires c.Valid() && Quiet(c, s, busy) && busy <= r < |s.readers|
    requires s.sent < |c.sizes| && c.readOk(s.sent) && c.Fits(s.held, s.sent)
    ensures Reachable(c, t)
    ensures t == s.(sent := s.sent + 1, held := s.held + c.sizes[s.sent], acquired := s.acquired + {s.sent},
                    pending := s.pending + {s.sent}, consumer := Draining)
  {
    var s1 := FetchRead(c, s, r);
    var s2 := Do(c, s1, Send(r)).value;
    ReachableStep(c, s1, Send(r), s2);
    t := Do(c, s2, Receive).value;
    ReachableStep(c, s2, Receive, t);
    assert s2.readers == s.readers;
    assert t.ready == s.ready;
  }

  /** The same while an earlier group is missing: the group stays in `pending`. */
  lemma FetchAhead<S(!new)>(c: Config<S>, s: State<S>, busy: nat, r: nat) returns (t: State<S>)
    requires c.Valid() && Quiet(c, s, busy) && busy <= r < |s.readers|
    requires s.sent < |c.sizes| && c.readOk(s.sent) && c.Fits(s.held, s.sent) && s.next < s.sent && s.next !in s.pending
    ensures Quiet(c, t, busy)
    ensures t == s.(sent := s.sent + 1, held := s.held + c.sizes[s.sent], acquired := s.acquired + {s.sent},
                    pending := s.pending + {s.sent})
  {
    var s1 := Fetch(c, s, busy, r);
    t := Do(c, s1, Drain).value;
    ReachableStep(c, s1, Drain, t);
  }

  /** With nothing pending, idle reader r fetches group `next` and it is processed. */
  lemma Pass<S(!new)>(c: Config<S>, s: State<S>, r: nat) returns (t: State<S>)
    requires c.Valid() && Quiet(c, s, 0) && r < |s.readers|
    requires s.sent == s.next < |c.sizes| && s.pending == {} && s.held == 0
    requires c.Fits(0, s.sent) && s.next + 1 < |c.sizes| && c.readOk(s.next) && c.apply(s.sink, s.next).ok
    ensures Quiet(c, t, 0) && |t.readers| == |s.readers| && t.sink == c.apply(s.sink, s.next).sink
    ensures t.sent == t.next == s.next + 1 && t.pending == {} && t.held == 0
  {
    var s1 := Fetch(c, s, 0, r);
    t := ProcessNext(c, s1);
  }

  /** Group `next` is the only one pending: it is processed, and the consumer waits again. */
  lemma ProcessNext<S(!new)>(c: Config<S>, s: State<S>) returns (t: State<S>)
    requires c.Valid() && Reachable(c, s) && s.consumer.Draining? && !s.cancelled
    requires s.next + 1 < |c.sizes| && s.pending == {s.next} && c.apply(s.sink, s.next).ok
    ensures Reachable(c, t) && t.consumer.Selecting? && !t.cancelled && t.next == s.next + 1 && t.pending == {}
    ensures t.sink == c.apply(s.sink, s.next).sink
    ensures t.held == s.held - c.sizes[s.next] && t.readers == s.readers && t.queue == s.queue && t.ready == s.ready
    ensures t.producing == s.producing && t.sent == s.sent
  {
    var s1 := Do(c, s, Drain).value;
    ReachableStep(c, s, Drain, s1);
    assert s1.pending == {};
    var s2 := Do(c, s1, Process).value;
    ReachableStep(c, s1, Process, s2);
    t := Do(c, s2, Drain).value;
    ReachableStep(c, s2, Drain, t);
  }

  lemma ReachableNotCancelled<S(!new)>(c: Config<S>, s: State<S>)
    requires c.Valid() && Sequential(c, c.sink0, 0).ok && Reachable(c, s)
    ensures !s.cancelled
  {
    ReachableFailure(c, s);
    if s.cancelled { NoFailureWhenOk(c, s.failure.value); }
  }

  lemma ReachableFailure<S(!new)>(c: Config<S>, s: State<S>)
    requires c.Valid() && Reachable(c, s)
    ensures FailureOk(c, s)
  {
    ReachableInv(c, s);
  }

  lemma AllClear<S(!new)>(c: Config<S>)
    requires Sequential(c, c.sink0, 0).ok
    ensures ClearTo(c, |c.sizes|)
  {
    forall i | 0 <= i < |c.sizes| ensures c.readOk(i) && c.apply(SinkAt(c, i), i).ok { SequentialClears(c, 0, i); }
  }

  lemma {:induction false} PassMany<S(!new)>(c: Config<S>, j: nat) returns (t: State<S>)
    requires c.Valid() && ClearTo(c, j) && j < |c.sizes|
    requires forall i :: 0 <= i < j ==> c.Fits(0, i)
    ensures Quiet(c, t, 0) && |t.readers| == c.readers && t.sink == SinkAt(c, j)
    ensures t.sent == t.next == j && t.pending == {} && t.held == 0
  {
    if j == 0 {
      t := Init(c);
      assert Exec(c, []) == Some(t);
    } else {
      var s := PassMany(c, j - 1);
      t := Pass(c, s, 0);
    }
  }

  /** While reader 0 still sits on group j, reader 1 fetches the groups j+1 .. k-1. */
  lemma {:induction false} FetchMany<S(!new)>(c: Config<S>, s: State<S>, j: nat, k: nat) returns (t: State<S>)
    requires c.Valid() && c.limit.Some? && forall i :: j < i < k ==> c.readOk(i)
    requires Quiet(c, s, 1) && |s.readers| == c.readers >= 2 && s.readers[0] == Got(j)
    requires s.sent == j + 1 <= k <= |c.sizes| && s.next == j && s.pending == {} && s.held == 0
    requires SumRange(c.sizes, j + 1, k) <= c.limit.value
    ensures Quiet(c, t, 1) && |t.readers| == c.readers && t.readers[0] == Got(j) && t.next == j
    ensures t.sent == k && (forall i :: i in t.pending <==> j < i < k) && t.held == SumRange(c.sizes, j + 1, k)
    decreases k
  {
    if k == j + 1 {
      t := s;
    } else {
      var u := FetchMany(c, s, j, k - 1);
      t := FetchAhead(c, u, 1, 1);
    }
  }

  /** The shortest stretch of groups that exceeds the budget. */
  lemma {:induction false} ShortestOverfull(sizes: seq<nat>, j: nat, k: nat, limit: nat) returns (j': nat, k': nat)
    requires j < k <= |sizes| && SumRange(sizes, j, k) > limit
    ensures j <= j' < k' <= k && SumRange(sizes, j', k') > limit
    ensures SumRange(sizes, j' + 1, k') <= limit && SumRange(sizes, j', k' - 1) <= limit
    ensures forall i :: j' < i < k' ==> sizes[i] <= limit
    decreases k - j
  {
    if SumRange(sizes, j + 1, k) > limit {
      j', k' := ShortestOverfull(sizes, j + 1, k, limit);
    } else if SumRange(sizes, j, k - 1) > limit {
      j', k' := ShortestOverfull(sizes, j, k - 1, limit);
    } else {
      j', k' := j, k;
      forall i | j < i < k ensures sizes[i] <= limit { ElementBelowSum(sizes, j + 1, k, i); }
    }
  }

  /** Reader 0 takes group j and is overtaken by the groups after it. */
  lemma ReachTrap<S(!new)>(c: Config<S>, j: nat, k: nat) returns (t: State<S>)
    requires c.Valid() && c.limit.Some? && ClearTo(c, j) && forall i :: j < i < k ==> c.readOk(i)
    requires j < k <= |c.sizes| && SumRange(c.sizes, j, k) > c.limit.value >= SumRange(c.sizes, j + 1, k)
    requires forall i :: 0 <= i < j ==> c.Fits(0, i)
    requires k == j + 1 || (c.readers >= 2 && c.Fits(0, j))
    ensures Reachable(c, t) && Trapped(c, t, 0, j, k)
  {
    var s := PassMany(c, j);
    var s1 := TakeNext(c, s);
    if k > j + 1 { s1 := FetchMany(c, s1, j, k); }
    t := StartTrapped(c, s1, j, k);
  }

  lemma TakeNext<S(!new)>(c: Config<S>, s: State<S>) returns (t: State<S>)
    requires Quiet(c, s, 0) && |s.readers| > 0 && s.sent < |c.sizes|
    ensures Quiet(c, t, 1) && t == s.(sent := s.sent + 1, readers := s.readers[0 := Got(s.sent)])
  {
    t := Do(c, s, Dispatch(0)).value;
    ReachableStep(c, s, Dispatch(0), t);
  }

  lemma StartTrapped<S(!new)>(c: Config<S>, s: State<S>, j: nat, k: nat) returns (t: State<S>)
    requires Reachable(c, s) && !s.cancelled && s.queue == [] && |s.readers| > 0 && s.readers[0] == Got(j)
    requires c.limit.Some? && s.next == j < k <= |c.sizes| && SumRange(c.sizes, j, k) > c.limit.value
    requires s.held == SumRange(c.sizes, j + 1, k) && forall i :: j < i < k ==> i in s.pending
    ensures Reachable(c, t) && Trapped(c, t, 0, j, k)
  {
    SumRangeSplit(c.sizes, j, j + 1, k);
    assert SumRange(c.sizes, j, j) == 0;
    t := Do(c, s, Start(0)).value;
    ReachableStep(c, s, Start(0), t);
  }

  /** With two or more readers and groups that do not all fit the budget, some run gets
      stuck: reader 0 takes group j and is overtaken by the groups after it. */
  lemma OverfullCanBeStuck<S(!new)>(c: Config<S>, j: nat, k: nat) returns (t: State<S>)
    requires c.Valid() && Sequential(c, c.sink0, 0).ok && c.limit.Some?
    requires j < k <= |c.sizes| && SumRange(c.sizes, j, k) > c.limit.value >= SumRange(c.sizes, j + 1, k)
    requires forall i :: 0 <= i < j ==> c.Fits(0, i)
    requires k == j + 1 || (c.readers >= 2 && c.Fits(0, j))
    ensures Reachable(c, t) && Stuck(c, t)
  {
    AllClear(c);
    var s := ReachTrap(c, j, k);
    t := TrappedEndsStuck(c, s, 0, j, k);
  }

  lemma {:induction false} FirstOversized(sizes: seq<nat>, limit: nat, k: nat) returns (j: nat)
    requires k <= |sizes|
    ensures j <= k && (forall i :: 0 <= i < j ==> sizes[i] <= limit) && (j < k ==> sizes[j] > limit)
  {
    j := 0;
    while j < k && sizes[j] <= limit
      invariant j <= k && forall i :: 0 <= i < j ==> sizes[i] <= limit
    {
      j := j + 1;
    }
  }

  /** A run that gets stuck although every read and every group would succeed. */
  lemma InsufficientBudgetCanBeStuck<S(!new)>(c: Config<S>) returns (t: State<S>)
    requires c.Valid() && Sequential(c, c.sink0, 0).ok
    requires !BudgetSuffices(c.sizes, c.readers, c.limit)
    ensures Reachable(c, t) && Stuck(c, t)
  {
    var n, limit := |c.sizes|, c.limit.value;
    var j := FirstOversized(c.sizes, limit, n);
    if j < n {
      assert SumRange(c.sizes, j, j) == 0;
      t := OverfullCanBeStuck(c, j, j + 1);
    } else {
      var j', k' := ShortestOverfull(c.sizes, 0, n, limit);
      t := OverfullCanBeStuck(c, j', k');
    }
  }

  ghost predicate AlwaysFinishes<S(!new)>(c: Config<S>) {
    forall s: State<S> :: Reachable(c, s) ==> !Stuck(c, s)
  }

  /** Exactly when the pipeline cannot deadlock: for given group sizes, readers and
      budget, no run gets stuck under any read failures and any processing outcomes if
      and only if the budget suffices. Together with `RunsAreBounded`, every run then
      ends with all goroutines returned. */
  lemma DeadlockFreeIff<S(!new)>(sizes: seq<nat>, readers: nat, limit: Option<nat>, sink0: S)
    requires |sizes| > 0 && readers > 0
    ensures (forall c: Config<S> :: c.sizes == sizes && c.readers == readers && c.limit == limit ==> AlwaysFinishes(c))
            <==> BudgetSuffices(sizes, readers, limit)
  {
    if BudgetSuffices(sizes, readers, limit) {
      forall c: Config<S>, s: State<S> | c.sizes == sizes && c.readers == readers && c.limit == limit && Reachable(c, s)
        ensures !Stuck(c, s)
      {
        ReachableInv(c, s);
        if !Final(s) { var a := Progress(c, s); }
      }
    } else {
      var c := Config(sizes, readers, limit, _ => true, (s: S, i: nat) => Outcome(s, true), sink0);
      AllGood(c, 0);
      var t := InsufficientBudgetCanBeStuck(c);
      assert !AlwaysFinishes(c);
    }
  }

  lemma {:induction false} AllGood<S(!new)>(c: Config<S>, k: nat)
    requires k <= |c.sizes|
    requires (forall i :: c.readOk(i)) && (forall s, i :: c.apply(s, i) == Outcome(s, true))
    ensures Sequential(c, c.sink0, k).ok
    decreases |c.sizes| - k
  {
    if k < |c.sizes| { AllGood(c, k + 1); }
  }

  /** The smallest instance: two groups of one byte, two readers, a budget of one byte. */
  lemma TwoGroupsCanBeStuck<S(!new)>(sink0: S) returns (c: Config<S>, t: State<S>)
    ensures c.sizes == [1, 1] && c.readers == 2 && c.limit == Some(1) && Sequential(c, c.sink0, 0).ok
    ensures Reachable(c, t) && Stuck(c, t)
  {
    c := Config([1, 1], 2, Some(1), _ => true, (s: S, i: nat) => Outcome(s, true), sink0);
    AllGood(c, 0);
    assert SumRange(c.sizes, 0, 0) == 0 && SumRange(c.sizes, 0, 1) == 1;
    t := InsufficientBudgetCanBeStuck(c);
  }
}
