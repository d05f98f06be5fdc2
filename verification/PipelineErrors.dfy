/**
  Which error a failing pipeline returns. A goroutine's return and the report of its error
  to the errgroup are separate steps, and a failing reader signs off before its error is
  reported. So the consumer can find the channel closed while no error is known, and
  return "read pipeline ended unexpectedly" in place of the read error behind it.
  `EndsUnexpectedlyIf` and `EndedUnexpectedlyIff` say when that can happen.
 */
module PipelineErrors {
  import opened Wrappers
  import opened Sums
  import opened Pipeline
  import opened PipelineSafety
  import opened PipelineRuns
  import opened PipelineLiveness

  /** The consumer can find readyCh closed while no error has been reported. */
  ghost predicate EarlyEnd<S(!new)>(c: Config<S>, s: State<S>) {
    !s.cancelled && DoShared(c, s, ReceiveClosed).Some?
  }

  /** The groups after group i fit the budget together, or there is nobody to read them. */
  ghost predicate Roomy<S(!new)>(c: Config<S>, i: nat)
    requires i < |c.sizes|
  {
    c.limit.None? || c.readers == 1 || SumRange(c.sizes, i + 1, |c.sizes|) <= c.limit.value
  }

  /** Some group's read fails, reading and processing everything before it succeeds, each
      group that far fits the budget on its own, and all later ones fit together. */
  ghost predicate ReadFailsFirst<S(!new)>(c: Config<S>) {
    exists i :: ClearTo(c, i) && ReadStops(c, i) && FitTo(c, i) && Roomy(c, i)
  }

  /** At most one group's read fails. */
  ghost predicate OneFailure<S(!new)>(c: Config<S>) {
    forall i, k :: ReadStops(c, i) && ReadStops(c, k) ==> i == k
  }

  /** A failing run returns an error that really happened. */
  lemma ErrorsAreGenuine<S(!new)>(c: Config<S>, s: State<S>)
    requires c.Valid() && Reachable(c, s) && Final(s)
    ensures s.cancelled <==> s.failure.Some?
    ensures s.failure.Some? ==> Genuine(c, s.failure.value)
    ensures s.failure == Some(EndedUnexpectedly) ==> exists i :: ClearTo(c, i) && ReadStops(c, i) && FitTo(c, i)
  {
    ReachableFailure(c, s);
  }

  // ----- reaching it -----

  /** The next idle reader takes the next group and its read fails. */
  lemma FetchFail<S(!new)>(c: Config<S>, s: State<S>, busy: nat) returns (t: State<S>)
    requires Quiet(c, s, busy) && busy < |s.readers| && s.sent < |c.sizes|
    requires c.Fits(s.held, s.sent) && !c.readOk(s.sent)
    ensures Quiet(c, t, busy + 1)
    ensures t == s.(sent := s.sent + 1, acquired := s.acquired + {s.sent}, released := s.released + [s.sent],
                    readers := s.readers[busy := Returned(s.sent)])
  {
    var s1 := Do(c, s, Dispatch(busy)).value;
    ReachableStep(c, s, Dispatch(busy), s1);
    var s2 := Do(c, s1, Start(busy)).value;
    ReachableStep(c, s1, Start(busy), s2);
    t := Do(c, s2, Read(busy)).value;
    ReachableStep(c, s2, Read(busy), t);
    assert t.readers == s.readers[busy := Returned(s.sent)];
  }

  /** While the consumer waits for group i, which failed, and nobody is reading, the next
      group fits beside everything held. */
  lemma NextFits<S(!new)>(c: Config<S>, s: State<S>)
    requires c.Valid() && Reachable(c, s) && s.next < s.sent < |c.sizes| && ReadStops(c, s.next)
    requires Roomy(c, s.next) && c.readers >= 2
    requires forall r :: 0 <= r < |s.readers| ==> !s.readers[r].Holds()
    ensures c.Fits(s.held, s.sent)
  {
    HeldIsLater(c, s);
    var held := Outstanding(s);
    SumAdd(c.sizes, held, s.sent, |c.sizes|);
    SumInBelowRange(c.sizes, held + {s.sent}, s.next + 1, |c.sizes|);
  }

  /** What is held then are groups that come after the failed one. */
  lemma HeldIsLater<S(!new)>(c: Config<S>, s: State<S>)
    requires c.Valid() && Reachable(c, s) && s.next < |c.sizes| && ReadStops(c, s.next)
    requires forall r :: 0 <= r < |s.readers| ==> !s.readers[r].Holds()
    ensures forall i :: i in Outstanding(s) ==> s.next < i < s.sent
    ensures s.held == SumIn(c.sizes, Outstanding(s), |c.sizes|)
  {
    ReachableInv(c, s);
    HeldIsBuffered(c, s);
  }

  lemma HeldIsBuffered<S(!new)>(c: Config<S>, s: State<S>)
    requires Shape(c, s) && BudgetOk(c, s) && ReadsOk(c, s) && s.next < |c.sizes| && ReadStops(c, s.next)
    requires forall r :: 0 <= r < |s.readers| ==> !s.readers[r].Holds()
    ensures forall i :: i in Outstanding(s) ==> s.next < i < s.sent
  {
    assert HeldByReaders(s.readers) == {};
    assert s.next !in Buffered(s);
  }

  /** The producer is done, the first readers are done, the others idle. */
  ghost predicate Ending<S(!new)>(c: Config<S>, s: State<S>, busy: nat) {
    && Reachable(c, s) && !s.producing && !s.cancelled && s.consumer.Selecting? && s.ready == []
    && busy <= |s.readers|
    && (forall r :: 0 <= r < busy ==> s.readers[r].Done())
    && (forall r :: busy <= r < |s.readers| ==> s.readers[r].Idle?)
  }

  lemma {:induction false} QuitAll<S(!new)>(c: Config<S>, s: State<S>, busy: nat) returns (t: State<S>)
    requires Ending(c, s, busy)
    ensures Reachable(c, t) && EarlyEnd(c, t)
    decreases |s.readers| - busy
  {
    t := s;
    if busy < |s.readers| {
      var s1 := Do(c, s, Quit(busy)).value;
      ReachableStep(c, s, Quit(busy), s1);
      t := QuitAll(c, s1, busy + 1);
    }
  }

  /** The readers below `busy` have failed; the next one works on until it fails too or
      the groups are used up. */
  lemma {:induction false} LetFail<S(!new)>(c: Config<S>, s: State<S>, busy: nat) returns (t: State<S>)
    requires c.Valid() && |s.readers| == c.readers && s.next < |c.sizes| && ReadStops(c, s.next) && Roomy(c, s.next)
    requires Quiet(c, s, busy) && 0 < busy && s.next < s.sent <= |c.sizes| && s.next !in s.pending
    requires forall r :: 0 <= r < busy ==> s.readers[r].Done()
    ensures Reachable(c, t) && EarlyEnd(c, t)
    decreases |c.sizes| - s.sent
  {
    if busy == |s.readers| {
      t := s;
    } else if s.sent == |c.sizes| {
      var s1 := Do(c, s, StopProducer).value;
      ReachableStep(c, s, StopProducer, s1);
      t := QuitAll(c, s1, busy);
    } else {
      NextFits(c, s);
      if c.readOk(s.sent) {
        var s1 := FetchAhead(c, s, busy, busy);
        t := LetFail(c, s1, busy);
      } else {
        var s1 := FetchFail(c, s, busy);
        t := LetFail(c, s1, busy + 1);
      }
    }
  }

  lemma ReachEarlyEnd<S(!new)>(c: Config<S>, i: nat) returns (t: State<S>)
    requires c.Valid() && ClearTo(c, i) && ReadStops(c, i) && FitTo(c, i) && Roomy(c, i)
    ensures Reachable(c, t) && EarlyEnd(c, t)
  {
    var s := PassMany(c, i);
    var s1 := FetchFail(c, s, 0);
    t := LetFail(c, s1, 1);
  }

  // ----- the error that is returned -----

  lemma FailureSticks<S(!new)>(c: Config<S>, s: State<S>, a: Action, s': State<S>)
    requires s.cancelled && Do(c, s, a) == Some(s')
    ensures s'.cancelled && s'.failure == s.failure
  {
  }

  /** After an error is reported the run can be finished, and returns that error. */
  lemma RunToFinal<S(!new)>(c: Config<S>, s: State<S>) returns (t: State<S>)
    requires c.Valid() && Reachable(c, s) && s.cancelled
    ensures Reachable(c, t) && Final(t) && t.failure == s.failure
    decreases Measure(c, s)
  {
    if Final(s) {
      t := s;
    } else {
      ReachableInv(c, s);
      var a := CancelledProgress(c, s);
      var s' := Do(c, s, a).value;
      StepLowersMeasure(c, s, a, s');
      ReachableStep(c, s, a, s');
      ReachableMeasure(c, s');
      FailureSticks(c, s, a, s');
      t := RunToFinal(c, s');
    }
  }

  lemma EarlyEndIsReturned<S(!new)>(c: Config<S>, s: State<S>) returns (t: State<S>)
    requires c.Valid() && Reachable(c, s) && EarlyEnd(c, s)
    ensures Reachable(c, t) && Final(t) && t.failure == Some(EndedUnexpectedly)
  {
    ReachableFailure(c, s);
    var s1 := Do(c, s, ReceiveClosed).value;
    ReachableStep(c, s, ReceiveClosed, s1);
    var s2 := Do(c, s1, ReportConsumer).value;
    ReachableStep(c, s1, ReportConsumer, s2);
    t := RunToFinal(c, s2);
  }

  ghost predicate CanEndUnexpectedly<S(!new)>(c: Config<S>) {
    exists t: State<S> :: Reachable(c, t) && Final(t) && t.failure == Some(EndedUnexpectedly)
  }

  /** For every configuration: when a read fails first and there is room for the groups after
      it, some run returns "read pipeline ended unexpectedly" in place of the read's error. */
  lemma EndsUnexpectedlyIf<S(!new)>(c: Config<S>)
    requires c.Valid() && ReadFailsFirst(c)
    ensures CanEndUnexpectedly(c)
  {
    var i :| ClearTo(c, i) && ReadStops(c, i) && FitTo(c, i) && Roomy(c, i);
    var s := ReachEarlyEnd(c, i);
    var t := EarlyEndIsReturned(c, s);
  }

  /** With one reader, or a budget for everything, or at most one failing read, that is
      exactly when such a run exists. */
  lemma EndedUnexpectedlyIff<S(!new)>(c: Config<S>)
    requires c.Valid()
    requires c.readers == 1 || BudgetSuffices(c.sizes, c.readers, c.limit) || OneFailure(c)
    ensures CanEndUnexpectedly(c) <==> ReadFailsFirst(c)
  {
    if CanEndUnexpectedly(c) {
      var t: State<S> :| Reachable(c, t) && Final(t) && t.failure == Some(EndedUnexpectedly);
      ReachableFailure(c, t);
      var i :| ClearTo(c, i) && ReadStops(c, i) && FitTo(c, i) && RoomIfAlone(c, i);
      RoomFromAlone(c, i);
    }
    if ReadFailsFirst(c) { EndsUnexpectedlyIf(c); }
  }

  lemma RoomFromAlone<S(!new)>(c: Config<S>, i: nat)
    requires ReadStops(c, i) && RoomIfAlone(c, i) && c.Valid()
    requires c.readers == 1 || BudgetSuffices(c.sizes, c.readers, c.limit) || OneFailure(c)
    ensures Roomy(c, i)
  {
    SumRangeSplit(c.sizes, 0, i + 1, |c.sizes|);
    if OneFailure(c) {
      forall k | i < k < |c.sizes| ensures c.readOk(k) { assert ReadStops(c, k) ==> k == i; }
    }
  }

  /** Two groups, two readers, no budget, and the first read fails. */
  lemma TwoGroupsEndUnexpectedly<S(!new)>(sink0: S) returns (c: Config<S>, t: State<S>)
    ensures c.sizes == [1, 1] && c.readers == 2 && c.limit == None && !c.readOk(0)
    ensures Reachable(c, t) && Final(t) && t.failure == Some(EndedUnexpectedly)
  {
    c := Config([1, 1], 2, None, (i: nat) => i != 0, (s: S, i: nat) => Outcome(s, true), sink0);
    var s := ReachEarlyEnd(c, 0);
    t := EarlyEndIsReturned(c, s);
  }

  // ----- several readers under a smaller budget -----

  /** Two readers, groups of 1, 3 and 3 bytes, a budget of 3 bytes; the first and the last
      group cannot be read. */
  ghost predicate Tight<S(!new)>(c: Config<S>) {
    && c.sizes == [1, 3, 3] && c.readers == 2 && c.limit == Some(3)
    && !c.readOk(0) && c.readOk(1) && !c.readOk(2)
  }

  /** Until an error is reported the consumer waits for group 0, and whoever takes group 2
      finds the budget used up by group 1. */
  ghost predicate Tightly<S(!new)>(s: State<S>) {
    && s.failure != Some(EndedUnexpectedly) && s.consumer != Failing(EndedUnexpectedly)
    && (!s.cancelled ==> s.next == 0 && 2 !in s.acquired && (s.sent == 3 ==> 1 in Buffered(s)))
  }

  /** Group 0 never gets past its reader, and only its read fails. */
  lemma FirstStays<S(!new)>(c: Config<S>, s: State<S>)
    requires Tight(c) && Inv(c, s) && Tightly(s) && !s.cancelled
    ensures 0 !in Buffered(s) && 2 !in Buffered(s) && !s.consumer.Processing? && !s.consumer.Failing?
    ensures s.sent > 0 ==> 0 in Tasks(s.readers)
    ensures forall r :: 0 <= r < |s.readers| && s.readers[r].Returned? ==> s.readers[r].task == 0
  {
    assert forall i :: i in Buffered(s) ==> c.readOk(i);
    assert forall i :: ClearTo(c, i) ==> i == 0 || c.readOk(0);
    assert forall r :: 0 <= r < |s.readers| && s.readers[r].Returned? ==> s.readers[r].task in Tasks(s.readers);
  }

  /** When a reader is free for group 2, group 1 has been read. */
  lemma SecondIsBuffered<S(!new)>(c: Config<S>, s: State<S>, r: nat)
    requires Tight(c) && Inv(c, s) && Tightly(s) && !s.cancelled && s.sent == 2
    requires r < |s.readers| && s.readers[r].Idle?
    ensures 1 in Buffered(s)
  {
    FirstStays(c, s);
    assert forall i :: i in Tasks(s.readers) ==> i == s.readers[1 - r].task;
  }

  /** With group 1 buffered, group 2 does not fit. */
  lemma ThirdDoesNotFit<S(!new)>(c: Config<S>, s: State<S>)
    requires Tight(c) && Inv(c, s) && 1 in Buffered(s)
    ensures !c.Fits(s.held, 2)
  {
    assert 1 in Outstanding(s);
    assert SumIn(c.sizes, Outstanding(s), 2) >= 3;
  }

  /** The unexpected end does not come: it would take a second failed reader. */
  lemma NoEarlyEndHere<S(!new)>(c: Config<S>, s: State<S>)
    requires Tight(c) && Inv(c, s) && Tightly(s)
    ensures !EarlyEnd(c, s)
  {
    if !s.cancelled {
      FirstStays(c, s);
      assert !(s.readers[0].Returned? && s.readers[1].Returned?);
      assert s.sent == 3 ==> 2 in Tasks(s.readers);
    }
  }

  lemma TightlyShared<S(!new)>(c: Config<S>, s: State<S>, a: Action, s': State<S>)
    requires Tight(c) && Inv(c, s) && Tightly(s) && !s.cancelled && DoShared(c, s, a) == Some(s')
    ensures Tightly(s')
  {
    FirstStays(c, s);
    NoEarlyEndHere(c, s);
  }

  lemma TightlyReaders<S(!new)>(c: Config<S>, s: State<S>, a: Action, r: nat, s': State<S>)
    requires Tight(c) && Inv(c, s) && Tightly(s) && !s.cancelled && TaskInRange(c, s, r)
    requires DoWaiting(c, s, a, r) == Some(s') || DoHolding(c, s, a, r) == Some(s')
    ensures Tightly(s')
  {
    if a.Dispatch? && s.sent == 2 { SecondIsBuffered(c, s, r); }
    assert Buffered(s) <= Buffered(s');
  }

  lemma TightlySemaphore<S(!new)>(c: Config<S>, s: State<S>, a: Action, r: nat, s': State<S>)
    requires Tight(c) && Inv(c, s) && Tightly(s) && !s.cancelled && TaskInRange(c, s, r)
    requires DoSemaphore(c, s, a, r) == Some(s')
    ensures Tightly(s')
  {
    SemaphoreKeepsTask(c, s, a, r, s');
    SemaphoreMayAcquire(c, s, a, r, s');
    assert s.readers[r].task in Tasks(s.readers);
    if 1 in Buffered(s) { ThirdDoesNotFit(c, s); }
    assert Buffered(s) == Buffered(s');
  }

  lemma TightlyStep<S(!new)>(c: Config<S>, s: State<S>, a: Action, s': State<S>)
    requires Tight(c) && Inv(c, s) && Tightly(s) && Do(c, s, a) == Some(s')
    ensures Tightly(s')
  {
    if s.cancelled {
      FailureSticks(c, s, a, s');
      ConsumerAfterError(c, s, a, s');
    } else {
      if a.Start? || a.Grant? {
        TightlySemaphore(c, s, a, a.r, s');
      } else if a.Dispatch? || a.GiveUp? || a.Quit? || a.Resume? || a.Read? || a.Send? || a.AbortSend? {
        TightlyReaders(c, s, a, a.r, s');
      } else if !a.Report? {
        TightlyShared(c, s, a, s');
      }
    }
  }

  lemma ConsumerAfterError<S(!new)>(c: Config<S>, s: State<S>, a: Action, s': State<S>)
    requires s.cancelled && Do(c, s, a) == Some(s')
    ensures s'.consumer == Failing(EndedUnexpectedly) ==> s.consumer == s'.consumer
  {
  }

  lemma {:induction false} TightlyAlways<S(!new)>(c: Config<S>, acts: seq<Action>)
    requires Tight(c) && Exec(c, acts).Some?
    ensures Tightly(Exec(c, acts).value)
  {
    if acts != [] {
      var before := acts[..|acts| - 1];
      TightlyAlways(c, before);
      ExecInv(c, before);
      TightlyStep(c, Exec(c, before).value, acts[|acts| - 1], Exec(c, acts).value);
    }
  }

  /** With several readers, a smaller budget and two failing reads, no run need end
      unexpectedly although a read fails first and each group fits on its own. */
  lemma TightNeverEndsUnexpectedly<S(!new)>(c: Config<S>)
    requires Tight(c)
    ensures ClearTo(c, 0) && ReadStops(c, 0) && FitTo(c, 2) && !CanEndUnexpectedly(c)
  {
    forall t: State<S> | Reachable(c, t) ensures t.failure != Some(EndedUnexpectedly) {
      var acts :| Exec(c, acts) == Some(t);
      TightlyAlways(c, acts);
    }
  }
}
