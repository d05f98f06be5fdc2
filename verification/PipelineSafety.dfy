/**
  What every step of the pipeline keeps: each dispatched group is in at most one
  place, the semaphore's counter equals the sizes of the groups acquired and not
  yet released, no group is released twice, and the sink has seen exactly the
  groups the sequential loop would have handed it so far.
 */
module PipelineSafety {
  import opened Wrappers
  import opened Sums
  import opened Pipeline

  // ----- where a group can be -----

  ghost function Outstanding<S>(s: State<S>): set<nat> {
    set i | i in s.acquired && i !in s.released
  }

  function Task(p: Phase): set<nat> {
    if p.HasTask() then {p.task} else {}
  }

  function Held(p: Phase): set<nat> {
    if p.Holds() then {p.task} else {}
  }

  function Waited(p: Phase): set<nat> {
    if p.Waits() then {p.task} else {}
  }

  /** The groups that readers were given and have not passed on, those whose budget they
      wait for, and those whose budget they hold. */
  ghost function Tasks(rs: seq<Phase>): set<nat> {
    set r | 0 <= r < |rs| && rs[r].HasTask() :: rs[r].task
  }

  ghost function Waiting(rs: seq<Phase>): set<nat> {
    set r | 0 <= r < |rs| && rs[r].Waits() :: rs[r].task
  }

  ghost function HeldByReaders(rs: seq<Phase>): set<nat> {
    set r | 0 <= r < |rs| && rs[r].Holds() :: rs[r].task
  }

  /** The groups read and not yet released: in readyCh, pending, or being processed. */
  function Buffered<S>(s: State<S>): set<nat> {
    (set i | i in s.ready) + s.pending + if s.consumer.Processing? then {s.next} else {}
  }

  ghost predicate DistinctTasks(rs: seq<Phase>) {
    forall r, q :: 0 <= r < q < |rs| && rs[r].HasTask() && rs[q].HasTask() ==> rs[r].task != rs[q].task
  }

  /** Reader r moved to phase p, and the three sets changed by its own contribution. */
  ghost predicate Moved(rs: seq<Phase>, r: nat, p: Phase)
    requires r < |rs|
  {
    && Tasks(rs[r := p]) == Tasks(rs) - Task(rs[r]) + Task(p)
    && HeldByReaders(rs[r := p]) == HeldByReaders(rs) - Held(rs[r]) + Held(p)
    && Waiting(rs[r := p]) == Waiting(rs) - Waited(rs[r]) + Waited(p)
    && Task(rs[r]) <= Tasks(rs) && Held(rs[r]) <= HeldByReaders(rs) <= Tasks(rs)
    && Waited(rs[r]) <= Waiting(rs) <= Tasks(rs)
    && (rs[r].HasTask() && !rs[r].Holds() ==> rs[r].task !in HeldByReaders(rs))
    && (rs[r].HasTask() && !rs[r].Waits() ==> rs[r].task !in Waiting(rs))
  }

  lemma MoveSets(rs: seq<Phase>, r: nat, p: Phase)
    requires r < |rs| && DistinctTasks(rs)
    ensures Moved(rs, r, p)
  {
    var rs' := rs[r := p];
    forall i | i in Tasks(rs) - Task(rs[r]) + Task(p) ensures i in Tasks(rs') {
      if i in Task(p) { assert rs'[r] == p; }
      else {
        var q :| 0 <= q < |rs| && rs[q].HasTask() && rs[q].task == i;
        assert rs'[q] == rs[q];
      }
    }
    MoveWaiting(rs, r, p);
    forall i | i in HeldByReaders(rs) - Held(rs[r]) + Held(p) ensures i in HeldByReaders(rs') {
      if i in Held(p) { assert rs'[r] == p; }
      else {
        var q :| 0 <= q < |rs| && rs[q].Holds() && rs[q].task == i;
        assert rs'[q] == rs[q];
      }
    }
  }

  lemma MoveWaiting(rs: seq<Phase>, r: nat, p: Phase)
    requires r < |rs| && DistinctTasks(rs)
    ensures Waiting(rs[r := p]) == Waiting(rs) - Waited(rs[r]) + Waited(p)
    ensures Waited(rs[r]) <= Waiting(rs) <= Tasks(rs)
    ensures rs[r].HasTask() && !rs[r].Waits() ==> rs[r].task !in Waiting(rs)
  {
    var rs' := rs[r := p];
    forall i | i in Waiting(rs) - Waited(rs[r]) + Waited(p) ensures i in Waiting(rs') {
      if i in Waited(p) { assert rs'[r] == p; }
      else {
        var q :| 0 <= q < |rs| && rs[q].Waits() && rs[q].task == i;
        assert rs'[q] == rs[q];
      }
    }
  }

  lemma MoveDistinct(rs: seq<Phase>, r: nat, p: Phase)
    requires r < |rs| && DistinctTasks(rs)
    requires Task(p) !! (Tasks(rs) - Task(rs[r]))
    ensures DistinctTasks(rs[r := p])
  {
    forall q | 0 <= q < |rs| && q != r && rs[q].HasTask() && p.HasTask()
      ensures rs[q].task != p.task
    {
      assert rs[q].task in Tasks(rs) - Task(rs[r]);
    }
  }

  // ----- the invariant, one concern at a time -----

  ghost predicate Shape<S(!new)>(c: Config<S>, s: State<S>) {
    && |s.readers| == c.readers
    && s.next <= s.sent <= |c.sizes|
    && (forall i :: i in Tasks(s.readers) ==> s.next <= i < s.sent)
    && (forall i :: i in Buffered(s) ==> s.next <= i < s.sent)
  }

  /** No group is both with a reader and buffered, and none is buffered twice. */
  ghost predicate NoOverlap<S>(s: State<S>) {
    && Tasks(s.readers) !! Buffered(s)
    && Distinct(s.ready)
    && (forall i :: i in s.ready ==> i !in s.pending)
    && (s.consumer.Processing? ==> s.next !in s.ready && s.next !in s.pending)
  }

  /** Each group is in at most one place. */
  ghost predicate OnePlace<S>(s: State<S>) {
    && DistinctTasks(s.readers)
    && NoOverlap(s)
  }

  ghost predicate QueueOk<S(!new)>(c: Config<S>, s: State<S>) {
    && Distinct(s.queue)
    && (forall r :: r in s.queue ==> r < |s.readers| && s.readers[r].Queued?)
    && (forall r :: 0 <= r < |s.readers| && s.readers[r].Queued? ==> r in s.queue)
    && (forall r :: 0 <= r < |s.readers| && (s.readers[r].Queued? || s.readers[r].Doomed?)
          && s.readers[r].task < |c.sizes|
          ==> c.limit.Some? && (s.readers[r].Doomed? <==> c.sizes[s.readers[r].task] > c.limit.value))
  }

  /** The byte budget. */
  ghost predicate BudgetOk<S(!new)>(c: Config<S>, s: State<S>) {
    && s.held == SumIn(c.sizes, Outstanding(s), |c.sizes|)
    && (c.limit.Some? ==> s.held <= c.limit.value)
    && Distinct(s.released)
    && (forall i :: i in s.released ==> i in s.acquired)
    && (forall i :: i in s.acquired ==> i < s.sent)
    && Outstanding(s) == HeldByReaders(s.readers) + Buffered(s)
    && Waiting(s.readers) !! s.acquired
  }

  /** While nothing has failed no group is lost and nobody has left early. */
  ghost predicate Complete<S(!new)>(c: Config<S>, s: State<S>) {
    && (s.consumer.Selecting? ==> s.next !in s.pending && s.next < |c.sizes|)
    && (s.consumer.Processing? ==> s.next < |c.sizes|)
    && (!s.cancelled ==>
          && (!s.consumer.Failing? ==> forall i :: s.next <= i < s.sent ==> i in Tasks(s.readers) || i in Buffered(s))
          && (!s.producing ==> s.sent == |c.sizes|)
          && (forall r :: 0 <= r < |s.readers| && s.readers[r].Exited? ==> !s.producing)
          && (s.consumer.Finished? ==> s.next == |c.sizes|))
    && (c.readers == |s.readers| == 1 && s.readers[0].HasTask() ==> s.readers[0].task + 1 == s.sent)
  }

  // ----- the sequential loop -----

  datatype Run<S> = Run(trace: seq<nat>, sink: S, ok: bool)

  /** processGroupsSequential from group k on. */
  function Sequential<S(!new)>(c: Config<S>, sink: S, k: nat): Run<S>
    requires k <= |c.sizes|
    decreases |c.sizes| - k
  {
    if k == |c.sizes| then Run([], sink, true)
    else if !c.readOk(k) then Run([], sink, false)
    else
      var o := c.apply(sink, k);
      if !o.ok then Run([k], o.sink, false)
      else
        var rest := Sequential(c, o.sink, k + 1);
        Run([k] + rest.trace, rest.sink, rest.ok)
  }

  /** The sink after the groups of a trace, none of whose outcomes stops the fold. */
  function Replay<S(!new)>(c: Config<S>, trace: seq<nat>): S {
    if trace == [] then c.sink0
    else c.apply(Replay(c, trace[..|trace| - 1]), trace[|trace| - 1]).sink
  }

  /** Only groups whose read succeeded are buffered, and only a failed read makes a reader
      return with an error. */
  ghost predicate ReadsOk<S(!new)>(c: Config<S>, s: State<S>) {
    && (forall i :: i in Buffered(s) ==> c.readOk(i))
    && (forall r :: 0 <= r < |s.readers| && s.readers[r].Sending? ==> c.readOk(s.readers[r].task))
    && (forall r :: 0 <= r < |s.readers| && s.readers[r].Returned? ==> !c.readOk(s.readers[r].task))
  }

  /** The sink after groups 0, ..., k - 1. */
  function SinkAt<S(!new)>(c: Config<S>, k: nat): S {
    if k == 0 then c.sink0 else c.apply(SinkAt(c, k - 1), k - 1).sink
  }

  /** Reading and processing the groups below k succeeds. */
  ghost predicate ClearTo<S(!new)>(c: Config<S>, k: nat) {
    forall i :: 0 <= i < k ==> c.readOk(i) && c.apply(SinkAt(c, i), i).ok
  }

  /** An error that really happened: a read that fails, a group whose processing fails in
      the sequential loop too, or the end of the pipeline after a failed read. */
  ghost predicate Genuine<S(!new)>(c: Config<S>, e: Failure) {
    match e
    case ReadFailed(i) => i < |c.sizes| && !c.readOk(i)
    case ProcessFailed(i) => i < |c.sizes| && ClearTo(c, i) && c.readOk(i) && !c.apply(SinkAt(c, i), i).ok
    case EndedUnexpectedly => exists i :: ClearTo(c, i) && ReadStops(c, i) && FitTo(c, i) && RoomIfAlone(c, i)
  }

  /** If no later read fails, and there are readers left to do them, all later groups fit the
      budget together. */
  ghost predicate RoomIfAlone<S(!new)>(c: Config<S>, i: nat)
    requires i < |c.sizes|
  {
    c.limit.Some? && c.readers >= 2 && (forall k :: i < k < |c.sizes| ==> c.readOk(k)) ==>
      SumRange(c.sizes, i + 1, |c.sizes|) <= c.limit.value
  }

  /** Each of the groups 0, ..., i fits the budget on its own. */
  ghost predicate FitTo<S(!new)>(c: Config<S>, i: nat)
    requires i < |c.sizes|
  {
    forall k :: 0 <= k <= i ==> c.Fits(0, k)
  }

  predicate ReadStops<S(!new)>(c: Config<S>, i: nat) {
    i < |c.sizes| && !c.readOk(i)
  }

  /** Whatever was acquired fits, and what was processed or failed had been acquired. */
  ghost predicate SizesOk<S(!new)>(c: Config<S>, s: State<S>) {
    && (forall i :: i in s.acquired ==> i < |c.sizes| && c.Fits(0, i))
    && (forall i :: 0 <= i < s.next ==> i in s.acquired)
    && (forall r :: 0 <= r < |s.readers| && s.readers[r].Returned? ==> s.readers[r].task in s.acquired)
  }

  ghost predicate FailureOk<S(!new)>(c: Config<S>, s: State<S>) {
    && (s.cancelled <==> s.failure.Some?)
    && (s.failure.Some? ==> Genuine(c, s.failure.value))
    && (s.consumer.Failing? ==> Genuine(c, s.consumer.error) && !s.consumer.error.ReadFailed?)
  }

  /** The pipeline's progress agrees with the sequential loop: what the loop does
      from the start is what was done so far followed by what it does from `next`. */
  ghost predicate Follows<S(!new)>(c: Config<S>, s: State<S>)
    requires s.next <= |c.sizes|
  {
    var whole := Sequential(c, c.sink0, 0);
    && s.sink == Replay(c, s.trace)
    && (if |s.trace| == s.next then
          var rest := Sequential(c, s.sink, s.next);
          && whole == Run(s.trace + rest.trace, rest.sink, rest.ok)
          && ClearTo(c, s.next) && s.sink == SinkAt(c, s.next)
        else
          && (s.consumer.Failing? || (s.cancelled && s.consumer.Finished?))
          && whole == Run(s.trace, s.sink, false))
  }

  ghost predicate Inv<S(!new)>(c: Config<S>, s: State<S>) {
    Shape(c, s) && OnePlace(s) && QueueOk(c, s) && BudgetOk(c, s) && Complete(c, s)
    && ReadsOk(c, s) && Follows(c, s) && SizesOk(c, s) && FailureOk(c, s)
  }

  /** If the sequential loop succeeds nothing ever fails. */
  lemma {:induction false} SequentialClears<S(!new)>(c: Config<S>, k: nat, i: nat)
    requires k <= i < |c.sizes| && Sequential(c, SinkAt(c, k), k).ok
    ensures c.readOk(i) && c.apply(SinkAt(c, i), i).ok
    decreases i - k
  {
    if k < i { SequentialClears(c, k + 1, i); }
  }

  lemma NoFailureWhenOk<S(!new)>(c: Config<S>, e: Failure)
    requires Genuine(c, e)
    ensures !Sequential(c, c.sink0, 0).ok
  {
    if Sequential(c, c.sink0, 0).ok {
      var i := match e
        case ReadFailed(i) => i
        case ProcessFailed(i) => i
        case EndedUnexpectedly => var i :| ClearTo(c, i) && ReadStops(c, i) && FitTo(c, i) && RoomIfAlone(c, i); i;
      SequentialClears(c, 0, i);
    }
  }

  lemma InitInv<S(!new)>(c: Config<S>)
    requires c.Valid()
    ensures Inv(c, Init(c))
  {
    var s := Init(c);
    assert Outstanding(s) == {};
    SumEmpty(c.sizes, |c.sizes|);
    var w := Sequential(c, s.sink, 0);
    assert s.trace + w.trace == w.trace;
  }

  /** The budget part of a step that leaves the semaphore alone. */
  lemma BudgetKept<S(!new)>(c: Config<S>, s: State<S>, s': State<S>)
    requires BudgetOk(c, s) && s.sent <= s'.sent
    requires s'.held == s.held && s'.acquired == s.acquired && s'.released == s.released
    requires HeldByReaders(s'.readers) + Buffered(s') == HeldByReaders(s.readers) + Buffered(s)
    requires Waiting(s'.readers) !! s.acquired
    ensures BudgetOk(c, s')
  {
    assert Outstanding(s') == Outstanding(s);
  }

  lemma BudgetAcquired<S(!new)>(c: Config<S>, s: State<S>, i: nat, s': State<S>)
    requires BudgetOk(c, s) && i < s.sent == s'.sent <= |c.sizes| && i !in s.acquired && c.Fits(s.held, i)
    requires s'.held == s.held + c.sizes[i] && s'.acquired == s.acquired + {i} && s'.released == s.released
    requires HeldByReaders(s'.readers) + Buffered(s') == HeldByReaders(s.readers) + Buffered(s) + {i}
    requires Waiting(s'.readers) !! s'.acquired
    ensures BudgetOk(c, s')
  {
    assert Outstanding(s') == Outstanding(s) + {i};
    SumAdd(c.sizes, Outstanding(s), i, |c.sizes|);
  }

  /** A release: group i was outstanding, so it is released for the first time. */
  lemma BudgetReleased<S(!new)>(c: Config<S>, s: State<S>, i: nat, s': State<S>)
    requires BudgetOk(c, s) && i in Outstanding(s) && s.sent == s'.sent <= |c.sizes|
    requires s'.held == s.held - c.sizes[i] && s'.acquired == s.acquired && s'.released == s.released + [i]
    requires HeldByReaders(s'.readers) + Buffered(s') == HeldByReaders(s.readers) + Buffered(s) - {i}
    requires Waiting(s'.readers) !! s'.acquired
    ensures BudgetOk(c, s')
  {
    var rest := Outstanding(s) - {i};
    assert Outstanding(s') == rest;
    assert rest + {i} == Outstanding(s);
    SumAdd(c.sizes, rest, i, |c.sizes|);
  }

  // ----- one step -----

  lemma DistinctTail(q: seq<nat>)
    requires q != [] && Distinct(q)
    ensures q[0] !in q[1..] && Distinct(q[1..]) && q == [q[0]] + q[1..]
  {
  }

  /** When the consumer sees readyCh closed before the last group and no error has been
      reported yet, the read of the group it waits for has failed, and everything before
      that group has succeeded. */
  lemma EarlyEndMeansFailedRead<S(!new)>(c: Config<S>, s: State<S>)
    requires c.Valid() && Shape(c, s) && OnePlace(s) && BudgetOk(c, s) && Complete(c, s) && ReadsOk(c, s)
    requires Follows(c, s) && SizesOk(c, s) && !s.cancelled && DoShared(c, s, ReceiveClosed).Some?
    ensures ClearTo(c, s.next) && ReadStops(c, s.next) && FitTo(c, s.next) && RoomIfAlone(c, s.next)
  {
    assert s.readers[0].Returned? ==> s.readers[0].task in Tasks(s.readers);
    assert s.next !in Buffered(s);
    assert s.next in Tasks(s.readers);
    var r :| 0 <= r < |s.readers| && s.readers[r].HasTask() && s.readers[r].task == s.next;
    EarlyEndRoom(c, s, r);
  }

  /** When the reader of group `next` is the only one that failed, the others have read
      everything after it, and it is all buffered. */
  lemma EarlyEndRoom<S(!new)>(c: Config<S>, s: State<S>, r: nat)
    requires Shape(c, s) && OnePlace(s) && BudgetOk(c, s) && Complete(c, s) && ReadsOk(c, s)
    requires !s.cancelled && !s.consumer.Failing? && AllDone(s) && s.next < |c.sizes|
    requires r < |s.readers| && s.readers[r] == Returned(s.next)
    ensures RoomIfAlone(c, s.next)
  {
    if c.limit.Some? && c.readers >= 2 && forall k :: s.next < k < |c.sizes| ==> c.readOk(k) {
      OthersExited(c, s, r);
      forall i | s.next + 1 <= i < |c.sizes| ensures i in Outstanding(s) { assert i in Buffered(s); }
      SumInAboveRange(c.sizes, Outstanding(s), s.next + 1, |c.sizes|, |c.sizes|);
    }
  }

  lemma OthersExited<S(!new)>(c: Config<S>, s: State<S>, r: nat)
    requires Shape(c, s) && DistinctTasks(s.readers) && Complete(c, s) && ReadsOk(c, s) && !s.cancelled && AllDone(s)
    requires r < |s.readers| && s.readers[r] == Returned(s.next) && c.readers >= 2
    requires forall k :: s.next < k < |c.sizes| ==> c.readOk(k)
    ensures Tasks(s.readers) == {s.next} && s.sent == |c.sizes|
  {
    forall q | 0 <= q < |s.readers| && q != r ensures s.readers[q].Exited? {
      assert s.readers[q].Returned? ==> s.readers[q].task in Tasks(s.readers);
    }
    var q := if r == 0 then 1 else 0;
    assert s.readers[q].Exited?;
  }

  lemma WaitingPlaces<S(!new)>(c: Config<S>, s: State<S>, a: Action, r: nat, s': State<S>)
    requires Shape(c, s) && NoOverlap(s)
    requires TaskInRange(c, s, r) && DoWaiting(c, s, a, r) == Some(s') && Moved(s.readers, r, s'.readers[r])
    ensures Shape(c, s') && NoOverlap(s')
  {
  }

  lemma WaitingQueue<S(!new)>(c: Config<S>, s: State<S>, a: Action, r: nat, s': State<S>)
    requires Shape(c, s) && QueueOk(c, s)
    requires TaskInRange(c, s, r) && DoWaiting(c, s, a, r) == Some(s')
    ensures QueueOk(c, s')
  {
  }

  lemma WaitingBudget<S(!new)>(c: Config<S>, s: State<S>, a: Action, r: nat, s': State<S>)
    requires Shape(c, s) && NoOverlap(s) && BudgetOk(c, s)
    requires TaskInRange(c, s, r) && DoWaiting(c, s, a, r) == Some(s') && Moved(s.readers, r, s'.readers[r])
    ensures BudgetOk(c, s')
  {
    BudgetKept(c, s, s');
  }

  lemma WaitingComplete<S(!new)>(c: Config<S>, s: State<S>, a: Action, r: nat, s': State<S>)
    requires Shape(c, s) && NoOverlap(s) && Complete(c, s)
    requires TaskInRange(c, s, r) && DoWaiting(c, s, a, r) == Some(s') && Moved(s.readers, r, s'.readers[r])
    ensures Complete(c, s')
  {
  }

  lemma WaitingReads<S(!new)>(c: Config<S>, s: State<S>, a: Action, r: nat, s': State<S>)
    requires Shape(c, s) && NoOverlap(s) && ReadsOk(c, s)
    requires TaskInRange(c, s, r) && DoWaiting(c, s, a, r) == Some(s') && Moved(s.readers, r, s'.readers[r])
    ensures ReadsOk(c, s')
  {
  }

  /** Reader r asked for budget or got it and still has its task, or left after an error. */
  ghost predicate KeptTask<S>(s: State<S>, r: nat, s': State<S>) {
    && r < |s.readers| == |s'.readers|
    && s' == s.(readers := s.readers[r := s'.readers[r]], queue := s'.queue, held := s'.held, acquired := s'.acquired)
    && s.readers[r].HasTask() && !s'.readers[r].Sending? && !s'.readers[r].Returned?
    && (if s'.readers[r].Exited? then s.cancelled
        else s'.readers[r].HasTask() && s'.readers[r].task == s.readers[r].task)
  }

  lemma SemaphoreKeepsTask<S(!new)>(c: Config<S>, s: State<S>, a: Action, r: nat, s': State<S>)
    requires TaskInRange(c, s, r) && DoSemaphore(c, s, a, r) == Some(s')
    ensures KeptTask(s, r, s')
  {
  }

  lemma KeptPlaces<S(!new)>(c: Config<S>, s: State<S>, r: nat, s': State<S>)
    requires Shape(c, s) && OnePlace(s) && KeptTask(s, r, s') && Moved(s.readers, r, s'.readers[r])
    ensures Shape(c, s') && OnePlace(s')
  {
    assert Buffered(s') == Buffered(s);
    assert Tasks(s'.readers) <= Tasks(s.readers);
    MoveDistinct(s.readers, r, s'.readers[r]);
  }

  lemma KeptComplete<S(!new)>(c: Config<S>, s: State<S>, r: nat, s': State<S>)
    requires Complete(c, s) && KeptTask(s, r, s') && Moved(s.readers, r, s'.readers[r])
    ensures Complete(c, s')
  {
    assert Buffered(s') == Buffered(s);
    assert !s.cancelled ==> Tasks(s'.readers) == Tasks(s.readers);
  }

  lemma KeptRest<S(!new)>(c: Config<S>, s: State<S>, r: nat, s': State<S>)
    requires s.next <= |c.sizes| && ReadsOk(c, s) && Follows(c, s) && FailureOk(c, s) && KeptTask(s, r, s')
    ensures ReadsOk(c, s') && Follows(c, s') && FailureOk(c, s')
  {
    assert Buffered(s') == Buffered(s);
    FollowsKept(c, s, s');
  }

  lemma SemaphoreQueue<S(!new)>(c: Config<S>, s: State<S>, a: Action, r: nat, s': State<S>)
    requires Shape(c, s) && QueueOk(c, s)
    requires TaskInRange(c, s, r) && DoSemaphore(c, s, a, r) == Some(s')
    ensures QueueOk(c, s')
  {
    if a.Grant? { DistinctTail(s.queue); }
  }

  /** Reader r was granted its budget, which fits, or the semaphore's counter is unchanged. */
  ghost predicate MayAcquire<S(!new)>(c: Config<S>, s: State<S>, r: nat, s': State<S>)
    requires TaskInRange(c, s, r) && KeptTask(s, r, s')
  {
    var i := s.readers[r].task;
    && s.readers[r].Waits()
    && (if s'.readers[r].Holds() then
          c.Fits(s.held, i) && s'.held == s.held + c.sizes[i] && s'.acquired == s.acquired + {i}
        else s'.held == s.held && s'.acquired == s.acquired)
  }

  lemma SemaphoreMayAcquire<S(!new)>(c: Config<S>, s: State<S>, a: Action, r: nat, s': State<S>)
    requires TaskInRange(c, s, r) && DoSemaphore(c, s, a, r) == Some(s') && KeptTask(s, r, s')
    ensures MayAcquire(c, s, r, s')
  {
  }

  lemma AcquireBudget<S(!new)>(c: Config<S>, s: State<S>, r: nat, s': State<S>)
    requires Shape(c, s) && NoOverlap(s) && BudgetOk(c, s) && TaskInRange(c, s, r) && KeptTask(s, r, s')
    requires MayAcquire(c, s, r, s') && Moved(s.readers, r, s'.readers[r])
    ensures BudgetOk(c, s')
  {
    assert Buffered(s') == Buffered(s);
    if s'.readers[r].Holds() { BudgetAcquired(c, s, s.readers[r].task, s'); } else { BudgetKept(c, s, s'); }
  }

  /** Reader r passed its group on, or still has it, or left after an error. */
  ghost predicate HeldStep<S>(s: State<S>, r: nat, s': State<S>) {
    && r < |s.readers| == |s'.readers| && s.readers[r].Holds()
    && s' == s.(readers := s.readers[r := s'.readers[r]], held := s'.held, released := s'.released, ready := s'.ready)
    && (if s'.readers[r].Idle? then s'.ready == s.ready + [s.readers[r].task]
        else
          && s'.ready == s.ready
          && (if s'.readers[r].Exited? then s.cancelled
              else s'.readers[r].HasTask() && s'.readers[r].task == s.readers[r].task))
  }

  lemma HoldingIsHeldStep<S(!new)>(c: Config<S>, s: State<S>, a: Action, r: nat, s': State<S>)
    requires TaskInRange(c, s, r) && DoHolding(c, s, a, r) == Some(s')
    ensures HeldStep(s, r, s')
  {
  }

  /** Where the group of reader r is counted before and after. */
  lemma HeldSets<S>(s: State<S>, r: nat, s': State<S>)
    requires HeldStep(s, r, s') && Moved(s.readers, r, s'.readers[r])
    ensures s'.readers[r].Idle? ==> Buffered(s') == Buffered(s) + {s.readers[r].task}
    ensures s'.readers[r].Idle? ==> Tasks(s'.readers) == Tasks(s.readers) - {s.readers[r].task}
    ensures !s'.readers[r].Idle? ==> Buffered(s') == Buffered(s) && Tasks(s'.readers) <= Tasks(s.readers)
    ensures s'.readers[r].HasTask() ==> Tasks(s'.readers) == Tasks(s.readers)
    ensures s.readers[r].task in Tasks(s.readers)
  {
  }

  lemma HeldShape<S(!new)>(c: Config<S>, s: State<S>, r: nat, s': State<S>)
    requires Shape(c, s) && HeldStep(s, r, s') && Moved(s.readers, r, s'.readers[r])
    ensures Shape(c, s')
  {
    HeldSets(s, r, s');
  }

  lemma HeldPlaces<S>(s: State<S>, r: nat, s': State<S>)
    requires NoOverlap(s) && HeldStep(s, r, s') && Moved(s.readers, r, s'.readers[r])
    ensures NoOverlap(s')
  {
    HeldSets(s, r, s');
    assert s.readers[r].task !in Buffered(s);
  }

  lemma HeldComplete<S(!new)>(c: Config<S>, s: State<S>, r: nat, s': State<S>)
    requires Complete(c, s) && NoOverlap(s) && s.next <= s.sent && HeldStep(s, r, s')
    requires Moved(s.readers, r, s'.readers[r])
    ensures Complete(c, s')
  {
    HeldSets(s, r, s');
  }

  lemma HoldingQueue<S(!new)>(c: Config<S>, s: State<S>, a: Action, r: nat, s': State<S>)
    requires Shape(c, s) && QueueOk(c, s)
    requires TaskInRange(c, s, r) && DoHolding(c, s, a, r) == Some(s')
    ensures QueueOk(c, s')
  {
  }

  lemma HoldingBudget<S(!new)>(c: Config<S>, s: State<S>, a: Action, r: nat, s': State<S>)
    requires Shape(c, s) && NoOverlap(s) && BudgetOk(c, s)
    requires TaskInRange(c, s, r) && DoHolding(c, s, a, r) == Some(s') && Moved(s.readers, r, s'.readers[r])
    ensures BudgetOk(c, s')
  {
    if s'.readers[r].Done() { HoldingReleases(c, s, a, r, s'); } else { HoldingKeeps(c, s, a, r, s'); }
  }

  lemma HoldingReleases<S(!new)>(c: Config<S>, s: State<S>, a: Action, r: nat, s': State<S>)
    requires Shape(c, s) && NoOverlap(s) && BudgetOk(c, s)
    requires TaskInRange(c, s, r) && DoHolding(c, s, a, r) == Some(s') && Moved(s.readers, r, s'.readers[r])
    requires s'.readers[r].Done()
    ensures BudgetOk(c, s')
  {
    assert Buffered(s') == Buffered(s);
    BudgetReleased(c, s, s.readers[r].task, s');
  }

  lemma HoldingKeeps<S(!new)>(c: Config<S>, s: State<S>, a: Action, r: nat, s': State<S>)
    requires Shape(c, s) && NoOverlap(s) && BudgetOk(c, s)
    requires TaskInRange(c, s, r) && DoHolding(c, s, a, r) == Some(s') && Moved(s.readers, r, s'.readers[r])
    requires !s'.readers[r].Done()
    ensures BudgetOk(c, s')
  {
    BudgetKept(c, s, s');
  }

  lemma HoldingReads<S(!new)>(c: Config<S>, s: State<S>, a: Action, r: nat, s': State<S>)
    requires ReadsOk(c, s) && TaskInRange(c, s, r) && DoHolding(c, s, a, r) == Some(s')
    ensures ReadsOk(c, s')
  {
    assert Buffered(s') <= Buffered(s) + Task(s.readers[r]);
  }

  lemma HoldingDistinct<S(!new)>(c: Config<S>, s: State<S>, a: Action, r: nat, s': State<S>)
    requires TaskInRange(c, s, r) && DistinctTasks(s.readers) && DoHolding(c, s, a, r) == Some(s')
    ensures DistinctTasks(s'.readers)
  {
    MoveDistinct(s.readers, r, s'.readers[r]);
  }

  lemma SharedShape<S(!new)>(c: Config<S>, s: State<S>, a: Action, s': State<S>)
    requires Shape(c, s) && NoOverlap(s) && DoShared(c, s, a) == Some(s')
    ensures Shape(c, s')
  {
  }

  lemma SharedPlaces<S(!new)>(c: Config<S>, s: State<S>, a: Action, s': State<S>)
    requires NoOverlap(s) && DoShared(c, s, a) == Some(s')
    ensures NoOverlap(s')
  {
  }

  lemma SharedQueue<S(!new)>(c: Config<S>, s: State<S>, a: Action, s': State<S>)
    requires Shape(c, s) && QueueOk(c, s)
    requires DoShared(c, s, a) == Some(s')
    ensures QueueOk(c, s')
  {
  }

  lemma SharedBudget<S(!new)>(c: Config<S>, s: State<S>, a: Action, s': State<S>)
    requires Shape(c, s) && NoOverlap(s) && BudgetOk(c, s)
    requires DoShared(c, s, a) == Some(s')
    ensures BudgetOk(c, s')
  {
    if a.Process? { BudgetReleased(c, s, s.next, s'); } else { BudgetKept(c, s, s'); }
  }

  lemma SharedComplete<S(!new)>(c: Config<S>, s: State<S>, a: Action, s': State<S>)
    requires Shape(c, s) && NoOverlap(s) && Complete(c, s)
    requires DoShared(c, s, a) == Some(s')
    ensures Complete(c, s')
  {
  }

  lemma SharedReads<S(!new)>(c: Config<S>, s: State<S>, a: Action, s': State<S>)
    requires ReadsOk(c, s) && DoShared(c, s, a) == Some(s')
    ensures ReadsOk(c, s')
  {
  }

  /** Processing a group is one iteration of the sequential loop. */
  lemma ProcessFollows<S(!new)>(c: Config<S>, s: State<S>, s': State<S>)
    requires s.next <= |c.sizes| && Follows(c, s) && c.readOk(s.next) && DoShared(c, s, Process) == Some(s')
    ensures Follows(c, s')
  {
    LoopUnfolds(c, s.trace, s.sink, s.next);
    ReplayNext(c, s.trace, s.next);
    if c.apply(s.sink, s.next).ok {
      ClearNext(c, s.next);
      assert |s'.trace| == s'.next;
    } else {
      assert |s'.trace| != s'.next;
    }
  }

  lemma ReplayNext<S(!new)>(c: Config<S>, t: seq<nat>, k: nat)
    ensures Replay(c, t + [k]) == c.apply(Replay(c, t), k).sink
  {
    assert (t + [k])[..|t|] == t;
  }

  lemma ClearNext<S(!new)>(c: Config<S>, k: nat)
    requires ClearTo(c, k) && c.readOk(k) && c.apply(SinkAt(c, k), k).ok
    ensures ClearTo(c, k + 1) && SinkAt(c, k + 1) == c.apply(SinkAt(c, k), k).sink
  {
  }

  /** What the loop does from group k on, after the trace t: one group, then the rest. */
  lemma LoopUnfolds<S(!new)>(c: Config<S>, t: seq<nat>, sink: S, k: nat)
    requires k < |c.sizes| && c.readOk(k)
    ensures var o, rest := c.apply(sink, k), Sequential(c, sink, k);
            if o.ok then
              var rest' := Sequential(c, o.sink, k + 1);
              t + rest.trace == t + [k] + rest'.trace && rest.sink == rest'.sink && rest.ok == rest'.ok
            else t + rest.trace == t + [k] && rest.sink == o.sink && !rest.ok
  {
    var o := c.apply(sink, k);
    if o.ok { assert t + ([k] + Sequential(c, o.sink, k + 1).trace) == t + [k] + Sequential(c, o.sink, k + 1).trace; }
  }

  lemma SharedRefines<S(!new)>(c: Config<S>, s: State<S>, a: Action, s': State<S>)
    requires Shape(c, s) && ReadsOk(c, s) && Follows(c, s) && DoShared(c, s, a) == Some(s')
    ensures Follows(c, s')
  {
    if a.Process? {
      assert s.next in Buffered(s);
      ProcessFollows(c, s, s');
    }
  }

  lemma SharedFailure<S(!new)>(c: Config<S>, s: State<S>, a: Action, s': State<S>)
    requires c.Valid() && Shape(c, s) && OnePlace(s) && BudgetOk(c, s) && Complete(c, s) && ReadsOk(c, s)
    requires Follows(c, s) && SizesOk(c, s) && FailureOk(c, s) && DoShared(c, s, a) == Some(s')
    ensures FailureOk(c, s')
  {
    if a.Process? {
      assert s.next in Buffered(s);
    } else if a.ReceiveClosed? && !s.cancelled {
      EarlyEndMeansFailedRead(c, s);
    }
  }

  lemma FollowsKept<S(!new)>(c: Config<S>, s: State<S>, s': State<S>)
    requires s.next <= |c.sizes| && Follows(c, s)
    requires s'.next == s.next && s'.trace == s.trace && s'.sink == s.sink && s'.consumer == s.consumer
    requires s.cancelled ==> s'.cancelled
    ensures Follows(c, s')
  {
  }

  lemma ReadersSizes<S(!new)>(c: Config<S>, s: State<S>, a: Action, r: nat, s': State<S>)
    requires SizesOk(c, s) && BudgetOk(c, s) && TaskInRange(c, s, r)
    requires DoWaiting(c, s, a, r) == Some(s') || DoHolding(c, s, a, r) == Some(s')
    ensures SizesOk(c, s')
  {
    assert s.readers[r].Holds() ==> s.readers[r].task in HeldByReaders(s.readers);
  }

  lemma AcquireSizes<S(!new)>(c: Config<S>, s: State<S>, r: nat, s': State<S>)
    requires SizesOk(c, s) && BudgetOk(c, s) && TaskInRange(c, s, r) && KeptTask(s, r, s') && MayAcquire(c, s, r, s')
    ensures SizesOk(c, s')
  {
  }

  lemma SharedSizes<S(!new)>(c: Config<S>, s: State<S>, a: Action, s': State<S>)
    requires SizesOk(c, s) && BudgetOk(c, s) && DoShared(c, s, a) == Some(s')
    ensures SizesOk(c, s')
  {
    assert s.consumer.Processing? ==> s.next in Buffered(s);
  }

  lemma StepInv<S(!new)>(c: Config<S>, s: State<S>, a: Action, s': State<S>)
    requires c.Valid() && Inv(c, s) && Do(c, s, a) == Some(s')
    ensures Inv(c, s')
  {
    if a.Dispatch? || a.GiveUp? || a.Quit? {
      WaitingInv(c, s, a, a.r, s');
    } else if a.Start? || a.Grant? {
      SemaphoreInv(c, s, a, a.r, s');
    } else if a.Resume? || a.Read? || a.Send? || a.AbortSend? {
      HoldingInv(c, s, a, a.r, s');
    } else if a.Report? {
      ReportInv(c, s, a.r, s');
    } else {
      SharedInv(c, s, a, s');
    }
  }

  lemma WaitingInv<S(!new)>(c: Config<S>, s: State<S>, a: Action, r: nat, s': State<S>)
    requires Inv(c, s) && TaskInRange(c, s, r) && DoWaiting(c, s, a, r) == Some(s')
    ensures Inv(c, s')
  {
    MoveSets(s.readers, r, s'.readers[r]);
    WaitingPlaces(c, s, a, r, s');
    MoveDistinct(s.readers, r, s'.readers[r]);
    WaitingQueue(c, s, a, r, s');
    WaitingBudget(c, s, a, r, s');
    WaitingComplete(c, s, a, r, s');
    WaitingReads(c, s, a, r, s');
    FollowsKept(c, s, s');
    ReadersSizes(c, s, a, r, s');
  }

  lemma SemaphoreInv<S(!new)>(c: Config<S>, s: State<S>, a: Action, r: nat, s': State<S>)
    requires Inv(c, s) && TaskInRange(c, s, r) && DoSemaphore(c, s, a, r) == Some(s')
    ensures Inv(c, s')
  {
    SemaphoreKeepsTask(c, s, a, r, s');
    MoveSets(s.readers, r, s'.readers[r]);
    KeptPlaces(c, s, r, s');
    SemaphoreQueue(c, s, a, r, s');
    SemaphoreMayAcquire(c, s, a, r, s');
    AcquireBudget(c, s, r, s');
    AcquireSizes(c, s, r, s');
    KeptComplete(c, s, r, s');
    KeptRest(c, s, r, s');
  }

  lemma HoldingInv<S(!new)>(c: Config<S>, s: State<S>, a: Action, r: nat, s': State<S>)
    requires Inv(c, s) && TaskInRange(c, s, r) && DoHolding(c, s, a, r) == Some(s')
    ensures Inv(c, s')
  {
    HoldingIsHeldStep(c, s, a, r, s');
    MoveSets(s.readers, r, s'.readers[r]);
    HeldShape(c, s, r, s');
    HeldPlaces(s, r, s');
    HoldingDistinct(c, s, a, r, s');
    HoldingQueue(c, s, a, r, s');
    HoldingBudget(c, s, a, r, s');
    HeldComplete(c, s, r, s');
    HoldingReads(c, s, a, r, s');
    ReadersSizes(c, s, a, r, s');
    HeldRest(c, s, r, s');
  }

  lemma HeldRest<S(!new)>(c: Config<S>, s: State<S>, r: nat, s': State<S>)
    requires s.next <= |c.sizes| && Follows(c, s) && FailureOk(c, s) && HeldStep(s, r, s')
    ensures Follows(c, s') && FailureOk(c, s')
  {
    FollowsKept(c, s, s');
  }

  lemma SharedInv<S(!new)>(c: Config<S>, s: State<S>, a: Action, s': State<S>)
    requires c.Valid() && Inv(c, s) && DoShared(c, s, a) == Some(s')
    ensures Inv(c, s')
  {
    SharedGroups(c, s, a, s');
    SharedRest(c, s, a, s');
  }

  lemma SharedGroups<S(!new)>(c: Config<S>, s: State<S>, a: Action, s': State<S>)
    requires Shape(c, s) && OnePlace(s) && QueueOk(c, s) && BudgetOk(c, s) && Complete(c, s)
    requires DoShared(c, s, a) == Some(s')
    ensures Shape(c, s') && OnePlace(s') && QueueOk(c, s') && BudgetOk(c, s') && Complete(c, s')
  {
    SharedShape(c, s, a, s');
    SharedPlaces(c, s, a, s');
    SharedQueue(c, s, a, s');
    SharedBudget(c, s, a, s');
    SharedComplete(c, s, a, s');
  }

  lemma SharedRest<S(!new)>(c: Config<S>, s: State<S>, a: Action, s': State<S>)
    requires c.Valid() && Shape(c, s) && OnePlace(s) && BudgetOk(c, s) && Complete(c, s) && ReadsOk(c, s)
    requires Follows(c, s) && SizesOk(c, s) && FailureOk(c, s) && DoShared(c, s, a) == Some(s')
    ensures s'.next <= |c.sizes| && ReadsOk(c, s') && Follows(c, s') && SizesOk(c, s') && FailureOk(c, s')
  {
    SharedReads(c, s, a, s');
    SharedSizes(c, s, a, s');
    SharedRefines(c, s, a, s');
    SharedFailure(c, s, a, s');
  }

  lemma ReportPlaces<S(!new)>(c: Config<S>, s: State<S>, r: nat, s': State<S>)
    requires Shape(c, s) && OnePlace(s) && r < |s.readers| && DoReport(s, r) == Some(s')
    requires Moved(s.readers, r, Exited)
    ensures Shape(c, s') && OnePlace(s')
  {
    assert Buffered(s') == Buffered(s) && Tasks(s'.readers) <= Tasks(s.readers);
    MoveDistinct(s.readers, r, Exited);
  }

  lemma ReportBudget<S(!new)>(c: Config<S>, s: State<S>, r: nat, s': State<S>)
    requires BudgetOk(c, s) && r < |s.readers| && DoReport(s, r) == Some(s') && Moved(s.readers, r, Exited)
    ensures BudgetOk(c, s')
  {
    assert Buffered(s') == Buffered(s) && HeldByReaders(s'.readers) == HeldByReaders(s.readers);
    BudgetKept(c, s, s');
  }

  lemma ReportRest<S(!new)>(c: Config<S>, s: State<S>, r: nat, s': State<S>)
    requires Shape(c, s) && QueueOk(c, s) && Complete(c, s) && ReadsOk(c, s) && Follows(c, s)
    requires SizesOk(c, s) && FailureOk(c, s) && r < |s.readers| && DoReport(s, r) == Some(s')
    ensures QueueOk(c, s') && Complete(c, s') && ReadsOk(c, s') && Follows(c, s')
    ensures SizesOk(c, s') && FailureOk(c, s')
  {
    assert s.readers[r].task in Tasks(s.readers);
    assert Buffered(s') == Buffered(s);
    FollowsKept(c, s, s');
  }

  lemma ReportInv<S(!new)>(c: Config<S>, s: State<S>, r: nat, s': State<S>)
    requires Inv(c, s) && r < |s.readers| && DoReport(s, r) == Some(s')
    ensures Inv(c, s')
  {
    MoveSets(s.readers, r, Exited);
    ReportPlaces(c, s, r, s');
    ReportBudget(c, s, r, s');
    ReportRest(c, s, r, s');
  }
}
