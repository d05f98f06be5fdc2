/**
  The pipelined group reader: one producer, N readers, a weighted byte-budget
  semaphore with a first-in-first-out wait queue, and one consumer that hands
  groups to the sink in index order.

  Every goroutine is a small program counter; an `Action` is one atomic step of
  one of them. `Do` is deterministic per action, so a run is a list of actions
  and all scheduling freedom is in the choice of that list.
 */
module Pipeline {
  import opened Wrappers

  datatype Outcome<+S> = Outcome(sink: S, ok: bool)

  /** What stays fixed during one run. `readOk(i)` says whether reading group i
      succeeds; `apply(s, i)` is what processing group i does to the sink and the
      statistics. `limit` is the byte budget, `None` when read-ahead is off. */
  datatype Config<!S(!new)> = Config(
    sizes: seq<nat>,
    readers: nat,
    limit: Option<nat>,
    readOk: nat -> bool,
    apply: (S, nat) -> Outcome<S>,
    sink0: S)
  {
    ghost predicate Valid() {
      |sizes| > 0 && readers > 0
    }

    predicate Fits(held: int, i: nat)
      requires i < |sizes|
    {
      limit.None? || held + sizes[i] <= limit.value
    }
  }

  datatype Phase =
    | Idle               // blocked receiving from readCh
    | Got(task: nat)     // has a task, about to check the context and acquire
    | Queued(task: nat)  // in the semaphore's wait queue
    | Doomed(task: nat)  // asked for more than the whole budget; waits for cancellation
    | Granted(task: nat) // woken by the semaphore, about to look at the context
    | Reading(task: nat)
    | Sending(task: nat) // in the select that sends to readyCh
    | Returned(task: nat) // its read failed and readWg.Done ran; the error is not yet reported
    | Exited
  {
    predicate HasTask() {
      !Idle? && !Exited?
    }

    predicate Waits() {
      Got? || Queued? || Doomed?
    }

    predicate Holds() {
      Granted? || Reading? || Sending?
    }

    /** readWg.Done has run. */
    predicate Done() {
      Returned? || Exited?
    }
  }

  /** The errors that the group can return. */
  datatype Failure = ReadFailed(group: nat) | ProcessFailed(group: nat) | EndedUnexpectedly

  datatype Consumer =
    | Selecting
    | Draining
    | Processing
    | Failing(error: Failure) // returned with an error that is not yet reported
    | Finished

  /** The errgroup keeps the first error reported to it and cancels the context with it:
      `failure` and `cancelled`. A goroutine's return and the report of its error are two
      steps. `acquired`, `released` and `trace` are histories: the groups whose budget was
      taken, the groups whose budget was given back (in order, one element per Release),
      and the groups handed to the sink. */
  datatype State<S> = State(
    producing: bool,
    sent: nat,
    readers: seq<Phase>,
    queue: seq<nat>,
    held: int,
    ready: seq<nat>,
    pending: set<nat>,
    next: nat,
    consumer: Consumer,
    cancelled: bool,
    failure: Option<Failure>,
    sink: S,
    acquired: set<nat>,
    released: seq<nat>,
    trace: seq<nat>)

  datatype Action =
    | Dispatch(r: nat) | GiveUp(r: nat) | Quit(r: nat) | Start(r: nat) | Grant(r: nat)
    | Resume(r: nat) | Read(r: nat) | Send(r: nat) | AbortSend(r: nat) | Report(r: nat)
    | StopProducer
    | Receive | ReceiveClosed | AbortSelect | Drain | Process | ReportConsumer

  function Init<S(!new)>(c: Config<S>): State<S> {
    State(true, 0, seq(c.readers, _ => Idle), [], 0, [], {}, 0, Selecting, false, None, c.sink0, {}, [], [])
  }

  function Acquire<S(!new)>(c: Config<S>, s: State<S>, i: nat): State<S>
    requires i < |c.sizes|
  {
    s.(held := s.held + c.sizes[i], acquired := s.acquired + {i})
  }

  function Release<S(!new)>(c: Config<S>, s: State<S>, i: nat): State<S>
    requires i < |c.sizes|
  {
    s.(held := s.held - c.sizes[i], released := s.released + [i])
  }

  function Move<S>(s: State<S>, r: nat, p: Phase): State<S>
    requires r < |s.readers|
  {
    s.(readers := s.readers[r := p])
  }

  predicate TaskInRange<S(!new)>(c: Config<S>, s: State<S>, r: nat) {
    r < |s.readers| && (s.readers[r].HasTask() ==> s.readers[r].task < |c.sizes|)
  }

  /** The errgroup learns of an error. */
  function Fail<S>(s: State<S>, e: Failure): State<S> {
    if s.cancelled then s else s.(cancelled := true, failure := Some(e))
  }

  /** readWg.Wait returns, and readyCh is closed. */
  predicate AllDone<S>(s: State<S>) {
    forall r :: 0 <= r < |s.readers| ==> s.readers[r].Done()
  }

  predicate AllExited<S>(s: State<S>) {
    forall r :: 0 <= r < |s.readers| ==> s.readers[r].Exited?
  }

  /** The wait queue after r leaves it. */
  function Without(q: seq<nat>, r: nat): (w: seq<nat>)
    ensures forall x :: x in w <==> x in q && x != r
    ensures Distinct(q) ==> Distinct(w)
  {
    if q == [] then []
    else
      var w := Without(q[..|q| - 1], r);
      assert q == q[..|q| - 1] + [q[|q| - 1]];
      assert Distinct(q) ==> Distinct(q[..|q| - 1]) && q[|q| - 1] !in q[..|q| - 1];
      assert Distinct(q) ==> q[|q| - 1] !in w;
      if q[|q| - 1] == r then w else w + [q[|q| - 1]]
  }

  predicate Distinct(q: seq<nat>) {
    forall i, j :: 0 <= i < j < |q| ==> q[i] != q[j]
  }

  /** Reader r asks the semaphore for budget, or the semaphore wakes reader r, the
      first in the queue, whose request now fits. */
  function DoSemaphore<S(!new)>(c: Config<S>, s: State<S>, a: Action, r: nat): Option<State<S>>
    requires TaskInRange(c, s, r)
  {
    var p := s.readers[r];
    match a
    case Start(_) =>
      if !p.Got? then None
      else if s.cancelled then Some(Move(s, r, Exited))
      else if c.limit.None? || (c.Fits(s.held, p.task) && s.queue == []) then
        Some(Move(Acquire(c, s, p.task), r, Reading(p.task)))
      else if c.sizes[p.task] > c.limit.value then Some(Move(s, r, Doomed(p.task)))
      else Some(Move(s, r, Queued(p.task)).(queue := s.queue + [r]))
    case Grant(_) =>
      if p.Queued? && s.queue != [] && s.queue[0] == r && c.Fits(s.held, p.task) then
        Some(Move(Acquire(c, s, p.task), r, Granted(p.task)).(queue := s.queue[1..]))
      else None
    case _ => None
  }

  /** The other steps of a reader that does not hold budget. */
  function DoWaiting<S(!new)>(c: Config<S>, s: State<S>, a: Action, r: nat): Option<State<S>>
    requires TaskInRange(c, s, r)
  {
    var p := s.readers[r];
    match a
    case Dispatch(_) =>
      if s.producing && s.sent < |c.sizes| && p.Idle? then
        Some(Move(s, r, Got(s.sent)).(sent := s.sent + 1))
      else None
    case GiveUp(_) =>
      if s.cancelled && (p.Queued? || p.Doomed?) then
        Some(Move(s, r, Exited).(queue := Without(s.queue, r)))
      else None
    case Quit(_) =>
      if p.Idle? && !s.producing then Some(Move(s, r, Exited)) else None
    case _ => None
  }

  /** A step of reader r while it holds budget. */
  function DoHolding<S(!new)>(c: Config<S>, s: State<S>, a: Action, r: nat): Option<State<S>>
    requires TaskInRange(c, s, r)
  {
    var p := s.readers[r];
    match a
    case Resume(_) =>
      if !p.Granted? then None
      else if s.cancelled then Some(Move(Release(c, s, p.task), r, Exited))
      else Some(Move(s, r, Reading(p.task)))
    case Read(_) =>
      if !p.Reading? then None
      else if c.readOk(p.task) then Some(Move(s, r, Sending(p.task)))
      else Some(Move(Release(c, s, p.task), r, Returned(p.task)))
    case Send(_) =>
      if p.Sending? && |s.ready| < c.readers then
        Some(Move(s, r, Idle).(ready := s.ready + [p.task]))
      else None
    case AbortSend(_) =>
      if p.Sending? && s.cancelled then Some(Move(Release(c, s, p.task), r, Exited)) else None
    case _ => None
  }

  /** The errgroup takes the error of reader r. */
  function DoReport<S>(s: State<S>, r: nat): Option<State<S>>
    requires r < |s.readers|
  {
    var p := s.readers[r];
    if p.Returned? then Some(Move(Fail(s, ReadFailed(p.task)), r, Exited)) else None
  }

  /** A step of the producer or the consumer. */
  function DoShared<S(!new)>(c: Config<S>, s: State<S>, a: Action): Option<State<S>> {
    match a
    case StopProducer =>
      if s.producing && (s.sent == |c.sizes| || s.cancelled) then Some(s.(producing := false)) else None
    case Receive =>
      if s.consumer.Selecting? && s.ready != [] then
        Some(s.(ready := s.ready[1..], pending := s.pending + {s.ready[0]}, consumer := Draining))
      else None
    case ReceiveClosed =>
      if s.consumer.Selecting? && s.ready == [] && AllDone(s) then
        Some(s.(consumer := if s.cancelled then Finished else Failing(EndedUnexpectedly)))
      else None
    case AbortSelect =>
      if s.consumer.Selecting? && s.cancelled then Some(s.(consumer := Finished)) else None
    case Drain =>
      if !s.consumer.Draining? then None
      else if s.next in s.pending then
        Some(s.(pending := s.pending - {s.next}, consumer := Processing))
      else if s.next < |c.sizes| then Some(s.(consumer := Selecting))
      else Some(s.(consumer := Finished))
    case Process =>
      if s.consumer.Processing? && s.next < |c.sizes| then
        var o := c.apply(s.sink, s.next);
        var t := Release(c, s, s.next).(sink := o.sink, trace := s.trace + [s.next]);
        if o.ok then Some(t.(next := s.next + 1, consumer := Draining))
        else Some(t.(consumer := Failing(ProcessFailed(s.next))))
      else None
    case ReportConsumer =>
      if s.consumer.Failing? then Some(Fail(s, s.consumer.error).(consumer := Finished)) else None
    case _ => None
  }

  function Do<S(!new)>(c: Config<S>, s: State<S>, a: Action): Option<State<S>> {
    match a
    case Dispatch(r) => if TaskInRange(c, s, r) then DoWaiting(c, s, a, r) else None
    case Start(r) => if TaskInRange(c, s, r) then DoSemaphore(c, s, a, r) else None
    case Grant(r) => if TaskInRange(c, s, r) then DoSemaphore(c, s, a, r) else None
    case GiveUp(r) => if TaskInRange(c, s, r) then DoWaiting(c, s, a, r) else None
    case Quit(r) => if TaskInRange(c, s, r) then DoWaiting(c, s, a, r) else None
    case Resume(r) => if TaskInRange(c, s, r) then DoHolding(c, s, a, r) else None
    case Read(r) => if TaskInRange(c, s, r) then DoHolding(c, s, a, r) else None
    case Send(r) => if TaskInRange(c, s, r) then DoHolding(c, s, a, r) else None
    case AbortSend(r) => if TaskInRange(c, s, r) then DoHolding(c, s, a, r) else None
    case Report(r) => if r < |s.readers| then DoReport(s, r) else None
    case _ => DoShared(c, s, a)
  }

  /** The state after a list of actions, `None` when one of them was not enabled. */
  function Exec<S(!new)>(c: Config<S>, acts: seq<Action>): Option<State<S>> {
    if acts == [] then Some(Init(c))
    else
      var before := Exec(c, acts[..|acts| - 1]);
      if before.None? then None else Do(c, before.value, acts[|acts| - 1])
  }

  ghost predicate Reachable<S(!new)>(c: Config<S>, s: State<S>) {
    exists acts :: Exec(c, acts) == Some(s)
  }

  ghost predicate Enabled<S(!new)>(c: Config<S>, s: State<S>) {
    exists a :: Do(c, s, a).Some?
  }

  /** Wait returns: the producer, every reader and the consumer have returned. */
  predicate Final<S>(s: State<S>) {
    !s.producing && AllExited(s) && s.consumer.Finished?
  }

  ghost predicate Stuck<S(!new)>(c: Config<S>, s: State<S>) {
    !Final(s) && !Enabled(c, s)
  }

  lemma ExecExtend<S(!new)>(c: Config<S>, acts: seq<Action>, a: Action)
    ensures Exec(c, acts + [a]) == (if Exec(c, acts).None? then None else Do(c, Exec(c, acts).value, a))
  {
    assert (acts + [a])[..|acts|] == acts;
  }

  lemma ReachableStep<S(!new)>(c: Config<S>, s: State<S>, a: Action, s': State<S>)
    requires Reachable(c, s) && Do(c, s, a) == Some(s')
    ensures Reachable(c, s')
  {
    var acts :| Exec(c, acts) == Some(s);
    ExecExtend(c, acts, a);
  }
}
