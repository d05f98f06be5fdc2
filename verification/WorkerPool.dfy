/**
  The strided worker pool that processes the entries of one group in parallel: worker w
  takes entries w, w+W, w+2W, ..., the first failure sets a flag and posts its error to a
  channel with one slot. Every atomic operation is a step of its own.
 */
module WorkerPool {
  import opened Wrappers
  import opened Sums
  import opened Archive

  datatype Config = Config(sizes: seq<U64>, workers: nat, ok: nat -> bool)

  datatype Worker =
    | Head(i: nat)     // at the loop condition and the stop check for entry i
    | Trying(i: nat)   // in processEntry
    | Adding(i: nat)   // succeeded, before processed.Add
    | Summing(i: nat)  // before totalBytes.Add
    | Failing(i: nat)  // failed, before the compare-and-swap of stop
    | Posting(i: nat)  // before the send to errCh
    | Gone

  /** `attempted`, `failed`, `counted` and `summed` are histories. */
  datatype State = State(
    workers: seq<Worker>,
    stop: bool,
    slot: Option<nat>,
    processed: nat,
    totalBytes: U64,
    attempted: set<nat>,
    failed: set<nat>,
    counted: set<nat>,
    summed: set<nat>)

  function Init(c: Config): State {
    State(seq(c.workers, w requires 0 <= w => Head(w)), false, None, 0, 0, {}, {}, {}, {})
  }

  function Move(s: State, w: nat, p: Worker): State
    requires w < |s.workers|
  {
    s.(workers := s.workers[w := p])
  }

  /** One step of worker w; `None` when it cannot move. */
  function Step(c: Config, s: State, w: nat): Option<State> {
    if w >= |s.workers| then None
    else match s.workers[w]
         case Head(i) =>
           if i >= |c.sizes| || s.stop then Some(Move(s, w, Gone))
           else Some(Move(s, w, Trying(i)).(attempted := s.attempted + {i}))
         case Trying(i) =>
           if c.ok(i) then Some(Move(s, w, Adding(i)))
           else Some(Move(s, w, Failing(i)).(failed := s.failed + {i}))
         case Adding(i) =>
           Some(Move(s, w, Summing(i)).(processed := s.processed + 1, counted := s.counted + {i}))
         case Summing(i) =>
           if i >= |c.sizes| then None
           else Some(Move(s, w, Head(i + c.workers)).(totalBytes := WrapAdd(s.totalBytes, c.sizes[i]),
                                                      summed := s.summed + {i}))
         case Failing(i) =>
           if s.stop then Some(Move(s, w, Gone)) else Some(Move(s, w, Posting(i)).(stop := true))
         case Posting(i) =>
           if s.slot.Some? then None else Some(Move(s, w, Gone).(slot := Some(i)))
         case Gone => None
  }

  function Exec(c: Config, schedule: seq<nat>): Option<State> {
    if schedule == [] then Some(Init(c))
    else
      var before := Exec(c, schedule[..|schedule| - 1]);
      if before.None? then None else Step(c, before.value, schedule[|schedule| - 1])
  }

  ghost predicate Reachable(c: Config, s: State) {
    exists schedule :: Exec(c, schedule) == Some(s)
  }

  /** wg.Wait returns. */
  predicate Final(s: State) {
    forall w :: 0 <= w < |s.workers| ==> s.workers[w].Gone?
  }

  // ----- strides -----

  /** The worker that entry i belongs to: i modulo the number of workers. */
  function Owner(i: nat, n: nat): (w: nat)
    requires n > 0
    ensures w < n
    decreases i
  {
    if i < n then i else Owner(i - n, n)
  }

  /** Within one stride no worker occurs twice. */
  lemma {:induction false} StrideGap(i: nat, j: nat, n: nat)
    requires n > 0 && i < j < i + n
    ensures Owner(i, n) != Owner(j, n)
    decreases i
  {
    if n <= i { StrideGap(i - n, j - n, n); }
  }

  // ----- the invariant -----

  /** Worker w is at entry p.i of its own stride and has finished the earlier ones. */
  ghost predicate WorkerOk(c: Config, s: State, w: nat, p: Worker)
    requires c.workers > 0
  {
    if p.Gone? then s.stop || forall j :: 0 <= j < |c.sizes| && Owner(j, c.workers) == w ==> j in s.summed
    else
      && Owner(p.i, c.workers) == w
      && (if p.Head? then p.i !in s.attempted else p.i < |c.sizes| && p.i in s.attempted)
      && p.i !in s.summed && (p.i in s.counted <==> p.Summing?)
      && (p.Adding? || p.Summing? ==> c.ok(p.i)) && (p.Trying? ==> p.i !in s.failed)
      && (forall j :: 0 <= j < |c.sizes| && Owner(j, c.workers) == w ==>
            (j < p.i ==> j in s.summed) && (j > p.i ==> j !in s.attempted))
  }

  ghost predicate HistoryOk(c: Config, s: State) {
    && s.summed <= s.counted <= s.attempted
    && (forall i :: i in s.attempted ==> i < |c.sizes|)
    && (forall i :: i in s.counted ==> c.ok(i))
    && (forall i :: i in s.failed ==> i in s.attempted && !c.ok(i))
    && s.processed == |s.counted|
    && s.totalBytes == SumIn(c.sizes, s.summed, |c.sizes|) % TWO_64
  }

  /** The flag and the one-slot channel. */
  ghost predicate SlotOk(s: State) {
    OnePosting(s) && PostingOk(s)
  }

  ghost predicate OnePosting(s: State) {
    forall w, v :: 0 <= w < v < |s.workers| ==> !(s.workers[w].Posting? && s.workers[v].Posting?)
  }

  ghost predicate PostingOk(s: State) {
    && (forall w :: 0 <= w < |s.workers| && s.workers[w].Posting? ==>
          s.stop && s.slot.None? && s.workers[w].i in s.failed)
    && (forall w :: 0 <= w < |s.workers| && s.workers[w].Failing? ==> s.workers[w].i in s.failed)
    && (s.slot.Some? ==> s.stop && s.slot.value in s.failed)
  }

  /** A set flag or a failed entry whose error is not yet in the slot is on its way there. */
  ghost predicate ErrorOnItsWay(s: State) {
    && (s.stop && s.slot.None? ==> exists w :: 0 <= w < |s.workers| && s.workers[w].Posting?)
    && (!s.stop && s.failed != {} ==> exists w :: 0 <= w < |s.workers| && s.workers[w].Failing?)
  }

  /** An attempt that is neither counted nor failed is in some worker's hands, and so is an
      entry that is counted and not yet summed. */
  ghost predicate InHand(s: State) {
    && (forall i :: i in s.attempted && i !in s.counted && i !in s.failed ==>
          HasWorker(s, Trying(i)) || HasWorker(s, Adding(i)))
    && (forall i :: i in s.counted && i !in s.summed ==> HasWorker(s, Summing(i)))
  }

  ghost predicate HasWorker(s: State, p: Worker) {
    exists w :: 0 <= w < |s.workers| && s.workers[w] == p
  }

  ghost predicate Inv(c: Config, s: State) {
    && c.workers > 0 && |s.workers| == c.workers
    && (forall w :: 0 <= w < |s.workers| ==> WorkerOk(c, s, w, s.workers[w]))
    && HistoryOk(c, s) && SlotOk(s) && ErrorOnItsWay(s) && InHand(s)
  }

  lemma InitInv(c: Config)
    requires c.workers > 0
    ensures Inv(c, Init(c))
  {
    SumEmpty(c.sizes, |c.sizes|);
    forall j | 0 <= j < |c.sizes| ensures Owner(j, c.workers) <= j { OwnerBelow(j, c.workers); }
  }

  lemma {:induction false} OwnerBelow(j: nat, n: nat)
    requires n > 0
    ensures Owner(j, n) <= j
    decreases j
  {
    if n <= j { OwnerBelow(j - n, n); }
  }

  /** A step of w leaves the other workers' strides alone. */
  lemma StepOther(c: Config, s: State, w: nat, s': State, v: nat)
    requires c.workers == |s.workers| > 0 && Step(c, s, w) == Some(s') && v < |s.workers| && v != w
    requires WorkerOk(c, s, w, s.workers[w]) && WorkerOk(c, s, v, s.workers[v])
    ensures WorkerOk(c, s', v, s'.workers[v])
  {
    assert s'.workers[v] == s.workers[v];
  }

  lemma StepOwn(c: Config, s: State, w: nat, s': State)
    requires c.workers == |s.workers| > 0 && Step(c, s, w) == Some(s') && HistoryOk(c, s)
    requires WorkerOk(c, s, w, s.workers[w])
    requires s.workers[w].Posting? ==> s.stop
    ensures WorkerOk(c, s', w, s'.workers[w])
  {
    var p := s.workers[w];
    if p.Summing? {
      forall j | 0 <= j < |c.sizes| && Owner(j, c.workers) == w && j < p.i + c.workers ensures j in s'.summed {
        if p.i < j { StrideGap(p.i, j, c.workers); }
      }
    }
  }

  lemma StepHistory(c: Config, s: State, w: nat, s': State)
    requires c.workers == |s.workers| > 0 && Step(c, s, w) == Some(s') && HistoryOk(c, s)
    requires WorkerOk(c, s, w, s.workers[w])
    ensures HistoryOk(c, s')
  {
    var p := s.workers[w];
    if p.Summing? { SumAdd(c.sizes, s.summed, p.i, |c.sizes|); }
  }

  lemma StepSlot(c: Config, s: State, w: nat, s': State)
    requires c.workers == |s.workers| > 0 && Step(c, s, w) == Some(s') && SlotOk(s)
    ensures SlotOk(s')
  {
    StepOnePosting(c, s, w, s');
    StepPosting(c, s, w, s');
  }

  lemma StepOnePosting(c: Config, s: State, w: nat, s': State)
    requires Step(c, s, w) == Some(s') && OnePosting(s) && PostingOk(s)
    ensures OnePosting(s')
  {
    assert forall v :: 0 <= v < |s.workers| && v != w ==> s'.workers[v] == s.workers[v];
  }

  lemma StepPosting(c: Config, s: State, w: nat, s': State)
    requires Step(c, s, w) == Some(s') && OnePosting(s) && PostingOk(s)
    ensures PostingOk(s')
  {
    assert forall v :: 0 <= v < |s.workers| && v != w ==> s'.workers[v] == s.workers[v];
  }

  lemma StepOnItsWay(c: Config, s: State, w: nat, s': State)
    requires c.workers == |s.workers| > 0 && Step(c, s, w) == Some(s') && SlotOk(s) && ErrorOnItsWay(s)
    ensures ErrorOnItsWay(s')
  {
    assert s'.workers[w] == s'.workers[w];
    if s'.stop && s'.slot.None? && s.stop {
      var v :| 0 <= v < |s.workers| && s.workers[v].Posting?;
      assert v != w && s'.workers[v] == s.workers[v];
    }
    if !s'.stop && s.failed != {} {
      var v :| 0 <= v < |s.workers| && s.workers[v].Failing?;
      assert v != w && s'.workers[v] == s.workers[v];
    }
  }

  lemma OthersStay(s: State, w: nat, s': State, p: Worker)
    requires w < |s.workers| == |s'.workers| && s'.workers == s.workers[w := s'.workers[w]]
    requires HasWorker(s, p) && s.workers[w] != p
    ensures HasWorker(s', p)
  {
    var v :| 0 <= v < |s.workers| && s.workers[v] == p;
    assert s'.workers[v] == p;
  }

  lemma StepInHand(c: Config, s: State, w: nat, s': State)
    requires c.workers == |s.workers| > 0 && Step(c, s, w) == Some(s') && InHand(s) && HistoryOk(c, s)
    ensures InHand(s')
  {
    assert s'.workers[w] == s'.workers[w] && s'.workers == s.workers[w := s'.workers[w]];
    assert HasWorker(s', s'.workers[w]);
    forall p: Worker | HasWorker(s, p) && s.workers[w] != p ensures HasWorker(s', p) { OthersStay(s, w, s', p); }
  }

  lemma StepInv(c: Config, s: State, w: nat, s': State)
    requires Inv(c, s) && Step(c, s, w) == Some(s')
    ensures Inv(c, s')
  {
    forall v | 0 <= v < |s.workers| ensures WorkerOk(c, s', v, s'.workers[v]) {
      if v == w { StepOwn(c, s, w, s'); } else { StepOther(c, s, w, s', v); }
    }
    StepHistory(c, s, w, s');
    StepSlot(c, s, w, s');
    StepOnItsWay(c, s, w, s');
    StepInHand(c, s, w, s');
  }

  lemma {:induction false} ExecInv(c: Config, schedule: seq<nat>)
    requires c.workers > 0 && Exec(c, schedule).Some?
    ensures Inv(c, Exec(c, schedule).value)
  {
    if schedule == [] {
      InitInv(c);
    } else {
      var before := schedule[..|schedule| - 1];
      ExecInv(c, before);
      StepInv(c, Exec(c, before).value, schedule[|schedule| - 1], Exec(c, schedule).value);
    }
  }

  lemma ReachableInv(c: Config, s: State)
    requires c.workers > 0 && Reachable(c, s)
    ensures Inv(c, s)
  {
    var schedule :| Exec(c, schedule) == Some(s);
    ExecInv(c, schedule);
  }

  // ----- whole runs -----

  /** In every interleaving an entry is attempted at most once, and the send of the error
      never blocks: some worker can move until all have returned. */
  lemma AttemptedOnceAndNeverBlocked(c: Config, s: State, w: nat)
    requires c.workers > 0 && Reachable(c, s) && w < |s.workers|
    ensures s.workers[w].Head? ==> s.workers[w].i !in s.attempted
    ensures !s.workers[w].Gone? ==> Step(c, s, w).Some?
  {
    ReachableInv(c, s);
    assert WorkerOk(c, s, w, s.workers[w]);
  }

  function AllEntries(n: nat): (all: set<nat>)
    ensures forall i :: i in all <==> 0 <= i < n
  {
    if n == 0 then {} else AllEntries(n - 1) + {n - 1}
  }

  /** When all workers have returned: the pool reports success exactly when no attempt
      failed, which is exactly when every entry succeeds; then each entry was processed
      once, and count and byte total are those of the serial loop. A reported error is the
      error of some entry that really failed. */
  lemma PoolResult(c: Config, s: State)
    requires c.workers > 0 && Reachable(c, s) && Final(s)
    ensures s.slot.None? <==> s.failed == {}
    ensures s.slot.None? <==> forall i :: 0 <= i < |c.sizes| ==> c.ok(i)
    ensures s.slot.None? ==>
              && s.attempted == s.counted == s.summed == AllEntries(|c.sizes|)
              && s.processed == |c.sizes| && s.totalBytes == SerialBytes(c.sizes, |c.sizes|)
    ensures s.slot.Some? ==> s.slot.value < |c.sizes| && s.slot.value in s.attempted && !c.ok(s.slot.value)
  {
    ReachableInv(c, s);
    if s.slot.None? {
      forall j | 0 <= j < |c.sizes| ensures j in s.summed {
        var w := Owner(j, c.workers);
        assert WorkerOk(c, s, w, s.workers[w]);
      }
      var all := AllEntries(|c.sizes|);
      assert s.summed == s.counted == s.attempted == all;
      AllEntriesSize(|c.sizes|);
      SerialIsSum(c.sizes, all, |c.sizes|);
    }
  }

  /** The statistics when all workers have returned, after an error too: every attempt was
      either counted or failed, and the totals are those of the entries counted. */
  lemma PoolStatistics(c: Config, s: State)
    requires c.workers > 0 && Reachable(c, s) && Final(s)
    ensures s.attempted == s.counted + s.failed && s.counted == s.summed && s.counted !! s.failed
    ensures forall i :: i in s.counted ==> i < |c.sizes| && c.ok(i)
    ensures s.processed == |s.counted| && s.totalBytes == SumIn(c.sizes, s.counted, |c.sizes|) % TWO_64
  {
    ReachableInv(c, s);
    NothingInHand(c, s);
  }

  lemma NothingInHand(c: Config, s: State)
    requires Final(s) && HistoryOk(c, s) && InHand(s)
    ensures s.attempted == s.counted + s.failed && s.counted == s.summed && s.counted !! s.failed
  {
    forall p: Worker | HasWorker(s, p) ensures p.Gone? {}
  }

  lemma {:induction false} AllEntriesSize(n: nat)
    ensures |AllEntries(n)| == n
  {
    if n > 0 {
      AllEntriesSize(n - 1);
      assert AllEntries(n) == AllEntries(n - 1) + {n - 1};
    }
  }

  // ----- the serial loop -----

  function SerialBytes(sizes: seq<U64>, k: nat): U64
    requires k <= |sizes|
  {
    if k == 0 then 0 else WrapAdd(SerialBytes(sizes, k - 1), sizes[k - 1])
  }

  lemma {:induction false} SerialIsSum(sizes: seq<U64>, X: set<nat>, k: nat)
    requires k <= |sizes| && forall i :: 0 <= i < k ==> i in X
    ensures SerialBytes(sizes, k) == SumIn(sizes, X, k) % TWO_64
  {
    if k > 0 { SerialIsSum(sizes, X, k - 1); }
  }

  /** processEntriesSerial: stops at the first failing entry. */
  method ProcessSerial(c: Config) returns (processed: nat, totalBytes: U64, failed: Option<nat>)
    ensures processed <= |c.sizes| && totalBytes == SerialBytes(c.sizes, processed)
    ensures forall i :: 0 <= i < processed ==> c.ok(i)
    ensures failed.None? <==> processed == |c.sizes|
    ensures failed.Some? ==> failed.value == processed < |c.sizes| && !c.ok(processed)
  {
    processed, totalBytes := 0, 0;
    while processed < |c.sizes|
      invariant processed <= |c.sizes| && totalBytes == SerialBytes(c.sizes, processed)
      invariant forall i :: 0 <= i < processed ==> c.ok(i)
    {
      if !c.ok(processed) { return processed, totalBytes, Some(processed); }
      totalBytes := WrapAdd(totalBytes, c.sizes[processed]);
      processed := processed + 1;
    }
    failed := None;
  }

  // ----- termination -----

  function Weight(c: Config, p: Worker): nat {
    match p
    case Gone => 0
    case Posting(_) => 1
    case Failing(_) => 2
    case Summing(i) => 6 + Left(c, i)
    case Adding(i) => 7 + Left(c, i)
    case Trying(i) => 8 + Left(c, i)
    case Head(i) => 9 + Left(c, i)
  }

  function Left(c: Config, i: nat): nat {
    if i < |c.sizes| then 10 * (|c.sizes| - i) else 0
  }

  function Weights(c: Config, ws: seq<Worker>): nat {
    if ws == [] then 0 else Weights(c, ws[..|ws| - 1]) + Weight(c, ws[|ws| - 1])
  }

  lemma {:induction false} WeightsUpdate(c: Config, ws: seq<Worker>, w: nat, p: Worker)
    requires w < |ws|
    ensures Weights(c, ws[w := p]) == Weights(c, ws) - Weight(c, ws[w]) + Weight(c, p)
  {
    var n := |ws| - 1;
    if w < n {
      WeightsUpdate(c, ws[..n], w, p);
      assert ws[w := p][..n] == ws[..n][w := p];
    } else {
      assert ws[w := p][..n] == ws[..n];
    }
  }

  /** Every run of the pool is bounded, whatever the schedule. */
  lemma {:induction false} RunsAreBounded(c: Config, schedule: seq<nat>)
    requires c.workers > 0 && Exec(c, schedule).Some?
    ensures |schedule| + Weights(c, Exec(c, schedule).value.workers) <= Weights(c, Init(c).workers)
  {
    if schedule != [] {
      var before := schedule[..|schedule| - 1];
      RunsAreBounded(c, before);
      StepLowersWeight(c, Exec(c, before).value, schedule[|schedule| - 1]);
    }
  }

  lemma StepLowersWeight(c: Config, s: State, w: nat)
    requires c.workers > 0 && Step(c, s, w).Some?
    ensures Weights(c, Step(c, s, w).value.workers) < Weights(c, s.workers)
  {
    LighterPhase(c, s, w);
    WeightsUpdate(c, s.workers, w, Step(c, s, w).value.workers[w]);
  }

  lemma LighterPhase(c: Config, s: State, w: nat)
    requires c.workers > 0 && Step(c, s, w).Some?
    ensures var p := Step(c, s, w).value.workers[w];
            Step(c, s, w).value.workers == s.workers[w := p] && Weight(c, p) < Weight(c, s.workers[w])
  {
  }
}
