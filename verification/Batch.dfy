/**
  Batch extraction: select, validate and sort entries, group adjacent ones into range
  reads, cut each entry out of its group's bytes, verify it and hand it to the sink.
 */
module Batch {
  import opened Wrappers
  import opened Bytes
  import opened Archive
  import opened Readers

  datatype Group = Group(start: U64, end: U64, entries: seq<Entry>)

  ghost predicate InSource(es: seq<Entry>, size: nat) {
    forall i :: 0 <= i < |es| ==> es[i].dataOffset + es[i].dataSize <= size
  }

  ghost predicate SortedByOffset(es: seq<Entry>) {
    forall i, j :: 0 <= i < j < |es| ==> es[i].dataOffset <= es[j].dataOffset
  }

  /** The entries follow each other without gap or overlap. */
  ghost predicate Adjacent(es: seq<Entry>) {
    forall i, j :: 0 <= i && i + 1 == j < |es| ==> es[i].dataOffset + es[i].dataSize == es[j].dataOffset
  }

  /** A group's entries tile its range exactly. */
  ghost predicate Tiled(g: Group) {
    && g.entries != [] && Adjacent(g.entries)
    && g.start == g.entries[0].dataOffset
    && g.end == g.entries[|g.entries| - 1].dataOffset + g.entries[|g.entries| - 1].dataSize
  }

  ghost predicate AllTiled(gs: seq<Group>) {
    forall i :: 0 <= i < |gs| ==> Tiled(gs[i])
  }

  /** No two consecutive groups could have been one. */
  ghost predicate Separate(gs: seq<Group>) {
    forall i, j :: 0 <= i && i + 1 == j < |gs| ==> gs[i].end != gs[j].start
  }

  function Flatten(gs: seq<Group>): seq<Entry> {
    if gs == [] then [] else Flatten(gs[..|gs| - 1]) + gs[|gs| - 1].entries
  }

  lemma FlattenAppend(gs: seq<Group>, g: Group)
    ensures Flatten(gs + [g]) == Flatten(gs) + g.entries
  {
    assert (gs + [g])[..|gs|] == gs;
  }

  /** Tiled groups inside the source, none mergeable with the next. */
  ghost predicate Grouped(gs: seq<Group>, size: nat) {
    AllTiled(gs) && Separate(gs) && forall i :: 0 <= i < |gs| ==> gs[i].end <= size
  }

  lemma GroupedAppend(gs: seq<Group>, g: Group, size: nat)
    requires Grouped(gs, size) && Tiled(g) && g.end <= size
    requires gs != [] ==> gs[|gs| - 1].end != g.start
    ensures Grouped(gs + [g], size)
  {
  }

  lemma TiledExtend(g: Group, e: Entry)
    requires Tiled(g) && e.dataOffset == g.end && e.dataOffset + e.dataSize < TWO_64
    ensures Tiled(Group(g.start, e.dataOffset + e.dataSize, g.entries + [e]))
  {
  }

  /** Where an entry's data ends, as the 64-bit addition computes it. */
  function EndOf(e: Entry): (end: U64)
    ensures e.dataOffset + e.dataSize < TWO_64 ==> end == e.dataOffset + e.dataSize
  {
    WrapAdd(e.dataOffset, e.dataSize)
  }

  /** groupAdjacentEntries, with its 64-bit additions. */
  method GroupAdjacent(es: seq<Entry>, size: nat) returns (gs: seq<Group>)
    requires es != [] && InSource(es, size) && size <= MAX_INT64
    ensures Flatten(gs) == es
    ensures Grouped(gs, size)
  {
    gs := [];
    StartFirst(es[0], size);
    assert es[..1] == [es[0]];
    var current := Group(es[0].dataOffset, EndOf(es[0]), [es[0]]);
    for i := 1 to |es|
      invariant Partial(gs, current, es[..i], size)
    {
      var e := es[i];
      assert es[..i + 1] == es[..i] + [e];
      var end := EndOf(e);
      if e.dataOffset == current.end {
        ExtendCurrent(gs, current, es[..i], size, e);
        current := Group(current.start, end, current.entries + [e]);
      } else {
        StartNext(gs, current, es[..i], size, e);
        gs := gs + [current];
        current := Group(e.dataOffset, end, [e]);
      }
    }
    CloseCurrent(gs, current, es[..|es|], size);
    gs := gs + [current];
    assert es[..|es|] == es;
  }

  /** The closed groups and the current one hold the entries seen so far. */
  ghost predicate Partial(gs: seq<Group>, current: Group, seen: seq<Entry>, size: nat) {
    && Flatten(gs) + current.entries == seen
    && Grouped(gs, size) && Tiled(current) && current.end <= size
    && (gs != [] ==> gs[|gs| - 1].end != current.start)
  }

  lemma StartFirst(e: Entry, size: nat)
    requires e.dataOffset + e.dataSize <= size < TWO_64
    ensures Partial([], Group(e.dataOffset, e.dataOffset + e.dataSize, [e]), [e], size)
  {
    assert Flatten([]) + [e] == [e];
  }

  lemma ExtendCurrent(gs: seq<Group>, current: Group, seen: seq<Entry>, size: nat, e: Entry)
    requires Partial(gs, current, seen, size) && e.dataOffset == current.end
    requires e.dataOffset + e.dataSize <= size < TWO_64
    ensures Partial(gs, Group(current.start, e.dataOffset + e.dataSize, current.entries + [e]), seen + [e], size)
  {
    TiledExtend(current, e);
    assert Flatten(gs) + (current.entries + [e]) == seen + [e];
  }

  lemma StartNext(gs: seq<Group>, current: Group, seen: seq<Entry>, size: nat, e: Entry)
    requires Partial(gs, current, seen, size) && e.dataOffset != current.end
    requires e.dataOffset + e.dataSize <= size < TWO_64
    ensures Partial(gs + [current], Group(e.dataOffset, e.dataOffset + e.dataSize, [e]), seen + [e], size)
  {
    CloseCurrent(gs, current, seen, size);
  }

  lemma CloseCurrent(gs: seq<Group>, current: Group, seen: seq<Entry>, size: nat)
    requires Partial(gs, current, seen, size)
    ensures Flatten(gs + [current]) == seen && Grouped(gs + [current], size) && (gs + [current])[|gs|] == current
  {
    FlattenAppend(gs, current);
    GroupedAppend(gs, current, size);
  }

  // ----- one group -----

  lemma {:induction false} TilesGrow(es: seq<Entry>, i: nat, j: nat)
    requires Adjacent(es) && i <= j < |es|
    ensures es[i].dataOffset <= es[j].dataOffset
    ensures i < j ==> es[i].dataOffset + es[i].dataSize <= es[j].dataOffset
    decreases j
  {
    if i < j {
      assert es[j - 1].dataOffset + es[j - 1].dataSize == es[j].dataOffset;
      TilesGrow(es, i, j - 1);
    }
  }

  /** Every entry of a group lies inside the group's range. */
  lemma EntryInGroup(g: Group, k: nat)
    requires Tiled(g) && k < |g.entries|
    ensures g.start <= g.entries[k].dataOffset && g.entries[k].dataOffset + g.entries[k].dataSize <= g.end
  {
    TilesGrow(g.entries, 0, k);
    TilesGrow(g.entries, k, |g.entries| - 1);
  }

  /** The bytes of a group's range. */
  function GroupData(g: Group, data: Bytes): Bytes
    requires g.start <= g.end <= |data|
  {
    data[g.start..g.end]
  }

  /** An entry's offset in its group, as the 64-bit subtraction computes it. */
  function Offset(e: Entry, groupStart: U64): (at: U64)
    ensures groupStart <= e.dataOffset ==> at == e.dataOffset - groupStart
  {
    WrapSub(e.dataOffset, groupStart)
  }

  /** The entry's bytes, cut out of the group's data with 64-bit arithmetic. */
  method CutEntry(e: Entry, groupData: Bytes, groupStart: U64) returns (r: Result<Bytes>)
    requires |groupData| <= MAX_INT64
    ensures r.Ok? <==> Offset(e, groupStart) + e.dataSize <= |groupData|
    ensures r.Ok? ==> r.value == groupData[Offset(e, groupStart)..Offset(e, groupStart) + e.dataSize]
  {
    var localOffset := Offset(e, groupStart);
    var localEnd := WrapAdd(localOffset, e.dataSize);
    if localEnd < localOffset || localEnd > |groupData| { return Err(SizeOverflow); }
    r := Ok(groupData[localOffset..localEnd]);
  }

  /** Inside a tiled group the overflow branch is dead and the cut is the entry's own
      slice of the source. */
  lemma CutIsStored(g: Group, data: Bytes, k: nat)
    requires Tiled(g) && g.end <= |data| && k < |g.entries| && g.start <= g.end
    ensures g.start <= g.entries[k].dataOffset && g.entries[k].dataOffset + g.entries[k].dataSize <= g.end
    ensures Offset(g.entries[k], g.start) == g.entries[k].dataOffset - g.start
    ensures var e := g.entries[k];
            GroupData(g, data)[e.dataOffset - g.start..e.dataOffset + e.dataSize - g.start] == Stored(e, data)
  {
    EntryInGroup(g, k);
    var e := g.entries[k];
    SliceOfSlice(data, g.start, g.end, e.dataOffset, e.dataOffset + e.dataSize);
  }

  lemma SliceOfSlice(data: Bytes, lo: nat, hi: nat, x: nat, y: nat)
    requires lo <= x <= y <= hi <= |data|
    ensures data[lo..hi][x - lo..y - lo] == data[x..y]
  {
    forall i | 0 <= i < y - x ensures data[lo..hi][x - lo..y - lo][i] == data[x..y][i] {}
  }

  /** Where content goes. A buffering sink takes each content whole, a writing sink hands
      out a writer per entry; either may refuse, at any of its calls. */
  datatype Sink =
    | Buffering(put: (Entry, Bytes) -> bool)
    | Writing(open: Entry -> bool, room: Entry -> Option<nat>, commit: Entry -> bool)
  {
    /** The sink accepts the entry's content. */
    predicate Takes(e: Entry, content: Bytes) {
      match this
      case Buffering(put) => put(e, content)
      case Writing(open, room, commit) => open(e) && !Overfull(room(e), |content|) && commit(e)
    }
  }

  /** What one entry comes to: the content that the sink has taken, or why it has none. */
  function Handle(c: Codec, sink: Sink, e: Entry, stored: Bytes): Result<Bytes> {
    match sink
    case Buffering(put) =>
      var r := ReadStored(Whole, c, e, stored);
      if r.Ok? && !put(e, r.value) then Err(SinkFailed) else r
    case Writing(open, room, commit) =>
      if !open(e) then Err(SinkFailed)
      else
        var r := WriteStored(c, e, stored, room(e));
        if r.Ok? && !commit(e) then Err(SinkFailed) else r
  }

  /** Handling succeeds exactly when the entry can be read and the sink takes it. */
  lemma HandleOk(c: Codec, sink: Sink, e: Entry, stored: Bytes)
    requires e.compression.Uncompressed? ==> |stored| == e.originalSize
    ensures var h, r := Handle(c, sink, e, stored), ReadStored(Whole, c, e, stored);
            (h.Ok? <==> r.Ok? && sink.Takes(e, r.value)) && (h.Ok? ==> h == r)
  {
    if sink.Writing? { WriteStoredOk(c, e, stored, sink.room(e)); }
  }

  /** What reaches the sink. */
  datatype Delivery = Delivery(path: Bytes, content: Bytes)

  /** The outcome of serial processing: what was delivered, the statistics (the bytes are
      counted modulo 2^64), and the error that stopped it. */
  datatype Outcome = Outcome(delivered: seq<Delivery>, totalBytes: U64, result: Result<()>)

  const EMPTY: Outcome := Outcome([], 0, Ok(()))

  /** What handling an entry comes to. */
  type Handler = Entry -> Result<Bytes>

  function HandlerOf(c: Codec, sink: Sink, data: Bytes): Handler {
    (e: Entry) =>
      if e.dataOffset + e.dataSize <= |data| then Handle(c, sink, e, Stored(e, data)) else Err(SizeOverflow)
  }

  /** The entry after those of o is handled. */
  function Advance(o: Outcome, e: Entry, r: Result<Bytes>): Outcome {
    match r
    case Err(error) => o.(result := Err(error))
    case Ok(content) =>
      Outcome(o.delivered + [Delivery(e.path, content)], WrapAdd(o.totalBytes, e.originalSize), o.result)
  }

  /** Processing the first k entries after `before`, up to the first that fails. */
  function DeliverFrom(h: Handler, before: Outcome, es: seq<Entry>, k: nat): Outcome
    requires k <= |es|
  {
    if k == 0 then before
    else
      var o := DeliverFrom(h, before, es, k - 1);
      if o.result.Err? then o else Advance(o, es[k - 1], h(es[k - 1]))
  }

  function Deliver(h: Handler, es: seq<Entry>, k: nat): Outcome
    requires k <= |es|
  {
    DeliverFrom(h, EMPTY, es, k)
  }

  lemma {:induction false} DeliverStops(h: Handler, before: Outcome, es: seq<Entry>, j: nat, k: nat)
    requires j <= k <= |es| && DeliverFrom(h, before, es, j).result.Err?
    ensures DeliverFrom(h, before, es, k) == DeliverFrom(h, before, es, j)
    decreases k
  {
    if j < k { DeliverStops(h, before, es, j, k - 1); }
  }

  /** Everything was delivered, exactly when handling every entry succeeds. */
  lemma {:induction false} DeliverAllIff(h: Handler, es: seq<Entry>, k: nat)
    requires k <= |es|
    ensures Deliver(h, es, k).result.Ok? <==> forall i :: 0 <= i < k ==> h(es[i]).Ok?
    ensures Deliver(h, es, k).result.Ok? ==>
            && |Deliver(h, es, k).delivered| == k
            && forall i :: 0 <= i < k ==> Deliver(h, es, k).delivered[i] == Delivery(es[i].path, h(es[i]).value)
  {
    if k > 0 { DeliverAllIff(h, es, k - 1); }
  }

  /** The content bytes of the first k entries. */
  function ContentBytes(es: seq<Entry>, k: nat): nat
    requires k <= |es|
  {
    if k == 0 then 0 else ContentBytes(es, k - 1) + es[k - 1].originalSize
  }

  /** As long as entries are handled, each is delivered once, in order, and its content's
      bytes are counted, modulo 2^64. */
  lemma {:induction false} AllHandled(h: Handler, before: Outcome, es: seq<Entry>, k: nat)
    requires k <= |es| && before.result.Ok? && forall j :: 0 <= j < k ==> h(es[j]).Ok?
    ensures var o, n := DeliverFrom(h, before, es, k), |before.delivered|;
            && o.result.Ok? && |o.delivered| == n + k && o.delivered[..n] == before.delivered
            && (forall j :: 0 <= j < k ==> o.delivered[n + j] == Delivery(es[j].path, h(es[j]).value))
            && o.totalBytes == (before.totalBytes + ContentBytes(es, k)) % TWO_64
  {
    if k > 0 {
      AllHandled(h, before, es, k - 1);
      WrapIsModulo((before.totalBytes + ContentBytes(es, k - 1)) % TWO_64, es[k - 1].originalSize);
    }
  }

  /** Processing stops at the first entry that fails, with its error; the entries before it
      are delivered and counted, and nothing else. */
  lemma {:induction false} FirstFailure(h: Handler, before: Outcome, es: seq<Entry>, i: nat)
    requires i < |es| && before.result.Ok? && h(es[i]).Err? && forall j :: 0 <= j < i ==> h(es[j]).Ok?
    ensures var o, n := DeliverFrom(h, before, es, |es|), |before.delivered|;
            && o.result == Err(h(es[i]).error) && |o.delivered| == n + i && o.delivered[..n] == before.delivered
            && (forall j :: 0 <= j < i ==> o.delivered[n + j] == Delivery(es[j].path, h(es[j]).value))
            && o.totalBytes == (before.totalBytes + ContentBytes(es, i)) % TWO_64
  {
    AllHandled(h, before, es, i);
    DeliverStops(h, before, es, i + 1, |es|);
  }

  /** A stretch of entries continues the delivery. */
  lemma {:induction false} DeliverPart(h: Handler, part: seq<Entry>, es: seq<Entry>, base: nat, k: nat)
    requires k <= |part| && base + |part| <= |es| && es[base..base + |part|] == part
    ensures DeliverFrom(h, Deliver(h, es, base), part, k) == Deliver(h, es, base + k)
  {
    if k > 0 {
      DeliverPart(h, part, es, base, k - 1);
      assert part[k - 1] == es[base + (k - 1)];
    }
  }

  // ----- the whole batch -----

  /** The sink's choice of entries, in their given order. */
  function Selected(es: seq<Entry>, want: Entry -> bool): seq<Entry> {
    if es == [] then []
    else
      var before := Selected(es[..|es| - 1], want);
      if want(es[|es| - 1]) then before + [es[|es| - 1]] else before
  }

  /** Each accepted entry is taken as often as it is given, and no other. */
  lemma {:induction false} SelectedCounts(es: seq<Entry>, want: Entry -> bool)
    ensures forall e :: multiset(Selected(es, want))[e] == if want(e) then multiset(es)[e] else 0
  {
    if es != [] {
      SelectedCounts(es[..|es| - 1], want);
      assert es == es[..|es| - 1] + [es[|es| - 1]];
    }
  }

  function Insert(es: seq<Entry>, e: Entry): (r: seq<Entry>)
    ensures multiset(r) == multiset(es) + multiset{e}
  {
    if es == [] || es[|es| - 1].dataOffset <= e.dataOffset then es + [e]
    else
      assert es == es[..|es| - 1] + [es[|es| - 1]];
      Insert(es[..|es| - 1], e) + [es[|es| - 1]]
  }

  lemma {:induction false} InsertSorted(es: seq<Entry>, e: Entry)
    requires SortedByOffset(es)
    ensures SortedByOffset(Insert(es, e))
  {
    if es != [] && es[|es| - 1].dataOffset > e.dataOffset {
      var front, last := es[..|es| - 1], es[|es| - 1];
      InsertSorted(front, e);
      var r := Insert(front, e);
      forall i | 0 <= i < |r| ensures r[i].dataOffset <= last.dataOffset {
        assert r[i] in multiset(r);
        assert r[i] in multiset(front) || r[i] == e;
      }
    }
  }

  /** Some ordering by offset; ties may come out in any order in the source. */
  method SortByOffset(es: seq<Entry>) returns (out: seq<Entry>)
    ensures SortedByOffset(out) && multiset(out) == multiset(es)
  {
    out := [];
    for i := 0 to |es|
      invariant SortedByOffset(out) && multiset(out) == multiset(es[..i])
    {
      InsertSorted(out, es[i]);
      assert es[..i + 1] == es[..i] + [es[i]];
      out := Insert(out, es[i]);
    }
    assert es[..|es|] == es;
  }

  lemma {:induction false} FlattenAt(gs: seq<Group>, i: nat)
    requires i < |gs|
    ensures var base := |Flatten(gs[..i])|;
            && base + |gs[i].entries| == |Flatten(gs[..i + 1])| <= |Flatten(gs)|
            && Flatten(gs)[base..base + |gs[i].entries|] == gs[i].entries
    decreases |gs|
  {
    assert gs[..i + 1][..i] == gs[..i];
    if i + 1 == |gs| {
      assert gs[..i + 1] == gs;
    } else {
      FlattenAt(gs[..|gs| - 1], i);
      assert gs[..|gs| - 1][..i] == gs[..i] && gs[..|gs| - 1][..i + 1] == gs[..i + 1];
    }
  }

  /** How the writer of an entry is let go. */
  datatype Release = NoWriter | Committed | Discarded

  /** processEntry: entry k of group g, given the group's bytes. A writer is committed or
      discarded, never both: discarded exactly when decoding or writing failed. */
  method ProcessEntry(c: Codec, sink: Sink, e: Entry, groupData: Bytes, groupStart: U64,
                      ghost g: Group, ghost k: nat, ghost data: Bytes)
    returns (r: Result<Bytes>, release: Release)
    requires Tiled(g) && g.start <= g.end <= |data| <= MAX_INT64 && k < |g.entries| && g.entries[k] == e
    requires groupData == GroupData(g, data) && groupStart == g.start
    requires ValidateCompression(e).Ok? && e.dataOffset + e.dataSize <= |data|
    ensures r == Handle(c, sink, e, Stored(e, data))
    ensures sink.Buffering? || !sink.open(e) ==> release == NoWriter
    ensures sink.Writing? && sink.open(e) ==>
              release == if WriteStored(c, e, Stored(e, data), sink.room(e)).Ok? then Committed else Discarded
  {
    CutIsStored(g, data, k);
    var stored := CutEntry(e, groupData, groupStart);
    assert stored.Ok?;  // in a tiled group the overflow branch is dead
    release := NoWriter;
    match sink {
      case Buffering(put) =>
        r := DecodeBuffered(c, e, stored.value);
        if r.Ok? && !put(e, r.value) { r := Err(SinkFailed); }
      case Writing(open, room, commit) =>
        if !open(e) { return Err(SinkFailed), NoWriter; }
        r := DecodeStreaming(c, e, stored.value, room(e));
        if r.Err? { return r, Discarded; }
        release := Committed;
        if !commit(e) { r := Err(SinkFailed); }
    }
  }

  /** Entries that passed validation against the data. */
  ghost predicate Readable(es: seq<Entry>, data: Bytes) {
    && |data| <= MAX_INT64 && InSource(es, |data|)
    && forall i :: 0 <= i < |es| ==> ValidateCompression(es[i]).Ok?
  }

  /** A group of validated entries, and its bytes. */
  ghost predicate GroupReady(g: Group, data: Bytes) {
    && Readable(g.entries, data) && Tiled(g) && g.start <= g.end <= |data|
  }

  /** processEntriesSerial: the entries of a group one after the other, to the first failure. */
  method ProcessGroup(c: Codec, sink: Sink, g: Group, groupData: Bytes, before: Outcome, ghost data: Bytes)
    returns (o: Outcome)
    requires GroupReady(g, data) && groupData == GroupData(g, data) && before.result.Ok?
    ensures o == DeliverFrom(HandlerOf(c, sink, data), before, g.entries, |g.entries|)
  {
    ghost var h := HandlerOf(c, sink, data);
    o := before;
    for k := 0 to |g.entries|
      invariant o == DeliverFrom(h, before, g.entries, k) && o.result.Ok?
    {
      var e := g.entries[k];
      var r, _ := ProcessEntry(c, sink, e, groupData, g.start, g, k, data);
      assert r == h(e);
      o := Advance(o, e, r);
      if o.result.Err? {
        DeliverStops(h, before, g.entries, k + 1, |g.entries|);
        return;
      }
    }
  }

  /** Process without pipelining: select, validate, sort, group, then group by group. The
      outcome is that of delivering the selected entries one by one in offset order. */
  method Extract(c: Codec, sink: Sink, es: seq<Entry>, want: Entry -> bool, data: Bytes, maxFileSize: U64)
    returns (o: Outcome, order: seq<Entry>)
    requires |data| <= MAX_INT64
    ensures forall e :: multiset(order)[e] == if want(e) then multiset(es)[e] else 0
    ensures forall i, j :: 0 <= i < j < |order| ==> order[i].dataOffset <= order[j].dataOffset
    ensures (exists e :: e in order && ValidateAll(e, |data|, maxFileSize).Err?) ==> o.delivered == [] && o.result.Err?
    ensures (forall e :: e in order ==> ValidateAll(e, |data|, maxFileSize).Ok?) ==>
              o == Deliver(HandlerOf(c, sink, data), order, |order|)
  {
    var chosen := Selected(es, want);
    order := SortByOffset(chosen);
    SelectedCounts(es, want);
    ChosenMembers(es, want, order);
    ChosenMembers(es, want, chosen);
    for i := 0 to |chosen|
      invariant forall k :: 0 <= k < i ==> ValidateAll(chosen[k], |data|, maxFileSize).Ok?
    {
      var v := ValidateAll(chosen[i], |data|, maxFileSize);
      if v.Err? { return Outcome([], 0, Err(v.error)), order; }
    }
    ValidatedReadable(order, data, maxFileSize);
    o := ExtractGroups(c, sink, order, data);
  }

  /** Validated entries can be read as a batch. */
  lemma ValidatedReadable(order: seq<Entry>, data: Bytes, maxFileSize: U64)
    requires |data| <= MAX_INT64 && forall e :: e in order ==> ValidateAll(e, |data|, maxFileSize).Ok?
    ensures Readable(order, data)
  {
    assert forall i :: 0 <= i < |order| ==> order[i] in order;
  }

  /** Group i of a grouping: where its entries stand in the order, and that its range can
      be read. Its size fits a signed 64-bit integer, so computing it never fails. */
  lemma {:induction false} GroupAt(gs: seq<Group>, order: seq<Entry>, size: nat, i: nat)
    requires Grouped(gs, size) && Flatten(gs) == order && i < |gs| && size <= MAX_INT64
    ensures Before(gs, i) + |gs[i].entries| == Before(gs, i + 1) <= |order|
    ensures Placed(gs[i], order, Before(gs, i))
    ensures Tiled(gs[i]) && gs[i].start <= gs[i].end <= size && gs[i].end - gs[i].start <= MAX_INT64
  {
    FlattenAt(gs, i);
    EntryInGroup(gs[i], 0);
  }

  /** processGroupsSequential. */
  method ExtractGroups(c: Codec, sink: Sink, order: seq<Entry>, data: Bytes) returns (o: Outcome)
    requires Readable(order, data)
    ensures o == Deliver(HandlerOf(c, sink, data), order, |order|)
  {
    ghost var h := HandlerOf(c, sink, data);
    o := EMPTY;
    if order == [] { return; }
    var gs := GroupAdjacent(order, |data|);
    ghost var bs := LocateGroups(gs, order, |data|);
    for i := 0 to |gs|
      invariant bs[i] <= |order| && o == Deliver(h, order, bs[i]) && o.result.Ok?
    {
      GroupIsReady(h, gs[i], order, data, bs[i], bs[i + 1]);
      o := ProcessGroup(c, sink, gs[i], GroupData(gs[i], data), o, data);
      if o.result.Err? {
        DeliverStops(h, EMPTY, order, bs[i + 1], |order|);
        return;
      }
    }
  }

  /** The group's entries stand at `base` in es. */
  ghost predicate Placed(g: Group, es: seq<Entry>, base: nat) {
    base + |g.entries| <= |es| && es[base..base + |g.entries|] == g.entries
  }

  /** The group's entries are order[from..to], and its range can be read. */
  ghost predicate Located(g: Group, order: seq<Entry>, size: nat, from: nat, to: nat) {
    to == from + |g.entries| && Placed(g, order, from) && Tiled(g) && g.start <= g.end <= size
  }

  /** A located group can be processed, and that continues the delivery. */
  lemma GroupIsReady(h: Handler, g: Group, order: seq<Entry>, data: Bytes, from: nat, to: nat)
    requires Readable(order, data) && Located(g, order, |data|, from, to)
    ensures GroupReady(g, data) && from <= to <= |order|
    ensures DeliverFrom(h, Deliver(h, order, from), g.entries, |g.entries|) == Deliver(h, order, to)
  {
    DeliverPart(h, g.entries, order, from, |g.entries|);
    forall k | 0 <= k < |g.entries| ensures g.entries[k] == order[from + k] {
      assert order[from..from + |g.entries|][k] == order[from + k];
    }
  }

  /** Where each group's entries start. */
  lemma LocateGroups(gs: seq<Group>, order: seq<Entry>, size: nat) returns (bs: seq<nat>)
    requires Grouped(gs, size) && Flatten(gs) == order && size <= MAX_INT64
    ensures |bs| == |gs| + 1 && bs[0] == 0 && bs[|gs|] == |order|
    ensures forall i :: 0 <= i < |gs| ==> Located(gs[i], order, size, bs[i], bs[i + 1])
  {
    bs := seq(|gs| + 1, i requires 0 <= i <= |gs| => Before(gs, i));
    assert gs[..|gs|] == gs && gs[..0] == [];
    forall i | 0 <= i < |gs| ensures Located(gs[i], order, size, bs[i], bs[i + 1]) {
      GroupAt(gs, order, size, i);
    }
  }

  /** How many entries the first i groups have. */
  ghost function Before(gs: seq<Group>, i: nat): nat
    requires i <= |gs|
  {
    |Flatten(gs[..i])|
  }

  /** Batch extraction succeeds exactly when every selected entry can be read on its own and
      the sink takes it, and then the sink holds, for each of them, the content a whole-file
      read returns. */
  method ExtractAgreesWithReads(c: Codec, sink: Sink, es: seq<Entry>, want: Entry -> bool, data: Bytes,
                                maxFileSize: U64)
    returns (o: Outcome, order: seq<Entry>)
    requires |data| <= MAX_INT64
    ensures forall e :: multiset(order)[e] == if want(e) then multiset(es)[e] else 0
    ensures o.result.Ok? <==> forall e :: e in es && want(e) ==> Arrives(c, sink, e, data, maxFileSize)
    ensures o.result.Ok? ==>
              && |o.delivered| == |order|
              && forall i :: 0 <= i < |order| ==>
                   && ReadEntry(c, order[i], data, maxFileSize) == Ok(o.delivered[i].content)
                   && o.delivered[i].path == order[i].path
    ensures o.result.Ok? ==>
              forall d :: multiset(o.delivered)[d] ==
                          CountOf(es, (e: Entry) => want(e) && Gives(c, e, data, maxFileSize, d))
  {
    o, order := Extract(c, sink, es, want, data, maxFileSize);
    ChosenMembers(es, want, order);
    if forall e :: e in order ==> ValidateAll(e, |data|, maxFileSize).Ok? {
      DeliverIsReads(c, sink, order, data, maxFileSize);
      if o.result.Ok? { DeliveredCounts(c, es, want, data, maxFileSize, order, o.delivered); }
    }
  }

  // ----- how often something is delivered -----

  /** Reading the entry gives the delivery's path and content. */
  predicate Gives(c: Codec, e: Entry, data: Bytes, maxFileSize: U64, d: Delivery) {
    e.path == d.path && ReadEntry(c, e, data, maxFileSize) == Ok(d.content)
  }

  /** How many of the entries have the property. */
  function CountOf(es: seq<Entry>, p: Entry -> bool): nat {
    if es == [] then 0 else CountOf(es[..|es| - 1], p) + if p(es[|es| - 1]) then 1 else 0
  }

  lemma {:induction false} CountConcat(a: seq<Entry>, b: seq<Entry>, p: Entry -> bool)
    ensures CountOf(a + b, p) == CountOf(a, p) + CountOf(b, p)
  {
    if b == [] {
      assert a + b == a;
    } else {
      CountConcat(a, b[..|b| - 1], p);
      assert (a + b)[..|a + b| - 1] == a + b[..|b| - 1];
    }
  }

  /** Counting an accepted list against the list it was chosen from. */
  lemma {:induction false} CountChosen(order: seq<Entry>, es: seq<Entry>, want: Entry -> bool, p: Entry -> bool)
    requires forall e :: multiset(order)[e] == if want(e) then multiset(es)[e] else 0
    ensures CountOf(order, p) == CountOf(es, (e: Entry) => want(e) && p(e))
    decreases |es|
  {
    if es == [] {
      assert multiset(order) == multiset{} && |multiset(order)| == |order|;
    } else {
      var last, init := es[|es| - 1], es[..|es| - 1];
      assert es == init + [last];
      if want(last) {
        assert last in multiset(order);
        var rest := RemoveOne(order, last, p);
        CountChosen(rest, init, want, p);
      } else {
        CountChosen(order, init, want, p);
      }
    }
  }

  /** The list without one occurrence of an element. */
  lemma RemoveOne(order: seq<Entry>, e: Entry, p: Entry -> bool) returns (rest: seq<Entry>)
    requires e in order
    ensures multiset(order) == multiset(rest) + multiset{e}
    ensures CountOf(order, p) == CountOf(rest, p) + if p(e) then 1 else 0
  {
    var i :| 0 <= i < |order| && order[i] == e;
    var a, b := order[..i], order[i + 1..];
    rest := a + b;
    SplitAt(order, i);
    CountConcat(a, b, p);
    CountConcat(a, [e] + b, p);
    CountConcat([e], b, p);
    CountOne(e, p);
  }

  lemma SplitAt(s: seq<Entry>, i: nat)
    requires i < |s|
    ensures s == s[..i] + ([s[i]] + s[i + 1..])
    ensures multiset(s) == multiset(s[..i]) + multiset{s[i]} + multiset(s[i + 1..])
  {
    assert s == s[..i] + ([s[i]] + s[i + 1..]);
  }

  lemma CountOne(e: Entry, p: Entry -> bool)
    ensures CountOf([e], p) == if p(e) then 1 else 0
  {
    assert [e][..0] == [];
    assert CountOf([e], p) == CountOf([e][..0], p) + if p(e) then 1 else 0;
  }

  /** Deliveries, one per entry, counted by their entries. */
  lemma {:induction false} CountDelivered(c: Codec, data: Bytes, maxFileSize: U64, order: seq<Entry>,
                                          delivered: seq<Delivery>, d: Delivery)
    requires |delivered| == |order|
    requires forall i :: 0 <= i < |order| ==> Gives(c, order[i], data, maxFileSize, delivered[i])
    ensures multiset(delivered)[d] == CountOf(order, (e: Entry) => Gives(c, e, data, maxFileSize, d))
  {
    if order != [] {
      var n := |order| - 1;
      CountDelivered(c, data, maxFileSize, order[..n], delivered[..n], d);
      assert delivered == delivered[..n] + [delivered[n]];
      assert Gives(c, order[n], data, maxFileSize, d) <==> delivered[n] == d;
    }
  }

  /** The sink gets each content as often as accepted entries give it. */
  lemma DeliveredCounts(c: Codec, es: seq<Entry>, want: Entry -> bool, data: Bytes, maxFileSize: U64,
                        order: seq<Entry>, delivered: seq<Delivery>)
    requires forall e :: multiset(order)[e] == if want(e) then multiset(es)[e] else 0
    requires |delivered| == |order|
    requires forall i :: 0 <= i < |order| ==> Gives(c, order[i], data, maxFileSize, delivered[i])
    ensures forall d :: multiset(delivered)[d] ==
                        CountOf(es, (e: Entry) => want(e) && Gives(c, e, data, maxFileSize, d))
  {
    forall d
      ensures multiset(delivered)[d] == CountOf(es, (e: Entry) => want(e) && Gives(c, e, data, maxFileSize, d))
    {
      var gives := (e: Entry) => Gives(c, e, data, maxFileSize, d);
      CountDelivered(c, data, maxFileSize, order, delivered, d);
      CountChosen(order, es, want, gives);
      CountSame(es, (e: Entry) => want(e) && gives(e), (e: Entry) => want(e) && Gives(c, e, data, maxFileSize, d));
    }
  }

  lemma {:induction false} CountSame(es: seq<Entry>, p: Entry -> bool, q: Entry -> bool)
    requires forall e :: p(e) == q(e)
    ensures CountOf(es, p) == CountOf(es, q)
  {
    if es != [] { CountSame(es[..|es| - 1], p, q); }
  }

  lemma ChosenMembers(es: seq<Entry>, want: Entry -> bool, order: seq<Entry>)
    requires forall e :: multiset(order)[e] == if want(e) then multiset(es)[e] else 0
    ensures forall e :: e in order <==> e in es && want(e)
  {
    forall e ensures e in order <==> e in es && want(e) {
      assert (e in order <==> e in multiset(order)) && (e in es <==> e in multiset(es));
    }
  }

  /** The entry can be read, and the sink takes its content. */
  predicate Arrives(c: Codec, sink: Sink, e: Entry, data: Bytes, maxFileSize: U64) {
    var r := ReadEntry(c, e, data, maxFileSize);
    r.Ok? && sink.Takes(e, r.value)
  }

  /** For validated entries, delivery is reading each of them into the sink. */
  lemma DeliverIsReads(c: Codec, sink: Sink, order: seq<Entry>, data: Bytes, maxFileSize: U64)
    requires forall e :: e in order ==> ValidateAll(e, |data|, maxFileSize).Ok?
    ensures var o := Deliver(HandlerOf(c, sink, data), order, |order|);
            && (o.result.Ok? <==> forall e :: e in order ==> Arrives(c, sink, e, data, maxFileSize))
            && (o.result.Ok? ==>
                  && |o.delivered| == |order|
                  && forall i :: 0 <= i < |order| ==>
                       && ReadEntry(c, order[i], data, maxFileSize) == Ok(o.delivered[i].content)
                       && o.delivered[i].path == order[i].path)
  {
    var h := HandlerOf(c, sink, data);
    DeliverAllIff(h, order, |order|);
    forall i | 0 <= i < |order|
      ensures h(order[i]).Ok? <==> Arrives(c, sink, order[i], data, maxFileSize)
      ensures h(order[i]).Ok? ==> h(order[i]) == ReadEntry(c, order[i], data, maxFileSize)
    {
      assert order[i] in order;
      HandleOk(c, sink, order[i], Stored(order[i], data));
    }
  }
}
