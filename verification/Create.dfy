/**
  Archive creation and the round trip: writing every file of a tree and reading each one
  back by path. Reading back works for all of them exactly when no directory is overtaken
  by a sibling, because the index keeps the walk's order and lookup needs byte order.
 */
module Create {
  import opened Wrappers
  import opened Bytes
  import opened Archive
  import opened Readers
  import opened Walk
  import Index

  const DEFAULT_MAX_FILES: int := 200_000

  /** `utf8` is the encoding check of path validation; `skip` the files left uncompressed. */
  datatype Settings = Settings(compress: bool, skip: Bytes -> bool, maxFiles: int, utf8: Bytes -> bool)

  datatype Archived = Archived(entries: seq<Entry>, data: Bytes)

  ghost predicate GoodCodec(c: Codec) {
    && (forall x :: c.decode(c.encode(x)) == Decoded(x, Clean))
    && (forall x :: |c.hash(x)| == HASH_SIZE)
  }

  // ----- writing -----

  function CompressionOf(s: Settings, path: Bytes): Compression {
    if s.compress && !s.skip(path) then Zstd else Uncompressed
  }

  function StoredForm(c: Codec, s: Settings, it: Item): Bytes {
    if CompressionOf(s, it.path).Zstd? then c.encode(it.data) else it.data
  }

  /** The stored bytes of the first k files. */
  function StoredTotal(c: Codec, s: Settings, items: seq<Item>, k: nat): nat
    requires k <= |items|
  {
    if k == 0 then 0 else StoredTotal(c, s, items, k - 1) + |StoredForm(c, s, items[k - 1])|
  }

  function FileLimit(s: Settings): int {
    if s.maxFiles == 0 then DEFAULT_MAX_FILES else s.maxFiles
  }

  /** The first k files stay within creation's limits: the file count, and 64-bit counters. */
  ghost predicate Writable(c: Codec, s: Settings, items: seq<Item>, k: nat)
    requires k <= |items|
  {
    && (FileLimit(s) > 0 ==> k <= FileLimit(s))
    && (forall i :: 0 <= i < k ==> |items[i].data| < TWO_64)
    && StoredTotal(c, s, items, k) < TWO_64
  }

  /** Entry e describes file `it`: its metadata, and its stored form at its place in data. */
  ghost predicate Describes(c: Codec, s: Settings, e: Entry, it: Item, data: Bytes) {
    && e.path == it.path && e.originalSize == |it.data| && e.hash == c.hash(it.data)
    && e.compression == CompressionOf(s, it.path)
    && e.dataOffset + e.dataSize <= |data|
    && Stored(e, data) == StoredForm(c, s, it)
  }

  lemma {:induction false} StoredTotalGrows(c: Codec, s: Settings, items: seq<Item>, j: nat, k: nat)
    requires j <= k <= |items|
    ensures StoredTotal(c, s, items, j) <= StoredTotal(c, s, items, k)
    decreases k
  {
    if j < k { StoredTotalGrows(c, s, items, j, k - 1); }
  }

  /** The entries describe the first files of the walk and lie end to end in data. */
  ghost predicate Written(c: Codec, s: Settings, es: seq<Entry>, items: seq<Item>, data: Bytes) {
    && |es| <= |items| && |data| == StoredTotal(c, s, items, |es|)
    && (forall i :: 0 <= i < |es| ==> Describes(c, s, es[i], items[i], data))
    && EndToEnd(es, |data|)
  }

  /** The entries' ranges follow each other from 0 to size. */
  ghost predicate EndToEnd(es: seq<Entry>, size: nat) {
    && (forall i, j :: 0 <= i && i + 1 == j < |es| ==> es[i].dataOffset + es[i].dataSize == es[j].dataOffset)
    && (if es == [] then size == 0
        else es[0].dataOffset == 0 && es[|es| - 1].dataOffset + es[|es| - 1].dataSize == size)
  }

  lemma EndToEndNext(es: seq<Entry>, size: nat, e: Entry)
    requires EndToEnd(es, size) && e.dataOffset == size
    ensures EndToEnd(es + [e], size + e.dataSize)
  {
  }

  lemma DescribeAll(c: Codec, s: Settings, es: seq<Entry>, items: seq<Item>, data: Bytes, more: Bytes, e: Entry)
    requires |es| < |items| && forall i :: 0 <= i < |es| ==> Describes(c, s, es[i], items[i], data)
    requires Describes(c, s, e, items[|es|], data + more)
    ensures forall i :: 0 <= i < |es + [e]| ==> Describes(c, s, (es + [e])[i], items[i], data + more)
  {
    forall i | 0 <= i < |es| ensures Describes(c, s, es[i], items[i], data + more) {
      DescribesLater(c, s, es[i], items[i], data, more);
    }
  }

  lemma DescribesLater(c: Codec, s: Settings, e: Entry, it: Item, data: Bytes, more: Bytes)
    requires Describes(c, s, e, it, data)
    ensures Describes(c, s, e, it, data + more)
  {
    assert Stored(e, data + more) == Stored(e, data);
  }

  lemma DescribesNew(c: Codec, s: Settings, e: Entry, it: Item, data: Bytes)
    requires e.path == it.path && e.originalSize == |it.data| && e.hash == c.hash(it.data)
    requires e.compression == CompressionOf(s, it.path)
    requires e.dataOffset == |data| && e.dataSize == |StoredForm(c, s, it)|
    ensures Describes(c, s, e, it, data + StoredForm(c, s, it))
  {
    assert Stored(e, data + StoredForm(c, s, it)) == StoredForm(c, s, it);
  }

  /** Appending a file's stored form and its entry keeps the earlier descriptions. */
  lemma {:induction false} WrittenNext(c: Codec, s: Settings, es: seq<Entry>, items: seq<Item>, data: Bytes, e: Entry)
    requires |es| < |items| && Written(c, s, es, items, data)
    requires var it := items[|es|];
             && e.path == it.path && e.originalSize == |it.data| && e.hash == c.hash(it.data)
             && e.compression == CompressionOf(s, it.path)
             && e.dataOffset == |data| && e.dataSize == |StoredForm(c, s, it)|
    ensures Written(c, s, es + [e], items, data + StoredForm(c, s, items[|es|]))
  {
    var more := StoredForm(c, s, items[|es|]);
    DescribesNew(c, s, e, items[|es|], data);
    DescribeAll(c, s, es, items, data, more, e);
    EndToEndNext(es, |data|, e);
    assert |es + [e]| == |es| + 1 && StoredTotal(c, s, items, |es| + 1) == |data + more|;
  }

  lemma {:induction false} WritableNext(c: Codec, s: Settings, items: seq<Item>, i: nat)
    requires i < |items| && Writable(c, s, items, i)
    ensures Writable(c, s, items, i + 1) <==>
            && (FileLimit(s) > 0 ==> i < FileLimit(s)) && |items[i].data| < TWO_64
            && StoredTotal(c, s, items, i) + |StoredForm(c, s, items[i])| < TWO_64
    ensures Writable(c, s, items, |items|) ==> Writable(c, s, items, i + 1)
  {
    StoredTotalGrows(c, s, items, i + 1, |items|);
  }

  /** Some file, or all stored bytes together, do not fit 64 bits. */
  ghost predicate TooMuch(c: Codec, s: Settings, items: seq<Item>) {
    || (exists i :: 0 <= i < |items| && |items[i].data| >= TWO_64)
    || StoredTotal(c, s, items, |items|) >= TWO_64
  }

  lemma Overflows(c: Codec, s: Settings, items: seq<Item>, i: nat)
    requires i < |items|
    ensures |items[i].data| >= TWO_64 || StoredTotal(c, s, items, i) + |StoredForm(c, s, items[i])| >= TWO_64 ==>
              TooMuch(c, s, items)
  {
    StoredTotalGrows(c, s, items, i + 1, |items|);
  }

  lemma AsAsked(c: Codec, s: Settings, items: seq<Item>, es: seq<Entry>, data: Bytes)
    requires |es| == |items| && Written(c, s, es, items, data) && Writable(c, s, items, |items|)
    ensures (s.maxFiles == 0 ==> |items| <= 200_000) && (s.maxFiles > 0 ==> |items| <= s.maxFiles)
    ensures forall i :: 0 <= i < |items| ==>
              es[i].compression == if s.compress && !s.skip(items[i].path) then Zstd else Uncompressed
  {
  }

  /** writeData over the walk's files: entries are appended in walk order, each at the
      offset reached so far. */
  method WriteData(c: Codec, s: Settings, items: seq<Item>) returns (r: Result<Archived>)
    ensures r.Ok? <==> Writable(c, s, items, |items|)
    ensures r.Ok? ==> |r.value.entries| == |items| && Written(c, s, r.value.entries, items, r.value.data)
    ensures r.Ok? ==> (s.maxFiles == 0 ==> |items| <= 200_000) && (s.maxFiles > 0 ==> |items| <= s.maxFiles)
    ensures r.Ok? ==> forall i :: 0 <= i < |items| ==>
              r.value.entries[i].compression == if s.compress && !s.skip(items[i].path) then Zstd else Uncompressed
    ensures r == Err(TooManyFiles) ==>
              (s.maxFiles == 0 && |items| > 200_000) || (s.maxFiles > 0 && |items| > s.maxFiles)
    ensures r.Err? && r.error != TooManyFiles ==> r.error == SizeOverflow && TooMuch(c, s, items)
  {
    var entries: seq<Entry> := [];
    var data: Bytes := [];
    var limit := FileLimit(s);
    while |entries| < |items|
      invariant |entries| <= |items|
      invariant Writable(c, s, items, |entries|)
      invariant Written(c, s, entries, items, data)
      decreases |items| - |entries|
    {
      var it := items[|entries|];
      WritableNext(c, s, items, |entries|);
      if limit > 0 && |entries| >= limit { return Err(TooManyFiles); }
      var stored := StoredForm(c, s, it);
      Overflows(c, s, items, |entries|);
      if |it.data| >= TWO_64 || |stored| >= TWO_64 { return Err(SizeOverflow); }
      if |stored| > TWO_64 - 1 - |data| { return Err(SizeOverflow); }
      var e := Entry(it.path, |data|, |stored|, |it.data|, c.hash(it.data), CompressionOf(s, it.path));
      WrittenNext(c, s, entries, items, data, e);
      data := data + stored;
      entries := entries + [e];
    }
    AsAsked(c, s, items, entries, data);
    r := Ok(Archived(entries, data));
  }

  // ----- reading back -----

  /** fs.ValidPath. */
  predicate ValidPath(s: Settings, p: Bytes) {
    s.utf8(p) && (p == [46] || ValidElements(p))
  }

  /** Blob.ReadFile without a cache. */
  method ReadFile(c: Codec, s: Settings, a: Archived, maxFileSize: U64, p: Bytes) returns (r: Result<Bytes>)
    requires |a.data| <= MAX_INT64
    ensures r == ReadPath(c, s, a, maxFileSize, p)
    ensures r == Err(InvalidPath) <==> !s.utf8(p) || (p != [46] && !ProperComponents(p))
  {
    ValidElementsIff(p);
    if !ValidPath(s, p) { return Err(InvalidPath); }
    var e := Index.LookupByKey(a.entries, p);
    if e.None? { return Err(NotExist); }
    r := ReadAll(c, e.value, a.data, maxFileSize);
  }

  function ReadPath(c: Codec, s: Settings, a: Archived, maxFileSize: U64, p: Bytes): Result<Bytes> {
    if !ValidPath(s, p) then Err(InvalidPath)
    else
      var e := Index.Lookup(a.entries, p);
      if e.None? then Err(NotExist) else ReadEntry(c, e.value, a.data, maxFileSize)
  }

  ghost predicate WithinLimits(c: Codec, s: Settings, it: Item, maxFileSize: U64) {
    && |it.data| <= MAX_INT64
    && (maxFileSize > 0 ==> |it.data| <= maxFileSize && |StoredForm(c, s, it)| <= maxFileSize)
  }

  lemma DescribedReadsBack(c: Codec, s: Settings, e: Entry, it: Item, data: Bytes, maxFileSize: U64)
    requires GoodCodec(c) && Describes(c, s, e, it, data) && WithinLimits(c, s, it, maxFileSize) && |data| <= MAX_INT64
    ensures ReadEntry(c, e, data, maxFileSize) == Ok(it.data)
  {
    assert |Stored(e, data)| == e.dataSize;
  }

  /** An archive as creation leaves it. */
  ghost predicate ArchiveOf(c: Codec, s: Settings, a: Archived, cs: seq<Child>) {
    |a.entries| == |WalkDir([], cs)| && Written(c, s, a.entries, WalkDir([], cs), a.data)
  }

  lemma ArchiveSortedIff(c: Codec, s: Settings, a: Archived, cs: seq<Child>)
    requires WellFormed(cs) && ArchiveOf(c, s, a, cs)
    ensures Index.SortedByPath(a.entries) <==> NoOvertaking(cs)
  {
    WalkSortedIff([], cs);
    var items := WalkDir([], cs);
    assert Index.Paths(a.entries) == Paths(items);
  }

  /** Archived files are found at their path in the tree, and only there. */
  lemma EntriesMatchTree(c: Codec, s: Settings, a: Archived, cs: seq<Child>, p: Bytes)
    requires WellFormed(cs) && ArchiveOf(c, s, a, cs)
    ensures forall k :: 0 <= k < |a.entries| && a.entries[k].path == p ==>
              FileAt(cs, p) == Some(WalkDir([], cs)[k].data)
    ensures FileAt(cs, p).Some? ==> exists k :: 0 <= k < |a.entries| && a.entries[k].path == p
  {
    var items := WalkDir([], cs);
    assert [] + p == p;
    forall k | 0 <= k < |a.entries| && a.entries[k].path == p ensures FileAt(cs, p) == Some(items[k].data) {
      assert items[k] == Item(p, items[k].data) && items[k] in items;
      WalkIffFileAt([], cs, p, items[k].data);
    }
    if FileAt(cs, p).Some? {
      var d := FileAt(cs, p).value;
      WalkIffFileAt([], cs, p, d);
      var k :| 0 <= k < |items| && items[k] == Item(p, d);
      assert a.entries[k].path == p;
    }
  }

  lemma {:induction false} TreePathsValid(cs: seq<Child>, p: Bytes)
    requires WellFormed(cs) && FileAt(cs, p).Some?
    ensures ValidElements(p)
    decreases |p|
  {
    var k := FirstSlash(p);
    var c := ChildNamed(cs, p[..k]).value;
    if c.node.Dir? { TreePathsValid(c.node.children, p[k + 1..]); }
  }

  /** Round trip. From an archive of a tree without overtaking, reading path p yields
      exactly the bytes of the tree's file at p, and not-found for every other path. */
  lemma RoundTrip(c: Codec, s: Settings, a: Archived, cs: seq<Child>, maxFileSize: U64, p: Bytes)
    requires WellFormed(cs) && NoOvertaking(cs) && ArchiveOf(c, s, a, cs) && GoodCodec(c)
    requires |a.data| <= MAX_INT64
    requires forall it :: it in WalkDir([], cs) ==> WithinLimits(c, s, it, maxFileSize)
    ensures s.utf8(p) && FileAt(cs, p).Some? ==> ReadPath(c, s, a, maxFileSize, p) == Ok(FileAt(cs, p).value)
    ensures FileAt(cs, p).None? ==>
              ReadPath(c, s, a, maxFileSize, p) == Err(if ValidPath(s, p) then NotExist else InvalidPath)
  {
    ArchiveSortedIff(c, s, a, cs);
    Index.LookupFinds(a.entries, p);
    EntriesMatchTree(c, s, a, cs, p);
    var items := WalkDir([], cs);
    if FileAt(cs, p).Some? {
      TreePathsValid(cs, p);
      var k :| 0 <= k < |a.entries| && a.entries[k].path == p;
      assert a.entries[k] in a.entries;
      assert items[k] in items;
      DescribedReadsBack(c, s, a.entries[k], items[k], a.data, maxFileSize);
    } else {
      assert forall e :: e in a.entries ==> e.path != p;
    }
  }

  lemma SortedArchiveFinds(c: Codec, s: Settings, a: Archived, cs: seq<Child>, p: Bytes)
    requires WellFormed(cs) && ArchiveOf(c, s, a, cs) && Index.SortedByPath(a.entries) && FileAt(cs, p).Some?
    ensures Index.Lookup(a.entries, p).Some?
  {
    EntriesMatchTree(c, s, a, cs, p);
    var k :| 0 <= k < |a.entries| && a.entries[k].path == p;
    assert a.entries[k] in a.entries;
    Index.LookupFinds(a.entries, p);
  }

  /** Paths are distinct, so what lookup finds under an entry's path is that entry. */
  lemma LookupFindsItself(c: Codec, s: Settings, a: Archived, cs: seq<Child>, k: nat)
    requires WellFormed(cs) && ArchiveOf(c, s, a, cs) && k < |a.entries|
    requires Index.Lookup(a.entries, a.entries[k].path).Some?
    ensures Index.FoundAt(a.entries, k, 0, |a.entries|)
  {
    WalkDistinct([], cs);
    var items := WalkDir([], cs);
    var found := Index.Search(a.entries, a.entries[k].path, 0, |a.entries|).value;
    assert items[found].path == items[k].path;
    assert found == k;
  }

  /** Every archived file can be looked up exactly when no directory holding archived
      files is overtaken by a sibling: otherwise lookup misses a file that is there. */
  lemma AllReadableIff(c: Codec, s: Settings, a: Archived, cs: seq<Child>)
    requires WellFormed(cs) && ArchiveOf(c, s, a, cs)
    ensures (forall p :: FileAt(cs, p).Some? ==> Index.Lookup(a.entries, p).Some?) <==> NoOvertaking(cs)
  {
    ArchiveSortedIff(c, s, a, cs);
    Index.AllFoundIffSorted(a.entries);
    if NoOvertaking(cs) {
      forall p | FileAt(cs, p).Some? ensures Index.Lookup(a.entries, p).Some? {
        SortedArchiveFinds(c, s, a, cs, p);
      }
    } else if forall p :: FileAt(cs, p).Some? ==> Index.Lookup(a.entries, p).Some? {
      forall k | 0 <= k < |a.entries| ensures Index.FoundAt(a.entries, k, 0, |a.entries|) {
        EntriesMatchTree(c, s, a, cs, a.entries[k].path);
        LookupFindsItself(c, s, a, cs, k);
      }
    }
  }

  /** Create followed by ReadFile, end to end. */
  method CreateThenRead(c: Codec, s: Settings, cs: seq<Child>, maxFileSize: U64, p: Bytes)
    returns (made: Result<Archived>, r: Result<Bytes>)
    requires WellFormed(cs) && NoOvertaking(cs) && GoodCodec(c)
    requires forall it :: it in WalkDir([], cs) ==> WithinLimits(c, s, it, maxFileSize)
    ensures made.Ok? <==> Writable(c, s, WalkDir([], cs), |WalkDir([], cs)|)
    ensures made.Ok? && |made.value.data| <= MAX_INT64 && ValidPath(s, p) ==>
              match FileAt(cs, p) case Some(d) => r == Ok(d) case None => r == Err(NotExist)
  {
    var items := WalkDir([], cs);
    made := WriteData(c, s, items);
    r := Err(NotExist);
    if made.Ok? && |made.value.data| <= MAX_INT64 {
      r := ReadFile(c, s, made.value, maxFileSize, p);
      RoundTrip(c, s, made.value, cs, maxFileSize, p);
    }
  }

  // ----- the smallest tree that overtakes -----

  /** A directory "a" holding a file "b", beside a file "a.". */
  function SmallTree(x: Bytes, y: Bytes): seq<Child> {
    [Child([97], Dir([Child([98], File(x))])), Child([97, 46], File(y))]
  }

  lemma SmallTreeWalk(x: Bytes, y: Bytes)
    ensures WalkDir([], SmallTree(x, y)) == [Item([97, 47, 98], x), Item([97, 46], y)]
  {
    var b, dir, dot := Child([98], File(x)), SmallTree(x, y)[0], SmallTree(x, y)[1];
    assert [] + [97] + [SLASH] == [97, 47] && [97, 47] + [98] == [97, 47, 98] && [] + [97, 46] == [97, 46];
    WalkOne([97, 47], b);
    WalkOne([], dot);
    assert SmallTree(x, y)[1..] == [dot];
  }

  lemma WalkOne(prefix: Bytes, c: Child)
    ensures WalkDir(prefix, [c]) == Visit(prefix, c)
  {
    assert [c][1..] == [];
  }

  /** Creation puts "a/b" before "a.", and looking up "a/b" misses it. */
  lemma OvertakenFileIsMissed(c: Codec, s: Settings, a: Archived, x: Bytes, y: Bytes)
    requires ArchiveOf(c, s, a, SmallTree(x, y))
    ensures WellFormed(SmallTree(x, y)) && FileAt(SmallTree(x, y), [97, 47, 98]) == Some(x)
    ensures Index.Lookup(a.entries, [97, 47, 98]) == None
  {
    SmallTreeWalk(x, y);
    SmallTreeHolds(x, y);
    SearchMisses(a.entries);
  }

  lemma SmallTreeHolds(x: Bytes, y: Bytes)
    ensures WellFormed(SmallTree(x, y)) && FileAt(SmallTree(x, y), [97, 47, 98]) == Some(x)
  {
    var cs := SmallTree(x, y);
    assert WellFormed(cs[0].node.children);
    SmallTreeWalk(x, y);
    assert [] + [97, 47, 98] == [97, 47, 98];
    assert Item([97, 47, 98], x) in WalkDir([], cs);
    WalkIffFileAt([], cs, [97, 47, 98], x);
  }

  lemma SearchMisses(es: seq<Entry>)
    requires |es| == 2 && es[0].path == [97, 47, 98] && es[1].path == [97, 46]
    ensures Index.Lookup(es, [97, 47, 98]) == None
  {
    var key := [97, 47, 98];
    assert Less(es[1].path, key);
    LessAsymmetric(es[1].path, key);
    assert Index.Search(es, key, 2, 0) == None;
  }
}
