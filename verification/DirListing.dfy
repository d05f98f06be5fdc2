/**
  Directories are synthesized from file paths. The iterator scans the entries under a
  prefix, cuts each path at its next slash and drops repetitions of the last name.
 */
module DirListing {
  import opened Wrappers
  import opened Bytes
  import opened Archive
  import opened Index
  import Walk

  datatype DirEnt = DirEnt(name: Bytes, isDir: bool)

  function Rel(path: Bytes, prefix: Bytes): Bytes {
    if prefix <= path then path[|prefix|..] else path
  }

  /** The child of the prefix that a path belongs to, and whether it is a directory. */
  function ChildOf(path: Bytes, prefix: Bytes): DirEnt {
    var rel := Rel(path, prefix);
    var k := Walk.FirstSlash(rel);
    DirEnt(rel[..k], k < |rel|)
  }

  /** What the iterator yields for the entries left, after having yielded name `last`. */
  function Listing(es: seq<Entry>, prefix: Bytes, last: Bytes): seq<DirEnt> {
    if es == [] then []
    else
      var c := ChildOf(es[0].path, prefix);
      if c.name == last then Listing(es[1..], prefix, last)
      else [c] + Listing(es[1..], prefix, c.name)
  }

  function Prefix(dir: Bytes): Bytes {
    if dir == [46] then [] else dir + [SLASH]
  }

  /** What ReadDir of a directory returns, on any index. */
  function ReadDirOf(es: seq<Entry>, dir: Bytes): seq<DirEnt> {
    Listing(Scan(es, Prefix(dir)), Prefix(dir), [])
  }

  /** An open directory: the iterator over the entries not yet consumed. */
  class OpenDir {
    const prefix: Bytes
    var rest: seq<Entry>
    var lastName: Bytes
    var done: bool

    ghost var pending: seq<DirEnt>  // what is still to be yielded

    ghost predicate Valid()
      reads this
    {
      pending == if done then [] else Listing(rest, prefix, lastName)
    }

    constructor (es: seq<Entry>, dir: Bytes)
      ensures Valid() && prefix == Prefix(dir)
      ensures pending == ReadDirOf(es, dir)
      ensures SortedByPath(es) ==> pending == Listing(WithPrefix(es, Prefix(dir)), Prefix(dir), [])
    {
      var scan := EntriesWithPrefix(es, Prefix(dir));
      prefix, rest, lastName, done := Prefix(dir), scan, [], false;
      pending := Listing(scan, Prefix(dir), []);
    }

    /** dirIter.Next. */
    method Next() returns (d: Option<DirEnt>)
      requires Valid()
      modifies this
      ensures Valid()
      ensures old(pending) == [] ==> d.None? && pending == []
      ensures old(pending) != [] ==> d == Some(old(pending)[0]) && pending == old(pending)[1..]
    {
      if done { return None; }
      while rest != []
        invariant !done && Listing(rest, prefix, lastName) == pending == old(pending)
        decreases |rest|
      {
        var c := ChildOf(rest[0].path, prefix);
        rest := rest[1..];
        if c.name != lastName {
          lastName := c.name;
          pending := pending[1..];
          return Some(c);
        }
      }
      done := true;
      return None;
    }

    /** openDir.ReadDir: the next n entries, or all of them when n <= 0; `None` is io.EOF. */
    method ReadDir(n: int) returns (r: Option<seq<DirEnt>>)
      requires Valid()
      modifies this
      ensures Valid()
      ensures n <= 0 ==> r == Some(old(pending)) && pending == []
      ensures n > 0 && old(pending) == [] ==> r.None? && pending == []
      ensures n > 0 && old(pending) != [] ==>
                && r.Some? && |r.value| == (if n <= |old(pending)| then n else |old(pending)|)
                && r.value == old(pending)[..|r.value|] && pending == old(pending)[|r.value|..]
    {
      ghost var whole := pending;
      var out: seq<DirEnt> := [];
      while n <= 0 || |out| < n
        invariant Valid() && |out| <= |whole| && out == whole[..|out|] && pending == whole[|out|..]
        invariant n > 0 ==> |out| <= n
        decreases |pending|
      {
        TakeNext(whole, |out|);
        var d := Next();
        if d.None? { return if n > 0 && out == [] then None else Some(out); }
        out := out + [d.value];
      }
      return Some(out);
    }
  }

  lemma TakeNext(whole: seq<DirEnt>, k: nat)
    requires k <= |whole|
    ensures k == |whole| ==> whole[..k] == whole && whole[k..] == []
    ensures k < |whole| ==>
              && whole[k..] != [] && whole[k..][0] == whole[k] && whole[k..][1..] == whole[k + 1..]
              && whole[..k] + [whole[k]] == whole[..k + 1]
  {
  }

  method DrainChunks(d: OpenDir) returns (all: seq<DirEnt>)
    requires d.Valid()
    modifies d
    ensures all == old(d.pending)
  {
    ghost var whole := d.pending;
    all := [];
    while true
      invariant d.Valid() && |all| <= |whole| && all == whole[..|all|] && d.pending == whole[|all|..]
      decreases |d.pending|
    {
      var n :| n > 0;
      var chunk := d.ReadDir(n);
      if chunk.None? { return; }
      all := all + chunk.value;
    }
  }

  /** Reading a directory in chunks of any sizes until EOF yields what reading it at once
      yields, whatever the index; over a sorted index that is the whole listing. */
  method ReadInChunks(es: seq<Entry>, dir: Bytes) returns (all: seq<DirEnt>, atOnce: seq<DirEnt>)
    ensures all == atOnce == ReadDirOf(es, dir)
    ensures SortedByPath(es) && dir == [46] ==> all == Listing(WithPrefix(es, []), [], [])
    ensures SortedByPath(es) && dir != [46] ==>
              all == Listing(WithPrefix(es, dir + [SLASH]), dir + [SLASH], [])
  {
    var d := new OpenDir(es, dir);
    all := DrainChunks(d);
    var d' := new OpenDir(es, dir);
    var r := d'.ReadDir(0);
    atOnce := r.value;
  }

  // ----- what the listing is -----

  /** The name with a slash appended for a directory. */
  function SortKey(d: DirEnt): Bytes {
    if d.isDir then d.name + [SLASH] else d.name
  }

  /** A relative path up to and including its first slash. */
  function Cut(rel: Bytes): Bytes {
    if rel == [] then []
    else if rel[0] == SLASH then [SLASH]
    else [rel[0]] + Cut(rel[1..])
  }

  lemma {:induction false} CutIsKey(rel: Bytes)
    ensures var k := Walk.FirstSlash(rel); Cut(rel) == SortKey(DirEnt(rel[..k], k < |rel|))
  {
    if rel != [] && rel[0] != SLASH {
      CutIsKey(rel[1..]);
      var k := Walk.FirstSlash(rel[1..]);
      assert rel[..k + 1] == [rel[0]] + rel[1..][..k];
    }
  }

  lemma {:induction false} CutMonotone(a: Bytes, b: Bytes)
    requires Less(a, b)
    ensures LessEq(Cut(a), Cut(b))
  {
    if a != [] && a[0] == b[0] && a[0] != SLASH {
      CutMonotone(a[1..], b[1..]);
      assert Cut(a)[1..] == Cut(a[1..]) && Cut(b)[1..] == Cut(b[1..]);
    }
  }

  /** No archived file's path is also a directory of another. */
  ghost predicate NoFileIsDir(es: seq<Entry>) {
    forall i, j :: 0 <= i < |es| && 0 <= j < |es| ==> !(es[i].path + [SLASH] <= es[j].path)
  }

  /** The entries under a directory prefix, with proper child names. */
  ghost predicate Listable(es: seq<Entry>, prefix: Bytes) {
    && SortedByPath(es) && NoFileIsDir(es)
    && forall i :: 0 <= i < |es| ==> prefix <= es[i].path && ChildOf(es[i].path, prefix).name != []
  }

  lemma KeyOrder(es: seq<Entry>, prefix: Bytes, i: nat, j: nat)
    requires Listable(es, prefix) && i < j < |es|
    ensures var x, y := ChildOf(es[i].path, prefix), ChildOf(es[j].path, prefix);
            LessEq(SortKey(x), SortKey(y)) && (x.name == y.name ==> x == y) && (SortKey(x) == SortKey(y) ==> x == y)
  {
    var p, q := es[i].path, es[j].path;
    assert Less(Paths(es)[i], Paths(es)[j]);
    var a, b := Rel(p, prefix), Rel(q, prefix);
    assert p == prefix + a && q == prefix + b;
    LessSamePrefix(prefix, a, b);
    CutMonotone(a, b);
    CutIsKey(a);
    CutIsKey(b);
    SameNameSameKind(p, q, prefix);
    SameNameSameKind(q, p, prefix);
    SameKeySameEnt(ChildOf(p, prefix), ChildOf(q, prefix));
  }

  /** If one path is the file `name` and the other is below the directory `name`, the
      former is also a directory. */
  lemma SameNameSameKind(p: Bytes, q: Bytes, prefix: Bytes)
    requires prefix <= p && prefix <= q
    ensures var x, y := ChildOf(p, prefix), ChildOf(q, prefix);
            x.name == y.name && !x.isDir && y.isDir ==> p + [SLASH] <= q
  {
    var a, b := Rel(p, prefix), Rel(q, prefix);
    assert p == prefix + a && q == prefix + b;
    var k := Walk.FirstSlash(b);
    if ChildOf(p, prefix).name == ChildOf(q, prefix).name && !ChildOf(p, prefix).isDir && k < |b| {
      assert a == a[..|a|] == b[..k];
      assert b == b[..k] + [SLASH] + b[k + 1..];
      assert q == p + [SLASH] + b[k + 1..];
    }
  }

  lemma SameKeySameEnt(x: DirEnt, y: DirEnt)
    requires SLASH !in x.name && SLASH !in y.name
    ensures SortKey(x) == SortKey(y) ==> x == y
  {
    assert x.isDir ==> SortKey(x)[|x.name|] == SLASH && x.name == SortKey(x)[..|x.name|];
    assert y.isDir ==> SortKey(y)[|y.name|] == SLASH && y.name == SortKey(y)[..|y.name|];
    assert x.isDir && y.isDir && SortKey(x) == SortKey(y) ==> |x.name| == |y.name|;
  }

  // ----- the listing holds every child once, in key order -----

  lemma RestListable(es: seq<Entry>, prefix: Bytes)
    requires es != [] && Listable(es, prefix)
    ensures Listable(es[1..], prefix)
  {
    var r := es[1..];
    forall i, j | 0 <= i < j < |r| ensures Less(Paths(r)[i], Paths(r)[j]) {
      assert Less(Paths(es)[i + 1], Paths(es)[j + 1]);
    }
    forall i, j | 0 <= i < |r| && 0 <= j < |r| ensures !(r[i].path + [SLASH] <= r[j].path) {
      assert !(es[i + 1].path + [SLASH] <= es[j + 1].path);
    }
    forall i | 0 <= i < |r| ensures prefix <= r[i].path && ChildOf(r[i].path, prefix).name != [] {
      assert r[i] == es[i + 1];
    }
  }

  ghost predicate SomeChild(es: seq<Entry>, prefix: Bytes, d: DirEnt) {
    exists i :: 0 <= i < |es| && ChildOf(es[i].path, prefix) == d
  }

  /** If a name is among the children, it is the first child's. */
  ghost predicate OnlyFirst(es: seq<Entry>, prefix: Bytes, name: Bytes) {
    forall i :: 0 <= i < |es| && ChildOf(es[i].path, prefix).name == name ==> ChildOf(es[0].path, prefix).name == name
  }

  lemma SomeChildCons(es: seq<Entry>, prefix: Bytes, d: DirEnt)
    requires es != []
    ensures SomeChild(es, prefix, d) <==> ChildOf(es[0].path, prefix) == d || SomeChild(es[1..], prefix, d)
  {
    if SomeChild(es, prefix, d) {
      var i :| 0 <= i < |es| && ChildOf(es[i].path, prefix) == d;
      if i > 0 { assert es[i] == es[1..][i - 1]; }
    }
    if SomeChild(es[1..], prefix, d) {
      var i :| 0 <= i < |es[1..]| && ChildOf(es[1..][i].path, prefix) == d;
      assert es[i + 1] == es[1..][i];
    }
  }

  lemma OnlyFirstOfRest(es: seq<Entry>, prefix: Bytes)
    requires es != [] && Listable(es, prefix)
    ensures OnlyFirst(es[1..], prefix, ChildOf(es[0].path, prefix).name)
  {
    var name := ChildOf(es[0].path, prefix).name;
    forall i | 1 <= i < |es| && ChildOf(es[i].path, prefix).name == name
      ensures ChildOf(es[1].path, prefix).name == name
    {
      SandwichedName(es, prefix, 1, i);
    }
    OnlyFirstShift(es, prefix, name);
  }

  lemma OnlyFirstShift(es: seq<Entry>, prefix: Bytes, name: Bytes)
    requires es != []
    requires forall i :: 1 <= i < |es| && ChildOf(es[i].path, prefix).name == name ==>
               ChildOf(es[1].path, prefix).name == name
    ensures OnlyFirst(es[1..], prefix, name)
  {
    var r := es[1..];
    assert forall i :: 0 <= i < |r| ==> r[i] == es[i + 1];
  }

  /** The listing holds exactly the children of the entries, except the name yielded last. */
  lemma {:induction false} ListingChildren(es: seq<Entry>, prefix: Bytes, last: Bytes, d: DirEnt)
    requires Listable(es, prefix) && OnlyFirst(es, prefix, last)
    ensures d in Listing(es, prefix, last) <==> d.name != last && SomeChild(es, prefix, d)
  {
    if es != [] {
      var x, r := ChildOf(es[0].path, prefix), es[1..];
      RestListable(es, prefix);
      OnlyFirstOfRest(es, prefix);
      SomeChildCons(es, prefix, d);
      ListingChildren(r, prefix, x.name, d);
      if SomeChild(es, prefix, d) { SameNameOfFirst(es, prefix, d); }
    }
  }

  /** A child with the first child's name is the first child. */
  lemma SameNameOfFirst(es: seq<Entry>, prefix: Bytes, d: DirEnt)
    requires es != [] && Listable(es, prefix) && SomeChild(es, prefix, d)
    ensures d.name == ChildOf(es[0].path, prefix).name ==> d == ChildOf(es[0].path, prefix)
  {
    var i :| 0 <= i < |es| && ChildOf(es[i].path, prefix) == d;
    if i > 0 { KeyOrder(es, prefix, 0, i); }
  }

  /** Entries with the same child name lie together. */
  lemma SandwichedName(es: seq<Entry>, prefix: Bytes, m: nat, j: nat)
    requires Listable(es, prefix) && 0 < m <= j < |es|
    requires ChildOf(es[0].path, prefix).name == ChildOf(es[j].path, prefix).name
    ensures ChildOf(es[m].path, prefix).name == ChildOf(es[0].path, prefix).name
  {
    KeyOrder(es, prefix, 0, m);
    KeyOrder(es, prefix, 0, j);
    if m < j {
      KeyOrder(es, prefix, m, j);
      var a, b := SortKey(ChildOf(es[0].path, prefix)), SortKey(ChildOf(es[m].path, prefix));
      if a != b { LessAsymmetric(a, b); }
    }
  }

  ghost predicate KeySorted(ds: seq<DirEnt>) {
    forall i, j :: 0 <= i < j < |ds| ==> Less(SortKey(ds[i]), SortKey(ds[j]))
  }

  ghost predicate NameSorted(ds: seq<DirEnt>) {
    forall i, j :: 0 <= i < j < |ds| ==> Less(ds[i].name, ds[j].name)
  }

  /** The listing is strictly sorted by key: every child is yielded once. */
  lemma {:induction false} ListingKeySorted(es: seq<Entry>, prefix: Bytes, last: Bytes)
    requires Listable(es, prefix) && OnlyFirst(es, prefix, last)
    ensures KeySorted(Listing(es, prefix, last))
  {
    if es != [] {
      var x, r := ChildOf(es[0].path, prefix), es[1..];
      RestListable(es, prefix);
      OnlyFirstOfRest(es, prefix);
      if x.name == last {
        ListingKeySorted(r, prefix, last);
      } else {
        ListingKeySorted(r, prefix, x.name);
        var tail := Listing(r, prefix, x.name);
        forall d | d in tail ensures Less(SortKey(x), SortKey(d)) { LaterKey(es, prefix, d); }
      }
    }
  }

  lemma LaterKey(es: seq<Entry>, prefix: Bytes, d: DirEnt)
    requires es != [] && Listable(es, prefix)
    requires d in Listing(es[1..], prefix, ChildOf(es[0].path, prefix).name)
    ensures Less(SortKey(ChildOf(es[0].path, prefix)), SortKey(d))
  {
    var x := ChildOf(es[0].path, prefix);
    RestListable(es, prefix);
    OnlyFirstOfRest(es, prefix);
    ListingChildren(es[1..], prefix, x.name, d);
    var i :| 0 <= i < |es[1..]| && ChildOf(es[1..][i].path, prefix) == d;
    KeyOrder(es, prefix, 0, i + 1);
  }

  /** For a byte-sorted index in which no file is also a directory, the directory iterator
      yields every immediate child exactly once, with the right kind, in the order of the
      names with a slash appended to directories. */
  lemma ListingIsChildren(es: seq<Entry>, prefix: Bytes, d: DirEnt)
    requires Listable(es, prefix)
    ensures d in Listing(es, prefix, []) <==> SomeChild(es, prefix, d)
    ensures KeySorted(Listing(es, prefix, []))
    ensures forall i, j :: 0 <= i < j < |Listing(es, prefix, [])| ==>
              Listing(es, prefix, [])[i].name != Listing(es, prefix, [])[j].name
  {
    assert OnlyFirst(es, prefix, []);
    ListingChildren(es, prefix, [], d);
    ListingKeySorted(es, prefix, []);
    var ds := Listing(es, prefix, []);
    forall i, j | 0 <= i < j < |ds| ensures ds[i].name != ds[j].name { NamesOnce(es, prefix, i, j); }
  }

  lemma NamesOnce(es: seq<Entry>, prefix: Bytes, i: nat, j: nat)
    requires Listable(es, prefix) && i < j < |Listing(es, prefix, [])|
    ensures Listing(es, prefix, [])[i].name != Listing(es, prefix, [])[j].name
  {
    var ds := Listing(es, prefix, []);
    ListingKeySorted(es, prefix, []);
    ListingChildren(es, prefix, [], ds[i]);
    ListingChildren(es, prefix, [], ds[j]);
    LessIrreflexive(SortKey(ds[i]));
    var m :| 0 <= m < |es| && ChildOf(es[m].path, prefix) == ds[i];
    var n :| 0 <= n < |es| && ChildOf(es[n].path, prefix) == ds[j];
    if m < n { KeyOrder(es, prefix, m, n); } else if n < m { KeyOrder(es, prefix, n, m); }
  }

  /** Directory y is listed after sibling x although y's name is below x's. */
  predicate OutOfOrder(x: DirEnt, y: DirEnt) {
    y.isDir && y.name < x.name && x.name[|y.name|] < SLASH
  }

  lemma KeyVersusName(x: DirEnt, y: DirEnt)
    requires SLASH !in x.name && SLASH !in y.name && x.name != y.name && Less(SortKey(x), SortKey(y))
    ensures Less(x.name, y.name) <==> !OutOfOrder(x, y)
    ensures !OutOfOrder(y, x)
  {
    LessTotal(x.name, y.name);
    if x.name <= y.name {
      ShorterFirst(x, y);
    } else if y.name <= x.name {
      LongerFirst(x, y);
    } else if Less(y.name, x.name) {
      LessExtend(y.name, x.name, SortKey(y)[|y.name|..], SortKey(x)[|x.name|..]);
      assert y.name + SortKey(y)[|y.name|..] == SortKey(y) && x.name + SortKey(x)[|x.name|..] == SortKey(x);
      LessAsymmetric(SortKey(x), SortKey(y));
    }
  }

  /** A name listed before its extension. */
  lemma ShorterFirst(x: DirEnt, y: DirEnt)
    requires SLASH !in y.name && x.name < y.name && Less(SortKey(x), SortKey(y))
    ensures Less(x.name, y.name) && !OutOfOrder(x, y) && !OutOfOrder(y, x)
  {
    PrefixLess(x.name, y.name);
    if x.isDir {
      var v := y.name[|x.name|..];
      assert v[0] in y.name;
      var rest := v + if y.isDir then [SLASH] else [];
      assert SortKey(y) == x.name + rest;
      LessSamePrefix(x.name, [SLASH], rest);
    }
  }

  /** A name listed after its extension: a directory, overtaken. */
  lemma LongerFirst(x: DirEnt, y: DirEnt)
    requires SLASH !in x.name && y.name < x.name && Less(SortKey(x), SortKey(y))
    ensures !Less(x.name, y.name) && OutOfOrder(x, y) && !OutOfOrder(y, x)
  {
    PrefixLess(y.name, x.name);
    LessAsymmetric(y.name, x.name);
    var u := x.name[|y.name|..];
    assert u[0] in x.name;
    var rest := u + if x.isDir then [SLASH] else [];
    assert SortKey(x) == y.name + rest;
    assert y.name + [] == y.name;
    LessSamePrefix(y.name, rest, if y.isDir then [SLASH] else []);
  }

  /** A key-sorted listing is sorted by name exactly when no directory has a sibling whose
      name is its own followed by a byte below the slash. */
  lemma NameSortedIff(ds: seq<DirEnt>)
    requires KeySorted(ds)
    requires forall i :: 0 <= i < |ds| ==> SLASH !in ds[i].name
    requires forall i, j :: 0 <= i < j < |ds| ==> ds[i].name != ds[j].name
    ensures NameSorted(ds) <==> forall i, j :: 0 <= i < |ds| && 0 <= j < |ds| ==> !OutOfOrder(ds[i], ds[j])
  {
    forall i, j | 0 <= i < j < |ds|
      ensures Less(ds[i].name, ds[j].name) <==> !OutOfOrder(ds[i], ds[j])
      ensures !OutOfOrder(ds[j], ds[i])
    {
      KeyVersusName(ds[i], ds[j]);
    }
  }

  // ----- from an index to a listing -----

  lemma {:induction false} ValidAfterPrefix(prefix: Bytes, p: Bytes)
    requires prefix <= p && Walk.ValidElements(p) && (prefix == [] || prefix[|prefix| - 1] == SLASH)
    ensures Walk.ValidElements(p[|prefix|..])
    decreases |p|
  {
    if prefix == [] {
      assert p[0..] == p;
    } else {
      var k := Walk.FirstSlash(p);
      SlashBefore(p, |prefix| - 1);
      DropBoth(prefix, p, k + 1);
      ValidAfterPrefix(prefix[k + 1..], p[k + 1..]);
    }
  }

  lemma {:induction false} SlashBefore(p: Bytes, n: nat)
    requires n < |p| && p[n] == SLASH
    ensures Walk.FirstSlash(p) <= n
  {
    if n > 0 && p[0] != SLASH { SlashBefore(p[1..], n - 1); }
  }

  lemma DropBoth(prefix: Bytes, p: Bytes, n: nat)
    requires prefix <= p && n <= |prefix|
    ensures prefix[n..] <= p[n..] && p[n..][|prefix[n..]|..] == p[|prefix|..]
    ensures prefix[n..] != [] ==> prefix[n..][|prefix[n..]| - 1] == prefix[|prefix| - 1]
  {
  }

  /** The filter by prefix of a sorted index is a slice of it. */
  lemma WithPrefixSlice(es: seq<Entry>, prefix: Bytes) returns (lo: nat, hi: nat)
    requires SortedByPath(es)
    ensures lo <= hi <= |es| && WithPrefix(es, prefix) == es[lo..hi]
    ensures forall i :: 0 <= i < |es| ==> (prefix <= es[i].path <==> lo <= i < hi)
  {
    lo := 0;
    while lo < |es| && Less(es[lo].path, prefix)
      invariant lo <= |es| && (lo > 0 ==> Less(es[lo - 1].path, prefix))
    {
      lo := lo + 1;
    }
    hi := lo;
    while hi < |es| && prefix <= es[hi].path
      invariant lo <= hi <= |es| && forall k :: lo <= k < hi ==> prefix <= es[k].path
    {
      hi := hi + 1;
    }
    PrefixRun(es, prefix, lo, hi);
    forall i | 0 <= i < |es| && !(lo <= i < hi) ensures !(prefix <= es[i].path) {
      if i < lo { NoneBefore(es, prefix, lo, i); } else { NoneAfter(es, prefix, lo, hi, i); }
    }
  }

  lemma SliceSorted(es: seq<Entry>, lo: nat, hi: nat)
    requires lo <= hi <= |es| && SortedByPath(es)
    ensures SortedByPath(es[lo..hi])
  {
    var r := es[lo..hi];
    forall i, j | 0 <= i < j < |r| ensures Less(Paths(r)[i], Paths(r)[j]) {
      assert Less(Paths(es)[lo + i], Paths(es)[lo + j]);
    }
  }

  lemma SliceListable(es: seq<Entry>, prefix: Bytes, lo: nat, hi: nat)
    requires lo <= hi <= |es| && SortedByPath(es) && NoFileIsDir(es)
    requires forall i :: lo <= i < hi ==> prefix <= es[i].path && ChildOf(es[i].path, prefix).name != []
    ensures Listable(es[lo..hi], prefix)
  {
    var r := es[lo..hi];
    SliceSorted(es, lo, hi);
    forall i, j | 0 <= i < |r| && 0 <= j < |r| ensures !(r[i].path + [SLASH] <= r[j].path) {
      assert !(es[lo + i].path + [SLASH] <= es[lo + j].path);
    }
    forall i | 0 <= i < |r| ensures prefix <= r[i].path && ChildOf(r[i].path, prefix).name != [] {
      assert r[i] == es[lo + i];
    }
  }

  lemma PrefixListable(es: seq<Entry>, dir: Bytes)
    requires SortedByPath(es) && NoFileIsDir(es)
    requires forall i :: 0 <= i < |es| ==> Walk.ValidElements(es[i].path)
    ensures Listable(WithPrefix(es, Prefix(dir)), Prefix(dir))
  {
    var prefix := Prefix(dir);
    var lo, hi := WithPrefixSlice(es, prefix);
    forall i | lo <= i < hi ensures prefix <= es[i].path && ChildOf(es[i].path, prefix).name != [] {
      assert prefix <= es[i].path;
      ValidAfterPrefix(prefix, es[i].path);
    }
    SliceListable(es, prefix, lo, hi);
  }

  /** The listing of a prefix over a sorted index. */
  lemma PrefixListing(es: seq<Entry>, dir: Bytes, d: DirEnt)
    requires SortedByPath(es) && NoFileIsDir(es)
    requires forall i :: 0 <= i < |es| ==> Walk.ValidElements(es[i].path)
    ensures var ds := Listing(WithPrefix(es, Prefix(dir)), Prefix(dir), []);
            && (d in ds <==> HasChild(es, Prefix(dir), d))
            && (forall i, j :: 0 <= i < j < |ds| ==> ds[i].name != ds[j].name)
            && KeySorted(ds)
            && (NameSorted(ds) <==> InNameOrder(es, Prefix(dir)))
  {
    var prefix := Prefix(dir);
    PrefixListable(es, dir);
    var sub := WithPrefix(es, prefix);
    var ds := Listing(sub, prefix, []);
    forall x ensures x in ds <==> HasChild(es, prefix, x) {
      ListingIsChildren(sub, prefix, x);
      SubChildren(es, prefix, x);
    }
    ListingIsChildren(sub, prefix, d);
    forall i | 0 <= i < |ds| ensures SLASH !in ds[i].name {
      assert ds[i] in ds;
      var m :| 0 <= m < |es| && prefix <= es[m].path && ChildOf(es[m].path, prefix) == ds[i];
    }
    NameSortedIff(ds);
    OrderOfChildren(es, prefix, ds);
  }

  /** Right after `above` the path has the child's name: at its end for a file, before a
      slash for a directory. */
  predicate LeadsTo(path: Bytes, above: Bytes, d: DirEnt) {
    SLASH !in d.name && if d.isDir then above + d.name + [SLASH] <= path else path == above + d.name
  }

  ghost predicate SomeLeadsTo(es: seq<Entry>, above: Bytes, d: DirEnt) {
    exists i :: 0 <= i < |es| && LeadsTo(es[i].path, above, d)
  }

  lemma LeadsToChild(path: Bytes, above: Bytes, d: DirEnt)
    requires LeadsTo(path, above, d)
    ensures above <= path && ChildOf(path, above) == d
  {
    var rel := path[|above|..];
    assert rel[..|d.name|] == d.name && (d.isDir ==> rel[|d.name|] == SLASH);
    FirstSlashOf(rel, |d.name|);
  }

  lemma ChildLeads(path: Bytes, above: Bytes)
    requires above <= path
    ensures LeadsTo(path, above, ChildOf(path, above))
  {
    var rel := path[|above|..];
    var k := Walk.FirstSlash(rel);
    assert ChildOf(path, above) == DirEnt(rel[..k], k < |rel|);
    assert path == above + rel;
    NameAfter(above, rel, k);
  }

  lemma NameAfter(above: Bytes, rel: Bytes, k: nat)
    requires k <= |rel| && (k < |rel| ==> rel[k] == SLASH)
    ensures k < |rel| ==> above + rel[..k] + [SLASH] <= above + rel
    ensures k == |rel| ==> above + rel[..k] == above + rel
  {
    assert k == |rel| ==> rel[..k] == rel;
    if k < |rel| {
      assert rel == rel[..k] + [SLASH] + rel[k + 1..];
      assert above + rel == above + rel[..k] + [SLASH] + rel[k + 1..];
    }
  }

  lemma HasChildLeads(es: seq<Entry>, above: Bytes, d: DirEnt)
    ensures HasChild(es, above, d) <==> SomeLeadsTo(es, above, d)
  {
    if i :| 0 <= i < |es| && above <= es[i].path && ChildOf(es[i].path, above) == d { ChildLeads(es[i].path, above); }
    if i :| 0 <= i < |es| && LeadsTo(es[i].path, above, d) { LeadsToChild(es[i].path, above, d); }
  }

  /** ReadDir over a sorted index of valid paths, in which no file is also a directory:
      exactly the immediate children, each once with the right kind. In the root directory
      "." these are the first components of the paths, in another directory the components
      after its path and a slash. They come in key order, and in name order exactly when the
      index has no pair of entries in the directory whose children are out of order. */
  lemma DirectoryListing(es: seq<Entry>, dir: Bytes, d: DirEnt)
    requires SortedByPath(es) && NoFileIsDir(es)
    requires forall i :: 0 <= i < |es| ==> Walk.ValidElements(es[i].path)
    ensures dir == [46] ==> (d in ReadDirOf(es, dir) <==> SomeLeadsTo(es, [], d))
    ensures dir != [46] ==> (d in ReadDirOf(es, dir) <==> SomeLeadsTo(es, dir + [SLASH], d))
    ensures var ds := ReadDirOf(es, dir); forall i, j :: 0 <= i < j < |ds| ==> ds[i].name != ds[j].name
    ensures KeySorted(ReadDirOf(es, dir))
    ensures NameSorted(ReadDirOf(es, dir)) <==> InNameOrder(es, if dir == [46] then [] else dir + [SLASH])
  {
    ScanSorted(es, Prefix(dir));
    PrefixListing(es, dir, d);
    HasChildLeads(es, Prefix(dir), d);
  }

  /** Some entry of the index lies in the directory and has the child. */
  ghost predicate HasChild(es: seq<Entry>, prefix: Bytes, d: DirEnt) {
    exists i :: 0 <= i < |es| && prefix <= es[i].path && ChildOf(es[i].path, prefix) == d
  }

  /** No two entries in the directory have children of which one is a directory and the other
      extends its name by a byte below the slash. Over a sorted index that is what keeps the
      listing in name order. */
  ghost predicate InNameOrder(es: seq<Entry>, prefix: Bytes) {
    forall i, j :: 0 <= i < |es| && 0 <= j < |es| && prefix <= es[i].path && prefix <= es[j].path ==>
      !OutOfOrder(ChildOf(es[i].path, prefix), ChildOf(es[j].path, prefix))
  }

  lemma OrderOfChildren(es: seq<Entry>, prefix: Bytes, ds: seq<DirEnt>)
    requires forall x :: x in ds <==> HasChild(es, prefix, x)
    ensures (forall i, j :: 0 <= i < |ds| && 0 <= j < |ds| ==> !OutOfOrder(ds[i], ds[j])) <==> InNameOrder(es, prefix)
  {
    if InNameOrder(es, prefix) {
      forall i, j | 0 <= i < |ds| && 0 <= j < |ds| ensures !OutOfOrder(ds[i], ds[j]) {
        assert ds[i] in ds && ds[j] in ds;
        var m :| 0 <= m < |es| && prefix <= es[m].path && ChildOf(es[m].path, prefix) == ds[i];
        var n :| 0 <= n < |es| && prefix <= es[n].path && ChildOf(es[n].path, prefix) == ds[j];
      }
    } else {
      var m, n :| 0 <= m < |es| && 0 <= n < |es| && prefix <= es[m].path && prefix <= es[n].path
                  && OutOfOrder(ChildOf(es[m].path, prefix), ChildOf(es[n].path, prefix));
      assert HasChild(es, prefix, ChildOf(es[m].path, prefix)) && HasChild(es, prefix, ChildOf(es[n].path, prefix));
    }
  }

  lemma SubChildren(es: seq<Entry>, prefix: Bytes, d: DirEnt)
    requires SortedByPath(es)
    ensures SomeChild(WithPrefix(es, prefix), prefix, d) <==> HasChild(es, prefix, d)
  {
    var sub := WithPrefix(es, prefix);
    var lo, hi := WithPrefixSlice(es, prefix);
    if SomeChild(sub, prefix, d) {
      var m :| 0 <= m < |sub| && ChildOf(sub[m].path, prefix) == d;
      assert sub[m] == es[lo + m];
      assert prefix <= es[lo + m].path && ChildOf(es[lo + m].path, prefix) == d;
    }
    if i :| 0 <= i < |es| && prefix <= es[i].path && ChildOf(es[i].path, prefix) == d {
      assert sub[i - lo] == es[i];
    }
  }

  /** The smallest sorted index whose listing is not sorted by name: "a." and "a/b". */
  lemma ListedOutOfOrder(e: Entry, f: Entry)
    requires e.path == [97, 46] && f.path == [97, 47, 98]
    ensures SortedByPath([e, f])
    ensures Listing([e, f], [], []) == [DirEnt([97, 46], false), DirEnt([97], true)]
    ensures !NameSorted(Listing([e, f], [], []))
  {
    var es := [e, f];
    assert Less(e.path, f.path);
    FirstSlashOf(e.path, 2);
    FirstSlashOf(f.path, 1);
    assert ChildOf(e.path, []) == DirEnt([97, 46], false);
    assert ChildOf(f.path, []) == DirEnt([97], true);
    assert es[1..] == [f] && [f][1..] == [];
    assert Listing([f], [], [97, 46]) == [DirEnt([97], true)] + Listing([], [], [97]);
    assert Listing(es, [], []) == [DirEnt([97, 46], false)] + Listing([f], [], [97, 46]);
    var ds := Listing(es, [], []);
    assert ds[0].name == [97, 46] && ds[1].name == [97];
    assert !Less([97, 46], [97]);
  }

  lemma {:induction false} FirstSlashOf(p: Bytes, k: nat)
    requires k <= |p| && SLASH !in p[..k] && (k < |p| ==> p[k] == SLASH)
    ensures Walk.FirstSlash(p) == k
  {
    var m := Walk.FirstSlash(p);
    assert forall i :: 0 <= i < k ==> p[i] in p[..k];
    assert forall i :: 0 <= i < m ==> p[i] in p[..m];
  }
}
