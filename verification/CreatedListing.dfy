/**
  Directory listings of archives as creation writes them, in walk order. The walk visits a
  directory's children in name order and keeps each subtree together, so every listing is
  sorted by name, whatever the tree. What an overtaken directory can cost is completeness:
  the scan looks for the first entry by binary search, in an index that is not sorted.
 */
module CreatedListing {
  import opened Wrappers
  import opened Bytes
  import opened Archive
  import opened Walk
  import Readers
  import Create
  import Index
  import opened DirListing
  import opened ArchiveListing

  // ----- the order of the walk -----

  /** The first component, after the walk's own prefix, of what a child contributes. */
  lemma BelowName(q: Bytes, c: Child, p: Bytes)
    requires ValidName(c.name) && Below(q, c, p)
    ensures q <= p && FirstSlash(p[|q|..]) == |c.name| && p[|q|..][..|c.name|] == c.name
  {
    var rel := p[|q|..];
    if c.node.Dir? {
      var stem := q + c.name + [SLASH];
      var rest := p[|stem|..];
      assert p == stem + rest;
      assert rel == c.name + ([SLASH] + rest);
      FirstSlashAt(c.name, [SLASH] + rest);
    } else {
      assert rel == c.name + [];
      FirstSlashAt(c.name, []);
    }
  }

  /** The child of the directory itself that an entry belongs to. */
  lemma NameAtTop(q: Bytes, c: Child, p: Bytes)
    requires ValidName(c.name) && Below(q, c, p)
    ensures q + [] <= p && ChildOf(p, q + []).name == c.name
  {
    BelowName(q, c, p);
    assert q + [] == q;
  }

  /** A deeper prefix starts with the child's name. */
  lemma PrefixStartsWith(q: Bytes, c: Child, p: Bytes, prefix: Bytes)
    requires ValidName(c.name) && Below(q, c, p) && q + prefix <= p && prefix != [] && prefix[|prefix| - 1] == SLASH
    ensures FirstSlash(prefix) == |c.name| < |prefix| && prefix[..|c.name|] == c.name
    ensures q + prefix == q + c.name + [SLASH] + prefix[|c.name| + 1..]
  {
    BelowName(q, c, p);
    SlashBefore(prefix, |prefix| - 1);
    PrefixOfRest(q, prefix, p);
    FirstComponent(prefix, p[|q|..]);
    PathBelow(q, c.name, prefix);
  }

  lemma PrefixOfRest(q: Bytes, prefix: Bytes, p: Bytes)
    requires q + prefix <= p
    ensures prefix <= p[|q|..]
  {
    assert forall i :: 0 <= i < |prefix| ==> prefix[i] == (q + prefix)[|q| + i];
  }

  /** A later item of the walk comes from a later child. */
  lemma {:induction false} FromChild(q: Bytes, cs: seq<Child>, j: nat) returns (m: nat)
    requires j < |WalkDir(q, cs)|
    ensures m < |cs| && Below(q, cs[m], WalkDir(q, cs)[j].path)
    decreases cs
  {
    var v := Visit(q, cs[0]);
    if j < |v| {
      m := 0;
      VisitBelow(q, cs[0], j);
    } else {
      m := FromChild(q, cs[1..], j - |v|);
      m := m + 1;
    }
  }

  ghost predicate InOrder(q: Bytes, cs: seq<Child>, prefix: Bytes, i: nat, j: nat)
    requires i < |WalkDir(q, cs)| && j < |WalkDir(q, cs)|
  {
    var items := WalkDir(q, cs);
    LessEq(ChildOf(items[i].path, q + prefix).name, ChildOf(items[j].path, q + prefix).name)
  }

  ghost predicate BothIn(q: Bytes, cs: seq<Child>, prefix: Bytes, i: nat, j: nat) {
    && i < j < |WalkDir(q, cs)| && (prefix == [] || prefix[|prefix| - 1] == SLASH)
    && q + prefix <= WalkDir(q, cs)[i].path && q + prefix <= WalkDir(q, cs)[j].path
  }

  /** Both items come from the first child. */
  lemma SameChildOrder(q: Bytes, cs: seq<Child>, prefix: Bytes, i: nat, j: nat)
    requires WellFormed(cs) && BothIn(q, cs, prefix, i, j) && j < |Visit(q, cs[0])|
    ensures InOrder(q, cs, prefix, i, j)
    decreases cs, 0
  {
    var c, items := cs[0], WalkDir(q, cs);
    VisitBelow(q, c, i);
    VisitBelow(q, c, j);
    if prefix == [] {
      NameAtTop(q, c, items[i].path);
      NameAtTop(q, c, items[j].path);
    } else {
      PrefixStartsWith(q, c, items[i].path, prefix);
      var below := q + c.name + [SLASH];
      assert WalkDir(below, c.node.children) == Visit(q, c);
      WalkOrder(below, c.node.children, prefix[|c.name| + 1..], i, j);
    }
  }

  /** The second item comes from a later child: there is no deeper prefix that both share. */
  lemma LaterChildOrder(q: Bytes, cs: seq<Child>, prefix: Bytes, i: nat, j: nat)
    requires WellFormed(cs) && BothIn(q, cs, prefix, i, j) && i < |Visit(q, cs[0])| <= j
    ensures InOrder(q, cs, prefix, i, j)
  {
    var items, n := WalkDir(q, cs), |Visit(q, cs[0])|;
    VisitBelow(q, cs[0], i);
    var m := FromChild(q, cs[1..], j - n);
    assert Less(cs[0].name, cs[m + 1].name);
    LessAsymmetric(cs[0].name, cs[m + 1].name);
    if prefix == [] {
      NameAtTop(q, cs[0], items[i].path);
      NameAtTop(q, cs[m + 1], items[j].path);
    } else {
      PrefixStartsWith(q, cs[0], items[i].path, prefix);
      PrefixStartsWith(q, cs[m + 1], items[j].path, prefix);
    }
  }

  /** In any directory, the children that the walk's items belong to come in name order. */
  lemma {:induction false} WalkOrder(q: Bytes, cs: seq<Child>, prefix: Bytes, i: nat, j: nat)
    requires WellFormed(cs) && BothIn(q, cs, prefix, i, j)
    ensures InOrder(q, cs, prefix, i, j)
    decreases cs, 1
  {
    var n := |Visit(q, cs[0])|;
    if j < n {
      SameChildOrder(q, cs, prefix, i, j);
    } else if i < n {
      LaterChildOrder(q, cs, prefix, i, j);
    } else {
      RestWellFormed(cs);
      WalkOrder(q, cs[1..], prefix, i - n, j - n);
    }
  }

  // ----- a directory's entries lie together -----

  lemma BetweenSameChild(q: Bytes, cs: seq<Child>, prefix: Bytes, i: nat, m: nat, j: nat)
    requires WellFormed(cs) && BothIn(q, cs, prefix, i, j) && i < m < j < |Visit(q, cs[0])|
    ensures q + prefix <= WalkDir(q, cs)[m].path
    decreases cs, 0
  {
    var c, items := cs[0], WalkDir(q, cs);
    if prefix == [] {
      WalkBelow(q, cs, m);
      assert q + [] == q;
    } else {
      VisitBelow(q, c, i);
      PrefixStartsWith(q, c, items[i].path, prefix);
      var below := q + c.name + [SLASH];
      assert WalkDir(below, c.node.children) == Visit(q, c);
      Between(below, c.node.children, prefix[|c.name| + 1..], i, m, j);
    }
  }

  lemma BetweenChildren(q: Bytes, cs: seq<Child>, prefix: Bytes, i: nat, m: nat, j: nat)
    requires WellFormed(cs) && BothIn(q, cs, prefix, i, j) && i < m < j && i < |Visit(q, cs[0])| <= j
    ensures q + prefix <= WalkDir(q, cs)[m].path
  {
    var items, n := WalkDir(q, cs), |Visit(q, cs[0])|;
    VisitBelow(q, cs[0], i);
    var l := FromChild(q, cs[1..], j - n);
    assert Less(cs[0].name, cs[l + 1].name);
    LessAsymmetric(cs[0].name, cs[l + 1].name);
    WalkBelow(q, cs, m);
    if prefix == [] {
      assert q + [] == q;
    } else {
      PrefixStartsWith(q, cs[0], items[i].path, prefix);
      PrefixStartsWith(q, cs[l + 1], items[j].path, prefix);
    }
  }

  /** What the walk emits between two files of a directory lies in the directory. */
  lemma {:induction false} Between(q: Bytes, cs: seq<Child>, prefix: Bytes, i: nat, m: nat, j: nat)
    requires WellFormed(cs) && BothIn(q, cs, prefix, i, j) && i < m < j
    ensures q + prefix <= WalkDir(q, cs)[m].path
    decreases cs, 1
  {
    var n := |Visit(q, cs[0])|;
    if j < n {
      BetweenSameChild(q, cs, prefix, i, m, j);
    } else if i < n {
      BetweenChildren(q, cs, prefix, i, m, j);
    } else {
      RestWellFormed(cs);
      Between(q, cs[1..], prefix, i - n, m - n, j - n);
    }
  }

  // ----- the listing -----

  /** A listing of entries whose children come in name order is sorted by name. */
  lemma {:induction false} ListingOfOrdered(es: seq<Entry>, prefix: Bytes, last: Bytes)
    requires forall i, j :: 0 <= i < j < |es| ==>
               LessEq(ChildOf(es[i].path, prefix).name, ChildOf(es[j].path, prefix).name)
    requires forall i :: 0 <= i < |es| ==> LessEq(last, ChildOf(es[i].path, prefix).name)
    ensures NameSorted(Listing(es, prefix, last))
    ensures forall d :: d in Listing(es, prefix, last) ==> Less(last, d.name)
  {
    if es != [] {
      var x := ChildOf(es[0].path, prefix);
      if x.name == last {
        ListingOfOrdered(es[1..], prefix, last);
      } else {
        ListingOfOrdered(es[1..], prefix, x.name);
        ListedAfter(es[1..], prefix, last, x.name);
      }
    }
  }

  /** Every name but the last one yielded is listed. */
  lemma {:induction false} ListedByName(es: seq<Entry>, prefix: Bytes, last: Bytes, i: nat)
    requires i < |es|
    requires forall i, j :: 0 <= i < j < |es| ==>
               LessEq(ChildOf(es[i].path, prefix).name, ChildOf(es[j].path, prefix).name)
    ensures var name := ChildOf(es[i].path, prefix).name;
            name == last || exists d :: d in Listing(es, prefix, last) && d.name == name
    decreases |es|
  {
    var x := ChildOf(es[0].path, prefix);
    var next := if x.name == last then last else x.name;
    if i > 0 {
      ListedByName(es[1..], prefix, next, i - 1);
      assert es[1..][i - 1] == es[i];
    }
    assert x.name != last ==> x in Listing(es, prefix, last);
  }

  lemma ListedAfter(es: seq<Entry>, prefix: Bytes, last: Bytes, name: Bytes)
    requires Less(last, name) && forall d :: d in Listing(es, prefix, name) ==> Less(name, d.name)
    ensures forall d :: d in Listing(es, prefix, name) ==> Less(last, d.name)
  {
    forall d | d in Listing(es, prefix, name) ensures Less(last, d.name) { LessTransitive(last, name, d.name); }
  }

  /** Whatever is listed is a child of some entry. */
  lemma {:induction false} ListedIsChild(es: seq<Entry>, prefix: Bytes, last: Bytes, d: DirEnt)
    requires d in Listing(es, prefix, last)
    ensures SomeChild(es, prefix, d)
  {
    var x := ChildOf(es[0].path, prefix);
    SomeChildCons(es, prefix, d);
    if d in Listing(es[1..], prefix, if x.name == last then last else x.name) {
      ListedIsChild(es[1..], prefix, if x.name == last then last else x.name, d);
    }
  }

  // ----- archives -----

  /** The entries of an archive belong to children in name order, in any directory. */
  lemma EntriesInOrder(c: Readers.Codec, s: Create.Settings, a: Create.Archived, cs: seq<Child>, dir: Bytes,
                       i: nat, j: nat)
    requires WellFormed(cs) && Create.ArchiveOf(c, s, a, cs) && i < j < |a.entries|
    requires Prefix(dir) <= a.entries[i].path && Prefix(dir) <= a.entries[j].path
    ensures LessEq(ChildOf(a.entries[i].path, Prefix(dir)).name, ChildOf(a.entries[j].path, Prefix(dir)).name)
  {
    var prefix := Prefix(dir);
    EntryPath(c, s, a, cs, i);
    EntryPath(c, s, a, cs, j);
    assert [] + prefix == prefix;
    WalkOrder([], cs, prefix, i, j);
  }

  lemma EntryPath(c: Readers.Codec, s: Create.Settings, a: Create.Archived, cs: seq<Child>, i: nat)
    requires Create.ArchiveOf(c, s, a, cs) && i < |a.entries|
    ensures a.entries[i].path == WalkDir([], cs)[i].path
  {
  }

  /** Entries lo, ..., hi - 1 lie in the directory, and their children come in name order. */
  ghost predicate Run(es: seq<Entry>, prefix: Bytes, lo: nat, hi: nat) {
    && lo <= hi <= |es|
    && forall i, j :: lo <= i < j < hi ==> LessEq(ChildOf(es[i].path, prefix).name, ChildOf(es[j].path, prefix).name)
  }

  lemma RunListing(es: seq<Entry>, prefix: Bytes, lo: nat, hi: nat)
    requires Run(es, prefix, lo, hi)
    ensures NameSorted(Listing(es[lo..hi], prefix, []))
  {
    var r := es[lo..hi];
    forall i, j | 0 <= i < j < |r| ensures LessEq(ChildOf(r[i].path, prefix).name, ChildOf(r[j].path, prefix).name) {
      assert r[i] == es[lo + i] && r[j] == es[lo + j];
    }
    forall i | 0 <= i < |r| ensures LessEq([], ChildOf(r[i].path, prefix).name) {
      PrefixLess([], ChildOf(r[i].path, prefix).name);
    }
    ListingOfOrdered(r, prefix, []);
  }

  lemma RunSound(es: seq<Entry>, prefix: Bytes, lo: nat, hi: nat, d: DirEnt)
    requires lo <= hi <= |es| && (forall k :: lo <= k < hi ==> prefix <= es[k].path)
    requires d in Listing(es[lo..hi], prefix, [])
    ensures HasChild(es, prefix, d)
  {
    var m := InRun(es, prefix, lo, hi, d);
  }

  /** Every listing of an archive is sorted by name, without duplicates, and every child
      listed is a child in the tree, of the right kind; for every tree. */
  lemma CreatedSorted(c: Readers.Codec, s: Create.Settings, a: Create.Archived, cs: seq<Child>, dir: Bytes, d: DirEnt)
    requires WellFormed(cs) && Create.ArchiveOf(c, s, a, cs)
    ensures NameSorted(ReadDirOf(a.entries, dir))
    ensures d in ReadDirOf(a.entries, dir) ==> DirChild(cs, dir, d)
  {
    var es, prefix := a.entries, Prefix(dir);
    var lo := Index.SeekFrom(es, prefix, 0, |es|);
    var hi := Index.RunEnd(es, prefix, lo);
    RunIsOrdered(c, s, a, cs, dir, lo, hi);
    RunListing(es, prefix, lo, hi);
    if d in ReadDirOf(es, dir) {
      RunSound(es, prefix, lo, hi, d);
      ArchiveFiles(c, s, a, cs);
      HasChildIff(es, cs, dir, d);
      TreeChildIsDirChild(cs, dir, d);
    }
  }

  /** Without overtaking every listing is complete as well: exactly the children of the
      directory that hold a file, with their kinds. */
  lemma CreatedComplete(c: Readers.Codec, s: Create.Settings, a: Create.Archived, cs: seq<Child>, dir: Bytes, d: DirEnt)
    requires WellFormed(cs) && NoOvertaking(cs) && Create.ArchiveOf(c, s, a, cs)
    ensures d in ReadDirOf(a.entries, [46]) <==> ChildHolding(cs, d)
    ensures dir != [46] ==>
              (d in ReadDirOf(a.entries, dir) <==> DirAt(cs, dir).Some? && ChildHolding(DirAt(cs, dir).value, d))
  {
    ArchiveFiles(c, s, a, cs);
    Create.ArchiveSortedIff(c, s, a, cs);
    SortedListing(a.entries, cs, dir, d);
  }

  /** The entry at which the scan of the directory starts. */
  function SeekOf(es: seq<Entry>, dir: Bytes): nat {
    Index.SeekFrom(es, Prefix(dir), 0, |es|)
  }

  /** The seek ends at an entry of the directory's first child. */
  ghost predicate SeeksFirst(es: seq<Entry>, dir: Bytes) {
    var k, prefix := SeekOf(es, dir), Prefix(dir);
    && k < |es| && prefix <= es[k].path
    && forall i :: 0 <= i < |es| && prefix <= es[i].path ==>
         LessEq(ChildOf(es[k].path, prefix).name, ChildOf(es[i].path, prefix).name)
  }

  /** No child of the directory holds a file, or there is no such directory. */
  ghost predicate NoneIn(cs: seq<Child>, dir: Bytes) {
    forall d :: !DirChild(cs, dir, d)
  }

  ghost predicate Complete(es: seq<Entry>, cs: seq<Child>, dir: Bytes) {
    forall d :: d in ReadDirOf(es, dir) <==> DirChild(cs, dir, d)
  }

  /** Exactly when a listing is complete, for every tree: the directory has no files, or the
      binary search for its first entry ends at one of its first child. */
  lemma CompleteIff(c: Readers.Codec, s: Create.Settings, a: Create.Archived, cs: seq<Child>, dir: Bytes)
    requires WellFormed(cs) && Create.ArchiveOf(c, s, a, cs)
    ensures Complete(a.entries, cs, dir) <==> NoneIn(cs, dir) || SeeksFirst(a.entries, dir)
  {
    if Complete(a.entries, cs, dir) && !NoneIn(cs, dir) { CompleteSeeksFirst(c, s, a, cs, dir); }
    if NoneIn(cs, dir) || SeeksFirst(a.entries, dir) {
      forall d ensures d in ReadDirOf(a.entries, dir) <==> DirChild(cs, dir, d) {
        CreatedSorted(c, s, a, cs, dir, d);
        if DirChild(cs, dir, d) { SeekListsAll(c, s, a, cs, dir, d); }
      }
    }
  }

  lemma CompleteSeeksFirst(c: Readers.Codec, s: Create.Settings, a: Create.Archived, cs: seq<Child>, dir: Bytes)
    requires WellFormed(cs) && Create.ArchiveOf(c, s, a, cs) && Complete(a.entries, cs, dir) && !NoneIn(cs, dir)
    ensures SeeksFirst(a.entries, dir)
  {
    var es, prefix, k := a.entries, Prefix(dir), SeekOf(a.entries, dir);
    var hi := Index.RunEnd(es, prefix, k);
    forall i | 0 <= i < |es| && prefix <= es[i].path ensures StartsBefore(es, prefix, k, i) {
      EntryIsListed(c, s, a, cs, dir, i);
      RunStartsBefore(c, s, a, cs, dir, k, hi, i);
    }
    var d :| DirChild(cs, dir, d);
    TreeChildIsDirChild(cs, dir, d);
    ArchiveFiles(c, s, a, cs);
    HasChildIff(es, cs, dir, d);
    var i :| 0 <= i < |es| && prefix <= es[i].path && ChildOf(es[i].path, prefix) == d;
    assert StartsBefore(es, prefix, k, i);
  }

  /** Entry k lies in the directory, in a child no later than that of entry i. */
  ghost predicate StartsBefore(es: seq<Entry>, prefix: Bytes, k: nat, i: nat)
    requires i < |es|
  {
    k < |es| && prefix <= es[k].path && LessEq(ChildOf(es[k].path, prefix).name, ChildOf(es[i].path, prefix).name)
  }

  lemma RunStartsBefore(c: Readers.Codec, s: Create.Settings, a: Create.Archived, cs: seq<Child>, dir: Bytes,
                        k: nat, hi: nat, i: nat)
    requires WellFormed(cs) && Create.ArchiveOf(c, s, a, cs) && i < |a.entries| && k <= hi <= |a.entries|
    requires forall m :: k <= m < hi ==> Prefix(dir) <= a.entries[m].path
    requires ChildOf(a.entries[i].path, Prefix(dir)) in Listing(a.entries[k..hi], Prefix(dir), [])
    ensures StartsBefore(a.entries, Prefix(dir), k, i)
  {
    var m := InRun(a.entries, Prefix(dir), k, hi, ChildOf(a.entries[i].path, Prefix(dir)));
    if k < m { EntriesInOrder(c, s, a, cs, dir, k, m); }
  }

  lemma InRun(es: seq<Entry>, prefix: Bytes, lo: nat, hi: nat, d: DirEnt) returns (m: nat)
    requires lo <= hi <= |es| && d in Listing(es[lo..hi], prefix, [])
    ensures lo <= m < hi && ChildOf(es[m].path, prefix) == d
  {
    ListedIsChild(es[lo..hi], prefix, [], d);
    m := ChildInSlice(es, prefix, lo, hi, d);
  }

  lemma ChildInSlice(es: seq<Entry>, prefix: Bytes, lo: nat, hi: nat, d: DirEnt) returns (m: nat)
    requires lo <= hi <= |es| && SomeChild(es[lo..hi], prefix, d)
    ensures lo <= m < hi && ChildOf(es[m].path, prefix) == d
  {
    var r := es[lo..hi];
    assert forall i :: 0 <= i < |r| ==> r[i] == es[lo + i];
    var i :| 0 <= i < |r| && ChildOf(r[i].path, prefix) == d;
    m := lo + i;
  }

  lemma EntryIsListed(c: Readers.Codec, s: Create.Settings, a: Create.Archived, cs: seq<Child>, dir: Bytes, i: nat)
    requires WellFormed(cs) && Create.ArchiveOf(c, s, a, cs) && Complete(a.entries, cs, dir)
    requires i < |a.entries| && Prefix(dir) <= a.entries[i].path
    ensures ChildOf(a.entries[i].path, Prefix(dir)) in ReadDirOf(a.entries, dir)
  {
    var d := ChildOf(a.entries[i].path, Prefix(dir));
    assert HasChild(a.entries, Prefix(dir), d);
    ArchiveFiles(c, s, a, cs);
    HasChildIff(a.entries, cs, dir, d);
    TreeChildIsDirChild(cs, dir, d);
  }

  /** From the first child's entry on, the run reaches every entry of the directory. */
  lemma SeekListsAll(c: Readers.Codec, s: Create.Settings, a: Create.Archived, cs: seq<Child>, dir: Bytes, d: DirEnt)
    requires WellFormed(cs) && Create.ArchiveOf(c, s, a, cs) && DirChild(cs, dir, d)
    requires NoneIn(cs, dir) || SeeksFirst(a.entries, dir)
    ensures d in ReadDirOf(a.entries, dir)
  {
    var es, prefix, k := a.entries, Prefix(dir), SeekOf(a.entries, dir);
    TreeChildIsDirChild(cs, dir, d);
    ArchiveFiles(c, s, a, cs);
    HasChildIff(es, cs, dir, d);
    var i :| 0 <= i < |es| && prefix <= es[i].path && ChildOf(es[i].path, prefix) == d;
    var hi := Index.RunEnd(es, prefix, k);
    var e := ReachesName(c, s, a, cs, dir, k, hi, i);
    CreatedSorted(c, s, a, cs, dir, e);
    TreeChildIsDirChild(cs, dir, e);
    TreeChildUnique(cs, prefix, d, e);
  }

  /** The run from an entry of the first child lists the name of every entry. */
  lemma ReachesName(c: Readers.Codec, s: Create.Settings, a: Create.Archived, cs: seq<Child>, dir: Bytes,
                    k: nat, hi: nat, i: nat) returns (e: DirEnt)
    requires WellFormed(cs) && Create.ArchiveOf(c, s, a, cs) && i < |a.entries| && k <= hi <= |a.entries|
    requires Prefix(dir) <= a.entries[i].path && StartsBefore(a.entries, Prefix(dir), k, i)
    requires forall m :: k <= m < hi ==> Prefix(dir) <= a.entries[m].path
    requires hi < |a.entries| ==> !(Prefix(dir) <= a.entries[hi].path)
    ensures e in Listing(a.entries[k..hi], Prefix(dir), []) && e.name == ChildOf(a.entries[i].path, Prefix(dir)).name
  {
    var es, prefix := a.entries, Prefix(dir);
    var m := if i < k then k else i;
    if i < k { SameNameEarlier(c, s, a, cs, dir, k, i); }
    if hi <= m { Contiguous(c, s, a, cs, dir, k, hi, m); }
    RunIsOrdered(c, s, a, cs, dir, k, hi);
    ProperName(c, s, a, cs, dir, m);
    RunListsName(es, prefix, k, hi, m);
    e :| e in Listing(es[k..hi], prefix, []) && e.name == ChildOf(es[m].path, prefix).name;
  }

  lemma ProperName(c: Readers.Codec, s: Create.Settings, a: Create.Archived, cs: seq<Child>, dir: Bytes, m: nat)
    requires WellFormed(cs) && Create.ArchiveOf(c, s, a, cs) && m < |a.entries| && Prefix(dir) <= a.entries[m].path
    ensures ChildOf(a.entries[m].path, Prefix(dir)).name != []
  {
    ArchiveFiles(c, s, a, cs);
    IndexPaths(a.entries, cs);
    ValidAfterPrefix(Prefix(dir), a.entries[m].path);
  }

  lemma SameNameEarlier(c: Readers.Codec, s: Create.Settings, a: Create.Archived, cs: seq<Child>, dir: Bytes,
                        k: nat, i: nat)
    requires WellFormed(cs) && Create.ArchiveOf(c, s, a, cs) && i < k < |a.entries|
    requires StartsBefore(a.entries, Prefix(dir), k, i) && Prefix(dir) <= a.entries[i].path
    ensures ChildOf(a.entries[k].path, Prefix(dir)).name == ChildOf(a.entries[i].path, Prefix(dir)).name
  {
    EntriesInOrder(c, s, a, cs, dir, i, k);
    var x, y := ChildOf(a.entries[i].path, Prefix(dir)).name, ChildOf(a.entries[k].path, Prefix(dir)).name;
    if x != y { LessAsymmetric(x, y); }
  }

  lemma Contiguous(c: Readers.Codec, s: Create.Settings, a: Create.Archived, cs: seq<Child>, dir: Bytes,
                   k: nat, h: nat, m: nat)
    requires WellFormed(cs) && Create.ArchiveOf(c, s, a, cs) && k <= h <= m < |a.entries|
    requires Prefix(dir) <= a.entries[k].path && Prefix(dir) <= a.entries[m].path
    ensures Prefix(dir) <= a.entries[h].path
  {
    var prefix := Prefix(dir);
    EntryPath(c, s, a, cs, k);
    EntryPath(c, s, a, cs, h);
    EntryPath(c, s, a, cs, m);
    assert [] + prefix == prefix;
    if k < h < m { Between([], cs, prefix, k, h, m); }
  }

  lemma RunIsOrdered(c: Readers.Codec, s: Create.Settings, a: Create.Archived, cs: seq<Child>, dir: Bytes,
                     lo: nat, hi: nat)
    requires WellFormed(cs) && Create.ArchiveOf(c, s, a, cs) && lo <= hi <= |a.entries|
    requires forall k :: lo <= k < hi ==> Prefix(dir) <= a.entries[k].path
    ensures Run(a.entries, Prefix(dir), lo, hi)
  {
    forall i, j | lo <= i < j < hi
      ensures LessEq(ChildOf(a.entries[i].path, Prefix(dir)).name, ChildOf(a.entries[j].path, Prefix(dir)).name)
    {
      EntriesInOrder(c, s, a, cs, dir, i, j);
    }
  }

  lemma RunListsName(es: seq<Entry>, prefix: Bytes, lo: nat, hi: nat, m: nat)
    requires Run(es, prefix, lo, hi) && lo <= m < hi && ChildOf(es[m].path, prefix).name != []
    ensures exists e :: e in Listing(es[lo..hi], prefix, []) && e.name == ChildOf(es[m].path, prefix).name
  {
    var r := es[lo..hi];
    forall i, j | 0 <= i < j < |r| ensures LessEq(ChildOf(r[i].path, prefix).name, ChildOf(r[j].path, prefix).name) {
      assert r[i] == es[lo + i] && r[j] == es[lo + j];
    }
    ListedByName(r, prefix, [], m - lo);
    assert r[m - lo] == es[m];
  }

  /** A directory has one child of a name. */
  lemma TreeChildUnique(cs: seq<Child>, prefix: Bytes, d: DirEnt, e: DirEnt)
    requires WellFormed(cs) && TreeChild(cs, prefix, d) && TreeChild(cs, prefix, e) && d.name == e.name
    ensures d == e
  {
    TreeAtWellFormed(cs, prefix);
    var t := TreeAt(cs, prefix).value;
    var i :| 0 <= i < |t| && HoldsFile(t[i]) && d == DirEnt(t[i].name, t[i].node.Dir?);
    var j :| 0 <= j < |t| && HoldsFile(t[j]) && e == DirEnt(t[j].name, t[j].node.Dir?);
    NamesUnique(t, t[i]);
    NamesUnique(t, t[j]);
  }

  lemma {:induction false} TreeAtWellFormed(cs: seq<Child>, prefix: Bytes)
    requires WellFormed(cs) && TreeAt(cs, prefix).Some?
    ensures WellFormed(TreeAt(cs, prefix).value)
    decreases |prefix|
  {
    if prefix != [] {
      TreeAtStep(cs, prefix);
      var k := FirstSlash(prefix);
      var c := ChildNamed(cs, prefix[..k]).value;
      ChildWellFormed(cs, c);
      TreeAtWellFormed(c.node.children, prefix[k + 1..]);
    }
  }

  // ----- examples -----

  /** With overtaking a listing need not be complete: beside a file "a.", the directory "a"
      holding "b" lists nothing. */
  lemma OvertakenListsNothing(c: Readers.Codec, s: Create.Settings, a: Create.Archived, x: Bytes, y: Bytes)
    requires Create.ArchiveOf(c, s, a, Create.SmallTree(x, y))
    ensures ReadDirOf(a.entries, [97]) == []
    ensures DirChild(Create.SmallTree(x, y), [97], DirEnt([98], false))
  {
    Create.SmallTreeWalk(x, y);
    ScanMisses(a.entries);
    SmallTreeChild(x, y);
  }

  lemma SmallTreeChild(x: Bytes, y: Bytes)
    ensures DirChild(Create.SmallTree(x, y), [97], DirEnt([98], false))
  {
    var cs, dir := Create.SmallTree(x, y), [97];
    FirstSlashOf(dir, 1);
    assert dir[..1] == [97];
    assert DirAt(cs, dir) == Some(cs[0].node.children);
    assert HoldsFile(cs[0].node.children[0]);
  }

  lemma ScanMisses(es: seq<Entry>)
    requires |es| == 2 && es[0].path == [97, 47, 98] && es[1].path == [97, 46]
    ensures Index.Scan(es, [97, 47]) == []
  {
    assert Less(es[1].path, [97, 47]);
    assert Index.SeekFrom(es, [97, 47], 2, 2) == 2;
  }
}
