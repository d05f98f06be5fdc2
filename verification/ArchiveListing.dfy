/**
  Directory listings and the tree that an index was made from. Over a sorted index of a
  tree's files, every directory is listed completely, and all listings are sorted by name
  if and only if no directory of the tree is overtaken. For the order in which creation
  writes the index see `CreatedListing`.
 */
module ArchiveListing {
  import opened Wrappers
  import opened Bytes
  import opened Archive
  import opened Walk
  import Readers
  import Create
  import Index
  import opened DirListing

  /** The first component of a file's path names a child that holds a file. */
  lemma {:induction false} FileHolds(cs: seq<Child>, p: Bytes)
    requires FileAt(cs, p).Some?
    ensures var c := ChildNamed(cs, p[..FirstSlash(p)]); c.Some? && HoldsFile(c.value)
    decreases |p|
  {
    var k := FirstSlash(p);
    var c := ChildNamed(cs, p[..k]).value;
    if c.node.Dir? {
      FileHolds(c.node.children, p[k + 1..]);
      var d := ChildNamed(c.node.children, p[k + 1..][..FirstSlash(p[k + 1..])]).value;
      var i :| 0 <= i < |c.node.children| && c.node.children[i] == d;
      assert HoldsFile(c.node.children[i]);
    }
  }

  /** A path is never both a file and a directory with files. */
  lemma {:induction false} FileIsNoDir(cs: seq<Child>, p: Bytes, q: Bytes)
    requires FileAt(cs, p).Some? && FileAt(cs, q).Some?
    ensures !(p + [SLASH] <= q)
    decreases |p|
  {
    if p + [SLASH] <= q {
      var k := FirstSlash(p);
      SamePrefixSlash(p, q);
      if k < |p| {
        var ds := ChildNamed(cs, p[..k]).value.node.children;
        assert p[k + 1..] + [SLASH] <= q[k + 1..];
        FileIsNoDir(ds, p[k + 1..], q[k + 1..]);
      }
    }
  }

  lemma SamePrefixSlash(p: Bytes, q: Bytes)
    requires p + [SLASH] <= q
    ensures FirstSlash(q) == FirstSlash(p) && q[..FirstSlash(p)] == p[..FirstSlash(p)]
  {
    var k := FirstSlash(p);
    assert (p + [SLASH])[..k] == p[..k] == q[..k];
    assert q[k] == (p + [SLASH])[k] == SLASH;
    FirstSlashOf(q, k);
  }

  /** Two files of one directory whose children are listed out of name order: the one child
      overtakes the other in the tree. */
  lemma {:induction false} OutOfOrderOvertakes(cs: seq<Child>, prefix: Bytes, u: Bytes, v: Bytes, x: DirEnt, y: DirEnt)
    requires FileAt(cs, u).Some? && FileAt(cs, v).Some? && prefix <= u && prefix <= v
    requires prefix == [] || prefix[|prefix| - 1] == SLASH
    requires x == ChildOf(u, prefix) && y == ChildOf(v, prefix) && OutOfOrder(x, y)
    ensures !NoOvertaking(cs)
    decreases |prefix|
  {
    if prefix == [] {
      assert u[0..] == u && v[0..] == v;
      RootOvertakes(cs, u, v);
    } else {
      var c, prefix', u' := Descend(cs, prefix, u);
      var c', prefix'', v' := Descend(cs, prefix, v);
      OutOfOrderOvertakes(c.node.children, prefix', u', v', x, y);
      InnerOvertaking(cs, c);
    }
  }

  function Tail(p: Bytes): Bytes {
    if FirstSlash(p) < |p| then p[FirstSlash(p) + 1..] else []
  }

  /** From a path below a directory prefix to the path inside the first directory of it. */
  lemma Descend(cs: seq<Child>, prefix: Bytes, u: Bytes) returns (c: Child, prefix': Bytes, u': Bytes)
    requires FileAt(cs, u).Some? && prefix <= u && prefix != [] && prefix[|prefix| - 1] == SLASH
    ensures Some(c) == ChildNamed(cs, prefix[..FirstSlash(prefix)]) && c.node.Dir? && FileAt(c.node.children, u').Some?
    ensures prefix' == Tail(prefix) && |prefix'| < |prefix| && (prefix' == [] || prefix'[|prefix'| - 1] == SLASH)
    ensures prefix' <= u' && ChildOf(u', prefix') == ChildOf(u, prefix)
  {
    SlashBefore(prefix, |prefix| - 1);
    var k := FirstSlash(prefix);
    FirstComponent(prefix, u);
    DropSameChild(prefix, u, k + 1);
    StepInto(cs, u, k);
    LastOfDrop(prefix, k + 1);
    c, prefix', u' := ChildNamed(cs, prefix[..k]).value, prefix[k + 1..], u[k + 1..];
  }

  /** A file below a directory is a file of that directory. */
  lemma StepInto(cs: seq<Child>, u: Bytes, k: nat)
    requires FileAt(cs, u).Some? && FirstSlash(u) == k < |u|
    ensures var c := ChildNamed(cs, u[..k]);
            c.Some? && c.value.node.Dir? && FileAt(c.value.node.children, u[k + 1..]).Some?
  {
  }

  lemma LastOfDrop(p: Bytes, n: nat)
    requires n <= |p|
    ensures |p[n..]| == |p| - n && (p[n..] != [] ==> p[n..][|p[n..]| - 1] == p[|p| - 1])
  {
  }

  lemma InnerOvertaking(cs: seq<Child>, c: Child)
    requires c in cs && c.node.Dir? && !NoOvertaking(c.node.children)
    ensures !NoOvertaking(cs)
  {
    var i :| 0 <= i < |cs| && cs[i] == c;
    assert !NoOvertaking(cs[i].node.children);
  }

  lemma RootOvertakes(cs: seq<Child>, u: Bytes, v: Bytes)
    requires FileAt(cs, u).Some? && FileAt(cs, v).Some?
    requires var m, n := FirstSlash(u), FirstSlash(v); OutOfOrder(DirEnt(u[..m], m < |u|), DirEnt(v[..n], n < |v|))
    ensures !NoOvertaking(cs)
  {
    FileHolds(cs, u);
    FileHolds(cs, v);
    var x, y := ChildNamed(cs, u[..FirstSlash(u)]).value, ChildNamed(cs, v[..FirstSlash(v)]).value;
    var i :| 0 <= i < |cs| && cs[i] == x;
    var j :| 0 <= j < |cs| && cs[j] == y;
    assert !Compatible(cs[j], cs[i]);
  }

  /** A path has the first component of its prefix. */
  lemma FirstComponent(prefix: Bytes, u: Bytes)
    requires prefix <= u && FirstSlash(prefix) < |prefix|
    ensures FirstSlash(u) == FirstSlash(prefix) && u[..FirstSlash(u)] == prefix[..FirstSlash(prefix)]
  {
    TakeOfPrefix(prefix, u, FirstSlash(prefix));
    FirstSlashOf(u, FirstSlash(prefix));
  }

  lemma DropSameChild(prefix: Bytes, u: Bytes, n: nat)
    requires prefix <= u && n <= |prefix|
    ensures prefix[n..] <= u[n..] && ChildOf(u[n..], prefix[n..]) == ChildOf(u, prefix)
  {
    DropBoth(prefix, u, n);
    SameChild(u[n..], prefix[n..], u, prefix);
  }

  lemma TakeOfPrefix(prefix: Bytes, u: Bytes, k: nat)
    requires prefix <= u && k < |prefix|
    ensures u[..k] == prefix[..k] && u[k] == prefix[k]
  {
  }

  lemma SameChild(p: Bytes, q: Bytes, u: Bytes, v: Bytes)
    requires q <= p && v <= u && p[|q|..] == u[|v|..]
    ensures ChildOf(p, q) == ChildOf(u, v)
  {
  }

  // ----- the other direction -----

  /** A child that holds a file has one at some path. */
  lemma {:induction false} SomeFileIn(cs: seq<Child>, i: nat) returns (p: Bytes)
    requires WellFormed(cs) && i < |cs| && HoldsFile(cs[i])
    ensures FileAt(cs, p).Some? && p[..FirstSlash(p)] == cs[i].name
    ensures cs[i].node.Dir? <==> FirstSlash(p) < |p|
    decreases cs[i]
  {
    var c := cs[i];
    NamesUnique(cs, c);
    if c.node.File? {
      p := c.name;
      FirstSlashAt(c.name, []);
      assert c.name + [] == c.name;
    } else {
      var ds := c.node.children;
      var j :| 0 <= j < |ds| && HoldsFile(ds[j]);
      var q := SomeFileIn(ds, j);
      p := c.name + ([SLASH] + q);
      FirstSlashAt(c.name, [SLASH] + q);
      assert p[|c.name| + 1..] == q;
    }
  }

  /** The file u lies in the directory whose paths start with `prefix`, in its child x. */
  ghost predicate FileInChild(cs: seq<Child>, prefix: Bytes, u: Bytes, x: DirEnt) {
    FileAt(cs, u).Some? && prefix <= u && ChildOf(u, prefix) == x
  }

  predicate IsPrefix(prefix: Bytes) {
    prefix == [] || (prefix[|prefix| - 1] == SLASH && ValidElements(prefix[..|prefix| - 1]))
  }

  /** Two files of one directory whose children are listed out of name order. */
  datatype Disorder = Disorder(prefix: Bytes, u: Bytes, v: Bytes, x: DirEnt, y: DirEnt) {
    ghost predicate In(cs: seq<Child>) {
      FileInChild(cs, prefix, u, x) && FileInChild(cs, prefix, v, y) && OutOfOrder(x, y) && IsPrefix(prefix)
    }
  }

  lemma RootDisorder(cs: seq<Child>, j: nat, i: nat) returns (d: Disorder)
    requires WellFormed(cs) && j < |cs| && i < |cs| && !Compatible(cs[j], cs[i])
    ensures d.In(cs)
  {
    var u := SomeFileIn(cs, i);
    var v := SomeFileIn(cs, j);
    assert u[0..] == u && v[0..] == v;
    d := Disorder([], u, v, ChildOf(u, []), ChildOf(v, []));
  }

  lemma InnerFile(cs: seq<Child>, i: nat, prefix: Bytes, u: Bytes, x: DirEnt)
    requires WellFormed(cs) && i < |cs| && cs[i].node.Dir? && FileInChild(cs[i].node.children, prefix, u, x)
    ensures FileInChild(cs, Under(cs[i].name, prefix), Under(cs[i].name, u), x)
  {
    BelowChild(cs, i, u);
    ChildBelow(cs[i].name, prefix, u);
  }

  /** A tree with an overtaken directory has two files listed out of name order. */
  lemma {:induction false} OvertakingOutOfOrder(cs: seq<Child>) returns (d: Disorder)
    requires WellFormed(cs) && !NoOvertaking(cs)
    ensures d.In(cs)
    decreases cs
  {
    if j, i :| 0 <= j < |cs| && 0 <= i < |cs| && !Compatible(cs[j], cs[i]) {
      d := RootDisorder(cs, j, i);
    } else {
      var i :| 0 <= i < |cs| && cs[i].node.Dir? && !NoOvertaking(cs[i].node.children);
      var name := cs[i].name;
      var e := OvertakingOutOfOrder(cs[i].node.children);
      InnerFile(cs, i, e.prefix, e.u, e.x);
      InnerFile(cs, i, e.prefix, e.v, e.y);
      PrefixValid(name, e.prefix);
      d := Disorder(Under(name, e.prefix), Under(name, e.u), Under(name, e.v), e.x, e.y);
    }
  }

  function Under(name: Bytes, p: Bytes): Bytes {
    name + ([SLASH] + p)
  }

  lemma BelowChild(cs: seq<Child>, i: nat, u: Bytes)
    requires WellFormed(cs) && i < |cs| && cs[i].node.Dir?
    ensures FileAt(cs, Under(cs[i].name, u)) == FileAt(cs[i].node.children, u)
  {
    NamesUnique(cs, cs[i]);
    FirstSlashAt(cs[i].name, [SLASH] + u);
    AfterName(cs[i].name, u);
  }

  lemma AfterName(name: Bytes, u: Bytes)
    ensures Under(name, u)[|name| + 1..] == u
  {
  }

  lemma ChildBelow(name: Bytes, prefix: Bytes, u: Bytes)
    requires prefix <= u
    ensures Under(name, prefix) <= Under(name, u) && ChildOf(Under(name, u), Under(name, prefix)) == ChildOf(u, prefix)
  {
    var q, p := name + ([SLASH] + prefix), name + ([SLASH] + u);
    assert p[|q|..] == u[|prefix|..];
  }

  lemma PrefixValid(name: Bytes, prefix: Bytes)
    requires ValidName(name) && IsPrefix(prefix)
    ensures IsPrefix(Under(name, prefix))
  {
    var q := name + ([SLASH] + prefix);
    var dir := q[..|q| - 1];
    if prefix == [] {
      assert dir == name + [];
      FirstSlashAt(name, []);
    } else {
      var rest := prefix[..|prefix| - 1];
      assert dir == name + ([SLASH] + rest);
      FirstSlashAt(name, [SLASH] + rest);
      assert dir[|name| + 1..] == rest;
    }
  }

  // ----- the directory of a prefix -----

  /** The children of the directory whose paths start with `prefix`. */
  function TreeAt(cs: seq<Child>, prefix: Bytes): Option<seq<Child>>
    decreases |prefix|
  {
    if prefix == [] then Some(cs)
    else
      var k := FirstSlash(prefix);
      var c := ChildNamed(cs, prefix[..k]);
      if k < |prefix| && c.Some? && c.value.node.Dir? then TreeAt(c.value.node.children, prefix[k + 1..]) else None
  }

  /** One of the children has this name and kind, and holds a file. */
  ghost predicate ChildHolding(cs: seq<Child>, d: DirEnt) {
    exists i :: 0 <= i < |cs| && HoldsFile(cs[i]) && d == DirEnt(cs[i].name, cs[i].node.Dir?)
  }

  /** The directory of the prefix has a child with this name and kind that holds a file. */
  ghost predicate TreeChild(cs: seq<Child>, prefix: Bytes, d: DirEnt) {
    TreeAt(cs, prefix).Some? && ChildHolding(TreeAt(cs, prefix).value, d)
  }

  /** The children of the directory at a path, found by descending the tree one path
      component at a time. */
  function DirAt(cs: seq<Child>, dir: Bytes): Option<seq<Child>>
    decreases |dir|
  {
    var k := FirstSlash(dir);
    var c := ChildNamed(cs, dir[..k]);
    if c.None? || !c.value.node.Dir? then None
    else if k == |dir| then Some(c.value.node.children)
    else DirAt(c.value.node.children, dir[k + 1..])
  }

  /** The directory has a child with this name and kind that holds a file; "." is the root. */
  ghost predicate DirChild(cs: seq<Child>, dir: Bytes, d: DirEnt) {
    if dir == [46] then ChildHolding(cs, d)
    else DirAt(cs, dir).Some? && ChildHolding(DirAt(cs, dir).value, d)
  }

  /** The prefix of a directory leads to what its path leads to. */
  lemma {:induction false} PrefixLeads(cs: seq<Child>, dir: Bytes)
    ensures TreeAt(cs, dir + [SLASH]) == DirAt(cs, dir)
    decreases |dir|
  {
    var k, prefix := FirstSlash(dir), dir + [SLASH];
    assert prefix[..k] == dir[..k];
    FirstSlashOf(prefix, k);
    var c := ChildNamed(cs, dir[..k]);
    if k < |dir| {
      assert prefix[k + 1..] == dir[k + 1..] + [SLASH];
      if c.Some? && c.value.node.Dir? { PrefixLeads(c.value.node.children, dir[k + 1..]); }
    } else {
      assert prefix[k + 1..] == [];
    }
  }

  lemma TreeChildIsDirChild(cs: seq<Child>, dir: Bytes, d: DirEnt)
    ensures TreeChild(cs, Prefix(dir), d) <==> DirChild(cs, dir, d)
  {
    PrefixLeads(cs, dir);
  }

  ghost predicate SomeFileInChild(cs: seq<Child>, prefix: Bytes, d: DirEnt) {
    exists u :: FileInChild(cs, prefix, u, d)
  }

  lemma RootChildIff(cs: seq<Child>, d: DirEnt)
    requires WellFormed(cs)
    ensures SomeFileInChild(cs, [], d) <==> TreeChild(cs, [], d)
  {
    if u :| FileInChild(cs, [], u, d) {
      ChildAtRoot(u);
      FileHolds(cs, u);
      var c := ChildNamed(cs, u[..FirstSlash(u)]).value;
      var i :| 0 <= i < |cs| && cs[i] == c;
      ChildIsTreeChild(cs, i);
    }
    if TreeChild(cs, [], d) {
      var i :| 0 <= i < |cs| && HoldsFile(cs[i]) && d == DirEnt(cs[i].name, cs[i].node.Dir?);
      var u := SomeFileIn(cs, i);
      ChildAtRoot(u);
      assert FileInChild(cs, [], u, d);
    }
  }

  lemma ChildIsTreeChild(cs: seq<Child>, i: nat)
    requires i < |cs| && HoldsFile(cs[i])
    ensures TreeChild(cs, [], DirEnt(cs[i].name, cs[i].node.Dir?))
  {
    assert TreeAt(cs, []).value[i] == cs[i];
  }

  lemma ChildAtRoot(u: Bytes)
    ensures ChildOf(u, []) == DirEnt(u[..FirstSlash(u)], FirstSlash(u) < |u|)
  {
    assert u[0..] == u;
  }

  /** Files below a prefix are files of the directory it leads to. */
  lemma {:induction false} TreeChildIff(cs: seq<Child>, prefix: Bytes, d: DirEnt)
    requires WellFormed(cs) && (prefix == [] || prefix[|prefix| - 1] == SLASH)
    ensures SomeFileInChild(cs, prefix, d) <==> TreeChild(cs, prefix, d)
    decreases |prefix|, 1
  {
    if prefix == [] {
      RootChildIff(cs, d);
    } else {
      if u :| FileInChild(cs, prefix, u, d) { OuterTreeChild(cs, prefix, u, d); }
      if TreeChild(cs, prefix, d) { InnerTreeChild(cs, prefix, d, FirstSlash(prefix)); }
    }
  }

  lemma {:induction false} OuterTreeChild(cs: seq<Child>, prefix: Bytes, u: Bytes, d: DirEnt)
    requires WellFormed(cs) && prefix != [] && prefix[|prefix| - 1] == SLASH && FileInChild(cs, prefix, u, d)
    ensures TreeChild(cs, prefix, d)
    decreases |prefix|, 0
  {
    var c, prefix', u' := Descend(cs, prefix, u);
    ChildWellFormed(cs, c);
    assert FileInChild(c.node.children, prefix', u', d);
    TreeChildIff(c.node.children, prefix', d);
    TreeAtInto(cs, prefix, c);
  }

  lemma TreeAtInto(cs: seq<Child>, prefix: Bytes, c: Child)
    requires prefix != [] && prefix[|prefix| - 1] == SLASH
    requires ChildNamed(cs, prefix[..FirstSlash(prefix)]) == Some(c) && c.node.Dir?
    ensures TreeAt(cs, prefix) == TreeAt(c.node.children, Tail(prefix))
  {
    SlashBefore(prefix, |prefix| - 1);
  }

  lemma ChildWellFormed(cs: seq<Child>, c: Child)
    requires WellFormed(cs) && c in cs && c.node.Dir?
    ensures WellFormed(c.node.children)
  {
  }

  lemma {:induction false} InnerTreeChild(cs: seq<Child>, prefix: Bytes, d: DirEnt, k: nat)
    requires WellFormed(cs) && prefix != [] && prefix[|prefix| - 1] == SLASH && k == FirstSlash(prefix)
    requires TreeChild(cs, prefix, d)
    ensures SomeFileInChild(cs, prefix, d)
    decreases |prefix|, 0
  {
    TreeAtStep(cs, prefix);
    var c, rest := ChildNamed(cs, prefix[..k]).value, prefix[k + 1..];
    ChildWellFormed(cs, c);
    LastOfDrop(prefix, k + 1);
    TreeChildIff(c.node.children, rest, d);
    var u :| FileInChild(c.node.children, rest, u, d);
    var i :| 0 <= i < |cs| && cs[i] == c;
    InnerFile(cs, i, rest, u, d);
    SplitPrefix(prefix, k);
    assert FileInChild(cs, prefix, Under(c.name, u), d);
  }

  lemma SplitPrefix(prefix: Bytes, k: nat)
    requires k < |prefix| && prefix[k] == SLASH
    ensures prefix == Under(prefix[..k], prefix[k + 1..])
  {
  }

  lemma TreeAtStep(cs: seq<Child>, prefix: Bytes)
    requires prefix != [] && TreeAt(cs, prefix).Some?
    ensures var k := FirstSlash(prefix);
            && k < |prefix|
            && var c := ChildNamed(cs, prefix[..k]);
               c.Some? && c.value.node.Dir? && TreeAt(cs, prefix) == TreeAt(c.value.node.children, prefix[k + 1..])
  {
  }

  // ----- the index of a tree -----

  ghost predicate HasPath(es: seq<Entry>, p: Bytes) {
    exists i :: 0 <= i < |es| && es[i].path == p
  }

  /** The entries are the files of the tree, in any order. */
  ghost predicate FilesOf(es: seq<Entry>, cs: seq<Child>) {
    forall p :: HasPath(es, p) <==> FileAt(cs, p).Some?
  }

  /** Creation archives the files of the tree. */
  lemma ArchiveFiles(c: Readers.Codec, s: Create.Settings, a: Create.Archived, cs: seq<Child>)
    requires WellFormed(cs) && Create.ArchiveOf(c, s, a, cs)
    ensures FilesOf(a.entries, cs)
  {
    forall p ensures HasPath(a.entries, p) <==> FileAt(cs, p).Some? { Create.EntriesMatchTree(c, s, a, cs, p); }
  }

  /** Their paths are valid, and none is a directory. */
  lemma IndexPaths(es: seq<Entry>, cs: seq<Child>)
    requires WellFormed(cs) && FilesOf(es, cs)
    ensures forall i :: 0 <= i < |es| ==> FileAt(cs, es[i].path).Some? && ValidElements(es[i].path)
    ensures NoFileIsDir(es)
  {
    forall i | 0 <= i < |es| ensures FileAt(cs, es[i].path).Some? && ValidElements(es[i].path) {
      assert HasPath(es, es[i].path);
      Create.TreePathsValid(cs, es[i].path);
    }
    forall i, j | 0 <= i < |es| && 0 <= j < |es| ensures !(es[i].path + [SLASH] <= es[j].path) {
      FileIsNoDir(cs, es[i].path, es[j].path);
    }
  }

  /** The children that the entries have in a directory are those of the tree. */
  lemma HasChildIff(es: seq<Entry>, cs: seq<Child>, dir: Bytes, d: DirEnt)
    requires WellFormed(cs) && FilesOf(es, cs)
    ensures HasChild(es, Prefix(dir), d) <==> TreeChild(cs, Prefix(dir), d)
  {
    var prefix := Prefix(dir);
    TreeChildIff(cs, prefix, d);
    if HasChild(es, prefix, d) {
      var i :| 0 <= i < |es| && prefix <= es[i].path && ChildOf(es[i].path, prefix) == d;
      assert HasPath(es, es[i].path);
      assert FileInChild(cs, prefix, es[i].path, d);
    }
    if u :| FileInChild(cs, prefix, u, d) {
      assert HasPath(es, u);
      var i :| 0 <= i < |es| && es[i].path == u;
      assert ChildOf(es[i].path, prefix) == d;
    }
  }

  // ----- name order over a sorted index -----

  lemma PairInOrder(cs: seq<Child>, prefix: Bytes, u: Bytes, v: Bytes)
    requires NoOvertaking(cs) && FileAt(cs, u).Some? && FileAt(cs, v).Some? && prefix <= u && prefix <= v
    requires prefix == [] || prefix[|prefix| - 1] == SLASH
    ensures !OutOfOrder(ChildOf(u, prefix), ChildOf(v, prefix))
  {
    var x, y := ChildOf(u, prefix), ChildOf(v, prefix);
    if OutOfOrder(x, y) { OutOfOrderOvertakes(cs, prefix, u, v, x, y); }
  }

  lemma OrderedIfClear(es: seq<Entry>, cs: seq<Child>, dir: Bytes)
    requires FilesOf(es, cs) && NoOvertaking(cs)
    ensures InNameOrder(es, Prefix(dir))
  {
    var prefix := Prefix(dir);
    forall i, j | 0 <= i < |es| && 0 <= j < |es| && prefix <= es[i].path && prefix <= es[j].path
      ensures !OutOfOrder(ChildOf(es[i].path, prefix), ChildOf(es[j].path, prefix))
    {
      assert HasPath(es, es[i].path) && HasPath(es, es[j].path);
      PairInOrder(cs, prefix, es[i].path, es[j].path);
    }
  }

  lemma DisorderedIfNot(es: seq<Entry>, cs: seq<Child>) returns (dir: Bytes)
    requires WellFormed(cs) && FilesOf(es, cs) && !NoOvertaking(cs)
    ensures !InNameOrder(es, Prefix(dir))
  {
    var d := OvertakingOutOfOrder(cs);
    assert HasPath(es, d.u) && HasPath(es, d.v);
    dir := DirOfPrefix(d.prefix);
    var i :| 0 <= i < |es| && es[i].path == d.u;
    var j :| 0 <= j < |es| && es[j].path == d.v;
    assert OutOfOrder(ChildOf(es[i].path, d.prefix), ChildOf(es[j].path, d.prefix));
  }

  lemma DirOfPrefix(prefix: Bytes) returns (dir: Bytes)
    requires IsPrefix(prefix)
    ensures Prefix(dir) == prefix
  {
    dir := if prefix == [] then [46] else prefix[..|prefix| - 1];
    FirstSlashOf([46], 1);
    assert [46][..1] == [46] && !ValidElements([46]);
    assert prefix != [] ==> prefix == dir + [SLASH];
  }

  lemma DirListed(es: seq<Entry>, cs: seq<Child>, dir: Bytes, d: DirEnt)
    requires WellFormed(cs) && Index.SortedByPath(es) && FilesOf(es, cs)
    ensures d in ReadDirOf(es, dir) <==> DirChild(cs, dir, d)
    ensures NameSorted(ReadDirOf(es, dir)) <==> InNameOrder(es, Prefix(dir))
  {
    IndexPaths(es, cs);
    Index.ScanSorted(es, Prefix(dir));
    PrefixListing(es, dir, d);
    HasChildIff(es, cs, dir, d);
    TreeChildIsDirChild(cs, dir, d);
  }

  /** A directory over a sorted index of a tree's files: the root directory lists exactly the
      tree's own children that hold a file, with their kinds, and another directory those of
      the directory that its path leads to. The listing is sorted by name exactly when the
      index says so. */
  lemma SortedListing(es: seq<Entry>, cs: seq<Child>, dir: Bytes, d: DirEnt)
    requires WellFormed(cs) && Index.SortedByPath(es) && FilesOf(es, cs)
    ensures d in ReadDirOf(es, [46]) <==> ChildHolding(cs, d)
    ensures dir != [46] ==>
              (d in ReadDirOf(es, dir) <==> DirAt(cs, dir).Some? && ChildHolding(DirAt(cs, dir).value, d))
    ensures NameSorted(ReadDirOf(es, dir)) <==> InNameOrder(es, Prefix(dir))
  {
    DirListed(es, cs, [46], d);
    DirListed(es, cs, dir, d);
  }

  /** Over a sorted index of a tree's files every listing is sorted by name if and only if no
      directory of the tree is overtaken by a sibling. */
  lemma SortedListingsIff(es: seq<Entry>, cs: seq<Child>)
    requires WellFormed(cs) && Index.SortedByPath(es) && FilesOf(es, cs)
    ensures (forall dir :: NameSorted(ReadDirOf(es, dir))) <==> NoOvertaking(cs)
  {
    if NoOvertaking(cs) {
      forall dir ensures NameSorted(ReadDirOf(es, dir)) {
        OrderedIfClear(es, cs, dir);
        SortedListing(es, cs, dir, DirEnt([], false));
      }
    } else {
      var dir := DisorderedIfNot(es, cs);
      SortedListing(es, cs, dir, DirEnt([], false));
    }
  }
}
