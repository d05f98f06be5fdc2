/**
  The order in which archive creation visits a file tree, and when that order is the
  byte order of the paths, which lookup and prefix scans rely on.
 */
module Walk {
  import opened Wrappers
  import opened Bytes

  /** A directory lists its children sorted by name. `Special` is whatever is neither a
      regular file nor a directory: it is visited and not archived. */
  datatype Node = File(data: Bytes) | Special | Dir(children: seq<Child>)
  datatype Child = Child(name: Bytes, node: Node)

  datatype Item = Item(path: Bytes, data: Bytes)

  predicate ValidName(n: Bytes) {
    n != [] && SLASH !in n && n != [46] && n != [46, 46]
  }

  ghost predicate WellFormed(cs: seq<Child>)
    decreases cs
  {
    && (forall i :: 0 <= i < |cs| ==> ValidName(cs[i].name))
    && (forall i, j :: 0 <= i < j < |cs| ==> Less(cs[i].name, cs[j].name))
    && (forall i :: 0 <= i < |cs| && cs[i].node.Dir? ==> WellFormed(cs[i].node.children))
  }

  /** What the walk emits for one child of the directory whose paths start with prefix. */
  function Visit(prefix: Bytes, c: Child): seq<Item>
    decreases c, 0
  {
    match c.node
    case File(data) => [Item(prefix + c.name, data)]
    case Special => []
    case Dir(cs) => WalkDir(prefix + c.name + [SLASH], cs)
  }

  function WalkDir(prefix: Bytes, cs: seq<Child>): seq<Item>
    decreases cs, 1
  {
    if cs == [] then [] else Visit(prefix, cs[0]) + WalkDir(prefix, cs[1..])
  }

  function Paths(items: seq<Item>): (ps: seq<Bytes>)
    ensures |ps| == |items| && forall i :: 0 <= i < |ps| ==> ps[i] == items[i].path
  {
    seq(|items|, i requires 0 <= i < |items| => items[i].path)
  }

  ghost predicate Sorted(items: seq<Item>) {
    StrictlySorted(Paths(items))
  }

  /** The child is an archived file or a directory with one somewhere below it. */
  ghost predicate HoldsFile(c: Child)
    decreases c, 0
  {
    match c.node
    case File(_) => true
    case Special => false
    case Dir(cs) => exists i :: 0 <= i < |cs| && HoldsFile(cs[i])
  }

  /** Directory d's entries sort after those of a sibling whose name is d's name
      followed by a byte below the slash. */
  predicate Overtakes(d: Child, y: Child) {
    d.node.Dir? && d.name < y.name && y.name[|d.name|] < SLASH
  }

  ghost predicate Compatible(d: Child, y: Child) {
    HoldsFile(d) && HoldsFile(y) ==> !Overtakes(d, y)
  }

  /** No directory holding archived files has such a sibling holding archived files. */
  ghost predicate NoOvertaking(cs: seq<Child>)
    decreases cs
  {
    && (forall i, j :: 0 <= i < |cs| && 0 <= j < |cs| ==> Compatible(cs[i], cs[j]))
    && (forall i :: 0 <= i < |cs| && cs[i].node.Dir? ==> NoOvertaking(cs[i].node.children))
  }

  // ----- paths below a child -----

  ghost predicate Below(prefix: Bytes, c: Child, p: Bytes) {
    var stem := prefix + c.name;
    if c.node.Dir? then stem + [SLASH] <= p else p == stem
  }

  lemma {:induction false} VisitBelow(prefix: Bytes, c: Child, k: nat)
    requires k < |Visit(prefix, c)|
    ensures Below(prefix, c, Visit(prefix, c)[k].path)
    decreases c, 0
  {
    if c.node.Dir? { WalkBelow(prefix + c.name + [SLASH], c.node.children, k); }
  }

  lemma {:induction false} WalkBelow(prefix: Bytes, cs: seq<Child>, k: nat)
    requires k < |WalkDir(prefix, cs)|
    ensures prefix <= WalkDir(prefix, cs)[k].path
    decreases cs, 1
  {
    var v := Visit(prefix, cs[0]);
    if k < |v| {
      VisitBelow(prefix, cs[0], k);
    } else {
      WalkBelow(prefix, cs[1..], k - |v|);
    }
  }

  lemma {:induction false} VisitEmptyIff(prefix: Bytes, c: Child)
    ensures HoldsFile(c) <==> Visit(prefix, c) != []
    decreases c, 0
  {
    if c.node.Dir? { WalkEmptyIff(prefix + c.name + [SLASH], c.node.children); }
  }

  lemma {:induction false} WalkEmptyIff(prefix: Bytes, cs: seq<Child>)
    ensures (exists i :: 0 <= i < |cs| && HoldsFile(cs[i])) <==> WalkDir(prefix, cs) != []
    decreases cs, 1
  {
    if cs != [] {
      VisitEmptyIff(prefix, cs[0]);
      WalkEmptyIff(prefix, cs[1..]);
      assert forall i :: 0 < i < |cs| ==> cs[i] == cs[1..][i - 1];
    }
  }

  // ----- two siblings -----

  /** For siblings x before y, every path below x is below every path below y in byte
      order, or every one is above, according to whether y overtakes x. */
  lemma SiblingsCompare(prefix: Bytes, x: Child, y: Child, p: Bytes, q: Bytes)
    requires ValidName(x.name) && ValidName(y.name) && Less(x.name, y.name)
    requires Below(prefix, x, p) && Below(prefix, y, q)
    ensures Less(p, q) <==> !Overtakes(x, y)
    ensures p != q
  {
    var r := q[|prefix + y.name|..];
    assert q == prefix + (y.name + r);
    if !x.node.Dir? {
      LessExtend(x.name, y.name, [], r);
      LessSamePrefix(prefix, x.name, y.name + r);
    } else {
      var u := p[|prefix + x.name|..];
      assert u[0] == SLASH;
      assert p == prefix + (x.name + u);
      LessSamePrefix(prefix, x.name + u, y.name + r);
      if x.name <= y.name {
        LessIrreflexive(x.name);
        assert |x.name| == |y.name| ==> x.name == y.name;
        var v := y.name[|x.name|..];
        assert v[0] in y.name;
        assert y.name + r == x.name + (v + r);
        LessSamePrefix(x.name, u, v + r);
      } else {
        LessExtend(x.name, y.name, u, r);
      }
      var at := |prefix + x.name|;
      assert p[at] == SLASH;
      assert Overtakes(x, y) ==> q[at] == y.name[|x.name|];
    }
    LessIrreflexive(p);
  }

  lemma SortedConcat(a: seq<Item>, b: seq<Item>)
    ensures Sorted(a + b) <==>
            Sorted(a) && Sorted(b) && forall i, j :: 0 <= i < |a| && 0 <= j < |b| ==> Less(a[i].path, b[j].path)
  {
    var ps := Paths(a + b);
    assert forall i :: 0 <= i < |a| ==> ps[i] == Paths(a)[i];
    assert forall j :: 0 <= j < |b| ==> ps[|a| + j] == Paths(b)[j];
    if Sorted(a + b) {
      forall i, j | 0 <= i < j < |b| ensures Less(Paths(b)[i], Paths(b)[j]) {
        assert Less(ps[|a| + i], ps[|a| + j]);
      }
      forall i, j | 0 <= i < |a| && 0 <= j < |b| ensures Less(a[i].path, b[j].path) {
        assert Less(ps[i], ps[|a| + j]);
      }
    }
  }

  ghost predicate AllBelow(a: seq<Item>, b: seq<Item>) {
    forall i, j :: 0 <= i < |a| && 0 <= j < |b| ==> Less(a[i].path, b[j].path)
  }

  lemma PairBelowIff(prefix: Bytes, x: Child, y: Child)
    requires ValidName(x.name) && ValidName(y.name) && Less(x.name, y.name)
    ensures AllBelow(Visit(prefix, x), Visit(prefix, y)) <==> Compatible(x, y)
  {
    VisitEmptyIff(prefix, x);
    VisitEmptyIff(prefix, y);
    var a, b := Visit(prefix, x), Visit(prefix, y);
    forall i, j | 0 <= i < |a| && 0 <= j < |b| ensures Less(a[i].path, b[j].path) <==> !Overtakes(x, y) {
      VisitBelow(prefix, x, i);
      VisitBelow(prefix, y, j);
      SiblingsCompare(prefix, x, y, a[i].path, b[j].path);
    }
    if a != [] && b != [] { assert Less(a[0].path, b[0].path) <==> !Overtakes(x, y); }
  }

  lemma {:induction false} RestBelowIff(prefix: Bytes, x: Child, rest: seq<Child>)
    requires ValidName(x.name)
    requires forall j :: 0 <= j < |rest| ==> ValidName(rest[j].name) && Less(x.name, rest[j].name)
    ensures AllBelow(Visit(prefix, x), WalkDir(prefix, rest)) <==>
            forall j :: 0 <= j < |rest| ==> Compatible(x, rest[j])
  {
    if rest != [] {
      var a, b, c := Visit(prefix, x), Visit(prefix, rest[0]), WalkDir(prefix, rest[1..]);
      PairBelowIff(prefix, x, rest[0]);
      RestBelowIff(prefix, x, rest[1..]);
      assert forall j :: 0 < j < |rest| ==> rest[j] == rest[1..][j - 1];
      assert AllBelow(a, b + c) ==> AllBelow(a, c) by {
        assert forall j :: 0 <= j < |c| ==> (b + c)[|b| + j] == c[j];
      }
      assert AllBelow(a, b + c) ==> AllBelow(a, b) by {
        assert forall j :: 0 <= j < |b| ==> (b + c)[j] == b[j];
      }
    }
  }

  lemma EarlierNotOvertaken(d: Child, y: Child)
    requires d == y || Less(y.name, d.name)
    ensures Compatible(d, y)
  {
    if d.name <= y.name {
      PrefixLess(d.name, y.name);
      LessIrreflexive(d.name);
      if d != y { LessAsymmetric(y.name, d.name); }
    }
  }

  lemma RestWellFormed(cs: seq<Child>)
    requires cs != [] && WellFormed(cs)
    ensures WellFormed(cs[1..])
    ensures forall j :: 0 <= j < |cs| - 1 ==> ValidName(cs[1..][j].name) && Less(cs[0].name, cs[1..][j].name)
  {
    var rest := cs[1..];
    assert forall j :: 0 <= j < |rest| ==> rest[j] == cs[j + 1];
  }

  lemma NoOvertakingSplit(cs: seq<Child>)
    requires cs != [] && NoOvertaking(cs)
    ensures cs[0].node.Dir? ==> NoOvertaking(cs[0].node.children)
    ensures NoOvertaking(cs[1..])
    ensures forall j :: 0 <= j < |cs| - 1 ==> Compatible(cs[0], cs[1..][j])
  {
    var rest := cs[1..];
    forall j | 0 <= j < |rest| ensures Compatible(cs[0], rest[j]) { assert rest[j] == cs[j + 1]; }
    forall i, j | 0 <= i < |rest| && 0 <= j < |rest| ensures Compatible(rest[i], rest[j]) {
      assert Compatible(cs[i + 1], cs[j + 1]);
    }
    forall i | 0 <= i < |rest| && rest[i].node.Dir? ensures NoOvertaking(rest[i].node.children) {
      assert rest[i] == cs[i + 1];
    }
  }

  lemma NoOvertakingJoin(cs: seq<Child>)
    requires cs != [] && forall j :: 0 < j < |cs| ==> Less(cs[0].name, cs[j].name)
    requires cs[0].node.Dir? ==> NoOvertaking(cs[0].node.children)
    requires NoOvertaking(cs[1..])
    requires forall j :: 0 <= j < |cs| - 1 ==> Compatible(cs[0], cs[1..][j])
    ensures NoOvertaking(cs)
  {
    var rest := cs[1..];
    forall i, j | 0 <= i < |cs| && 0 <= j < |cs| ensures Compatible(cs[i], cs[j]) {
      if j == 0 { EarlierNotOvertaken(cs[i], cs[0]); }
      else if i == 0 { assert Compatible(cs[0], rest[j - 1]); }
      else { assert Compatible(rest[i - 1], rest[j - 1]); }
    }
    forall i | 0 <= i < |cs| && cs[i].node.Dir? ensures NoOvertaking(cs[i].node.children) {
      if i > 0 { assert cs[i] == rest[i - 1]; }
    }
  }

  /** Creation lists the archived files in strict byte order of their paths exactly when
      no directory holding archived files has a sibling holding one whose name is the
      directory's name followed by a byte below the slash. */
  lemma {:induction false} WalkSortedIff(prefix: Bytes, cs: seq<Child>)
    requires WellFormed(cs)
    ensures Sorted(WalkDir(prefix, cs)) <==> NoOvertaking(cs)
    decreases cs
  {
    if cs != [] {
      var x, rest := cs[0], cs[1..];
      RestWellFormed(cs);
      WalkSortedIff(prefix, rest);
      if x.node.Dir? { WalkSortedIff(prefix + x.name + [SLASH], x.node.children); }
      RestBelowIff(prefix, x, rest);
      SortedConcat(Visit(prefix, x), WalkDir(prefix, rest));
      assert |Paths([])| == 0;
      if NoOvertaking(cs) { NoOvertakingSplit(cs); }
      if Sorted(WalkDir(prefix, cs)) { NoOvertakingJoin(cs); }
    }
  }

  // ----- the walk emits every file of the tree once -----

  ghost predicate DistinctPaths(items: seq<Item>) {
    forall i, j :: 0 <= i < j < |items| ==> items[i].path != items[j].path
  }

  ghost predicate Apart(a: seq<Item>, b: seq<Item>) {
    forall i, j :: 0 <= i < |a| && 0 <= j < |b| ==> a[i].path != b[j].path
  }

  lemma {:induction false} WalkDistinct(prefix: Bytes, cs: seq<Child>)
    requires WellFormed(cs)
    ensures DistinctPaths(WalkDir(prefix, cs))
    decreases cs
  {
    if cs != [] {
      RestWellFormed(cs);
      WalkDistinct(prefix, cs[1..]);
      if cs[0].node.Dir? { WalkDistinct(prefix + cs[0].name + [SLASH], cs[0].node.children); }
      RestApart(prefix, cs[0], cs[1..]);
      DistinctConcat(Visit(prefix, cs[0]), WalkDir(prefix, cs[1..]));
    }
  }

  lemma DistinctConcat(a: seq<Item>, b: seq<Item>)
    requires DistinctPaths(a) && DistinctPaths(b)
    requires Apart(a, b)
    ensures DistinctPaths(a + b)
  {
    forall i, j | 0 <= i < j < |a + b| ensures (a + b)[i].path != (a + b)[j].path {
      if i < |a| <= j { assert (a + b)[j] == b[j - |a|]; }
      else if |a| <= i { assert (a + b)[i] == b[i - |a|] && (a + b)[j] == b[j - |a|]; }
    }
  }

  lemma {:induction false} RestApart(prefix: Bytes, x: Child, rest: seq<Child>)
    requires ValidName(x.name)
    requires forall j :: 0 <= j < |rest| ==> ValidName(rest[j].name) && Less(x.name, rest[j].name)
    ensures Apart(Visit(prefix, x), WalkDir(prefix, rest))
  {
    if rest != [] {
      RestApart(prefix, x, rest[1..]);
      var a, b, c := Visit(prefix, x), Visit(prefix, rest[0]), WalkDir(prefix, rest[1..]);
      var bc := b + c;
      forall i, j | 0 <= i < |a| && 0 <= j < |bc| ensures a[i].path != bc[j].path {
        if j < |b| {
          VisitBelow(prefix, x, i);
          VisitBelow(prefix, rest[0], j);
          SiblingsCompare(prefix, x, rest[0], a[i].path, b[j].path);
        } else {
          assert bc[j] == c[j - |b|];
        }
      }
    }
  }

  function FirstSlash(p: Bytes): (k: nat)
    ensures k <= |p| && SLASH !in p[..k] && (k < |p| ==> p[k] == SLASH)
  {
    if p == [] || p[0] == SLASH then 0
    else
      var k := FirstSlash(p[1..]);
      assert p[..k + 1] == [p[0]] + p[1..][..k];
      k + 1
  }

  /** Every component of the path is a proper name. */
  predicate ValidElements(p: Bytes)
    decreases |p|
  {
    var k := FirstSlash(p);
    ValidName(p[..k]) && (k == |p| || ValidElements(p[k + 1..]))
  }

  /** p[i..j] is a component: it reaches from the start or a slash to the next slash or the end. */
  ghost predicate Component(p: Bytes, i: nat, j: nat) {
    i <= j <= |p| && SLASH !in p[i..j] && (i == 0 || p[i - 1] == SLASH) && (j == |p| || p[j] == SLASH)
  }

  /** The component is not empty, "." or "..". */
  ghost predicate Proper(p: Bytes, i: nat, j: nat)
    requires i <= j <= |p|
  {
    p[i..j] != [] && p[i..j] != [46] && p[i..j] != [46, 46]
  }

  ghost predicate ProperComponents(p: Bytes) {
    forall i: nat, j: nat :: Component(p, i, j) ==> Proper(p, i, j)
  }

  lemma FirstComponentIs(p: Bytes, i: nat, j: nat)
    requires Component(p, i, j) && i <= FirstSlash(p)
    ensures i == 0 && j == FirstSlash(p)
  {
    var k := FirstSlash(p);
    assert forall m :: 0 <= m < k ==> p[m] == p[..k][m];
    assert forall m :: i <= m < j ==> p[m] == p[i..j][m - i];
  }

  lemma LaterComponent(p: Bytes, k: nat, i: nat, j: nat)
    requires k < |p| && p[k] == SLASH && k < i <= j
    ensures Component(p, i, j) <==> Component(p[k + 1..], i - k - 1, j - k - 1)
    ensures Component(p, i, j) ==> p[i..j] == p[k + 1..][i - k - 1..j - k - 1]
  {
    var r := p[k + 1..];
    assert j <= |p| ==> p[i..j] == r[i - k - 1..j - k - 1];
    assert i > k + 1 && i <= |p| ==> p[i - 1] == r[i - k - 2];
    assert j < |p| ==> p[j] == r[j - k - 1];
  }

  /** The components are the first one and those of the rest. */
  lemma ProperFromRest(p: Bytes, k: nat)
    requires k == FirstSlash(p) < |p| && ProperComponents(p[k + 1..]) && ValidName(p[..k])
    ensures ProperComponents(p)
  {
    forall i: nat, j: nat | Component(p, i, j) ensures Proper(p, i, j) {
      if i <= k { FirstComponentIs(p, i, j); } else { LaterComponent(p, k, i, j); }
    }
  }

  lemma RestFromProper(p: Bytes, k: nat)
    requires k == FirstSlash(p) < |p| && ProperComponents(p)
    ensures ProperComponents(p[k + 1..])
  {
    var r := p[k + 1..];
    forall i: nat, j: nat | Component(r, i, j) ensures Proper(r, i, j) {
      LaterComponent(p, k, i + k + 1, j + k + 1);
      assert Proper(p, i + k + 1, j + k + 1);
    }
  }

  lemma OnlyComponent(p: Bytes)
    requires FirstSlash(p) == |p| && ValidName(p)
    ensures ProperComponents(p)
  {
    forall i: nat, j: nat | Component(p, i, j) ensures Proper(p, i, j) { FirstComponentIs(p, i, j); }
  }

  /** Valid paths are those whose components are all proper. */
  lemma {:induction false} ValidElementsIff(p: Bytes)
    ensures ValidElements(p) <==> ProperComponents(p)
    decreases |p|
  {
    var k := FirstSlash(p);
    assert p[0..k] == p[..k] && p[..|p|] == p;
    assert Component(p, 0, k) && (Proper(p, 0, k) ==> ValidName(p[..k]));
    if k < |p| {
      ValidElementsIff(p[k + 1..]);
      if ValidElements(p) { ProperFromRest(p, k); }
      if ProperComponents(p) { RestFromProper(p, k); }
    } else if ValidElements(p) {
      OnlyComponent(p);
    }
  }

  function ChildNamed(cs: seq<Child>, name: Bytes): (c: Option<Child>)
    ensures c.Some? ==> c.value in cs && c.value.name == name
    ensures c.None? ==> forall i :: 0 <= i < |cs| ==> cs[i].name != name
  {
    if cs == [] then None
    else if cs[0].name == name then Some(cs[0])
    else ChildNamed(cs[1..], name)
  }

  /** The content of the regular file at a path, found by descending the tree one path
      component at a time. */
  function FileAt(cs: seq<Child>, p: Bytes): Option<Bytes>
    decreases |p|
  {
    var k := FirstSlash(p);
    var c := ChildNamed(cs, p[..k]);
    if c.None? then None
    else match c.value.node
         case File(data) => if k == |p| then Some(data) else None
         case Special => None
         case Dir(ds) => if k == |p| then None else FileAt(ds, p[k + 1..])
  }

  lemma {:induction false} WalkMember(prefix: Bytes, cs: seq<Child>, it: Item)
    ensures it in WalkDir(prefix, cs) <==> exists c :: c in cs && it in Visit(prefix, c)
  {
    if cs != [] {
      WalkMember(prefix, cs[1..], it);
      assert forall c :: c in cs <==> c == cs[0] || c in cs[1..];
      if it in Visit(prefix, cs[0]) {
        assert cs[0] in cs;
      } else if it in WalkDir(prefix, cs[1..]) {
        var c :| c in cs[1..] && it in Visit(prefix, c);
        assert c in cs;
      }
    }
  }

  /** What descending does at one child whose name is the first path component. */
  function FileIn(c: Child, p: Bytes): Option<Bytes> {
    var k := FirstSlash(p);
    if p[..k] != c.name then None
    else match c.node
         case File(data) => if k == |p| then Some(data) else None
         case Special => None
         case Dir(ds) => if k == |p| then None else FileAt(ds, p[k + 1..])
  }

  lemma {:induction false} FirstSlashAt(name: Bytes, rest: Bytes)
    requires SLASH !in name && (rest == [] || rest[0] == SLASH)
    ensures FirstSlash(name + rest) == |name| && (name + rest)[..|name|] == name
  {
    if name == [] {
      assert name + rest == rest;
    } else {
      assert (name + rest)[1..] == name[1..] + rest;
      FirstSlashAt(name[1..], rest);
    }
  }

  lemma VisitFileIff(prefix: Bytes, c: Child, p: Bytes, d: Bytes)
    requires ValidName(c.name) && c.node.File?
    ensures Item(prefix + p, d) in Visit(prefix, c) <==> FileIn(c, p) == Some(d)
  {
    assert prefix + p == prefix + c.name ==> p == (prefix + p)[|prefix|..] == (prefix + c.name)[|prefix|..] == c.name;
    FirstSlashAt(c.name, []);
    assert c.name + [] == c.name;
    assert p[..|p|] == p;
  }

  /** What the walk of a subdirectory emits has the subdirectory's name in front. */
  lemma WalkedBelow(prefix: Bytes, name: Bytes, ds: seq<Child>, p: Bytes, d: Bytes)
    requires ValidName(name) && WellFormed(ds) && Item(prefix + p, d) in WalkDir(prefix + name + [SLASH], ds)
    ensures FirstSlash(p) == |name| < |p| && p[..|name|] == name
  {
    var below := prefix + name + [SLASH];
    var it := Item(prefix + p, d);
    var n :| 0 <= n < |WalkDir(below, ds)| && WalkDir(below, ds)[n] == it;
    WalkBelow(below, ds, n);
    SplitBelow(prefix, name, p);
    FirstSlashAt(name, [SLASH] + p[|name| + 1..]);
  }

  lemma PathBelow(prefix: Bytes, name: Bytes, p: Bytes)
    requires |name| < |p| && p[..|name|] == name && p[|name|] == SLASH
    ensures prefix + p == prefix + name + [SLASH] + p[|name| + 1..]
  {
    assert p == p[..|name|] + [p[|name|]] + p[|name| + 1..];
  }

  lemma SplitBelow(prefix: Bytes, name: Bytes, p: Bytes)
    requires prefix + name + [SLASH] <= prefix + p
    ensures |name| < |p| && p == name + ([SLASH] + p[|name| + 1..])
  {
    var below, path := prefix + name + [SLASH], prefix + p;
    forall i | 0 <= i <= |name| ensures p[i] == (name + [SLASH])[i] {
      assert path[|prefix| + i] == below[|prefix| + i];
    }
  }

  lemma {:induction false} VisitIff(prefix: Bytes, c: Child, p: Bytes, d: Bytes)
    requires ValidName(c.name) && (c.node.Dir? ==> WellFormed(c.node.children))
    ensures Item(prefix + p, d) in Visit(prefix, c) <==> FileIn(c, p) == Some(d)
    decreases c, 0
  {
    match c.node {
      case File(_) => VisitFileIff(prefix, c, p, d);
      case Special =>
      case Dir(ds) =>
        var below := prefix + c.name + [SLASH];
        var it := Item(prefix + p, d);
        var k := FirstSlash(p);
        if it in WalkDir(below, ds) { WalkedBelow(prefix, c.name, ds, p, d); }
        if p[..k] == c.name && k < |p| {
          PathBelow(prefix, c.name, p);
          WalkIffFileAt(below, ds, p[k + 1..], d);
        }
    }
  }

  /** The walk emits exactly the regular files of the tree, each under the path that
      descending the tree component by component finds it at. */
  lemma {:induction false} WalkIffFileAt(prefix: Bytes, cs: seq<Child>, p: Bytes, d: Bytes)
    requires WellFormed(cs)
    ensures Item(prefix + p, d) in WalkDir(prefix, cs) <==> FileAt(cs, p) == Some(d)
    decreases cs, 1
  {
    var it := Item(prefix + p, d);
    WalkMember(prefix, cs, it);
    forall c | c in cs ensures it in Visit(prefix, c) <==> FileIn(c, p) == Some(d) {
      VisitIff(prefix, c, p, d);
    }
    var k := FirstSlash(p);
    forall c | c in cs && c.name == p[..k] ensures ChildNamed(cs, p[..k]) == Some(c) {
      NamesUnique(cs, c);
    }
  }

  lemma {:induction false} NamesUnique(cs: seq<Child>, c: Child)
    requires c in cs && forall i, j :: 0 <= i < j < |cs| ==> Less(cs[i].name, cs[j].name)
    ensures ChildNamed(cs, c.name) == Some(c)
  {
    if cs[0] != c {
      var j :| 0 < j < |cs| && cs[j] == c;
      LessIrreflexive(c.name);
      assert Less(cs[0].name, cs[j].name);
      assert c == cs[1..][j - 1];
      NamesUnique(cs[1..], c);
    }
  }
}
