/**
  A cache directory as a map from paths to files, and the oldest-first pruning shared by
  all disk caches.
 */
module Disk {
  import opened Bytes

  datatype FileRec = FileRec(data: Bytes, mtime: int)
  type Dir = map<Bytes, FileRec>

  // ----- the size of a directory -----

  ghost function TotalSize(d: Dir): nat {
    if d.Keys == {} then 0
    else
      var p :| p in d.Keys;
      |d[p].data| + TotalSize(d - {p})
  }

  /** Any file can be counted first. */
  lemma {:induction false} TotalWithout(d: Dir, p: Bytes)
    requires p in d
    ensures TotalSize(d) == |d[p].data| + TotalSize(d - {p})
    decreases |d|
  {
    var q :| q in d.Keys && TotalSize(d) == |d[q].data| + TotalSize(d - {q});
    if p != q {
      TotalWithout(d - {q}, p);
      TotalWithout(d - {p}, q);
      assert d - {q} - {p} == d - {p} - {q};
    }
  }

  lemma TotalWith(d: Dir, p: Bytes, f: FileRec)
    requires p !in d
    ensures TotalSize(d[p := f]) == TotalSize(d) + |f.data|
  {
    var e := d[p := f];
    TotalWithout(e, p);
    assert e - {p} == d;
  }

  lemma {:induction false} TotalSubset(d: Dir, R: set<Bytes>)
    ensures TotalSize(d - R) <= TotalSize(d)
    decreases |d|
  {
    if d.Keys !! R {
      assert d - R == d;
    } else {
      var p :| p in d && p in R;
      var e := d - {p};
      TotalSubset(e, R);
      TotalWithout(d, p);
      RemoveAgain(d, p, R);
    }
  }

  lemma RemoveAgain(d: Dir, p: Bytes, R: set<Bytes>)
    requires p in R
    ensures d - {p} - R == d - R
  {
  }

  // ----- age -----

  /** a was modified before b, or at the same time and its path is smaller. */
  predicate Older(d: Dir, a: Bytes, b: Bytes)
    requires a in d && b in d
  {
    if d[a].mtime == d[b].mtime then Less(a, b) else d[a].mtime < d[b].mtime
  }

  lemma OlderTotal(d: Dir, a: Bytes, b: Bytes)
    requires a in d && b in d
    ensures a == b || Older(d, a, b) || Older(d, b, a)
  {
    LessTotal(a, b);
  }

  lemma OlderTransitive(d: Dir, a: Bytes, b: Bytes, c: Bytes)
    requires a in d && b in d && c in d && Older(d, a, b) && Older(d, b, c)
    ensures Older(d, a, c)
  {
    if d[a].mtime == d[b].mtime == d[c].mtime { LessTransitive(a, b, c); }
  }

  lemma OlderAsymmetric(d: Dir, a: Bytes, b: Bytes)
    requires a in d && b in d && Older(d, a, b)
    ensures a != b && !Older(d, b, a)
  {
    if d[a].mtime == d[b].mtime { LessAsymmetric(a, b); }
  }

  // ----- what pruning means -----

  /** Removing R from d is pruning to target t: R is closed downwards in age, what is left
      fits, and keeping the youngest removed file would not. */
  ghost predicate Pruned(d: Dir, t: nat, R: set<Bytes>) {
    && R <= d.Keys
    && TotalSize(d - R) <= t
    && (forall a, b :: a in R && b in d && b !in R ==> Older(d, a, b))
    && (R != {} ==> exists y :: y in R && Youngest(d, R, y) && TotalSize(d - R) + |d[y].data| > t)
  }

  ghost predicate Youngest(d: Dir, R: set<Bytes>, y: Bytes)
    requires R <= d.Keys && y in R
  {
    forall a :: a in R && a != y ==> Older(d, a, y)
  }

  lemma PrunedNested(d: Dir, t: nat, R: set<Bytes>, Q: set<Bytes>)
    requires Pruned(d, t, R) && Pruned(d, t, Q)
    ensures R <= Q
  {
    if !(R <= Q) {
      var y :| y in R && Youngest(d, R, y) && TotalSize(d - R) + |d[y].data| > t;
      var x :| x in R && x !in Q;
      forall q | q in Q ensures q in R && q != y {
        assert Older(d, q, x);
        if q !in R { assert Older(d, x, q); OlderAsymmetric(d, q, x); }
        if q == y && x != y { assert Older(d, x, y); OlderAsymmetric(d, x, y); }
      }
      var R' := R - {y};
      TotalWithout(d - R', y);
      assert d - R' - {y} == d - R;
      assert d - R' == (d - Q) - R';
      TotalSubset(d - Q, R');
    }
  }

  /** There is only one way to prune: the shortest run of oldest files. */
  lemma PruneUnique(d: Dir, t: nat, R: set<Bytes>, Q: set<Bytes>)
    requires Pruned(d, t, R) && Pruned(d, t, Q)
    ensures R == Q
  {
    PrunedNested(d, t, R, Q);
    PrunedNested(d, t, Q, R);
  }

  /** The files younger than one modified at `mtime` under the path x. */
  function YoungerThan(d: Dir, mtime: int, x: Bytes): Dir {
    map p | p in d && (if d[p].mtime == mtime then Less(x, p) else mtime < d[p].mtime) :: d[p]
  }

  /** What pruning removes, file by file: exactly the files that do not fit together with
      everything younger. */
  lemma RemovedIff(d: Dir, t: nat, R: set<Bytes>, x: Bytes)
    requires Pruned(d, t, R) && x in d
    ensures x in R <==> |d[x].data| + TotalSize(YoungerThan(d, d[x].mtime, x)) > t
  {
    var Y := YoungerThan(d, d[x].mtime, x);
    LessIrreflexive(x);
    TotalWith(Y, x, d[x]);
    if x in R {
      var y :| y in R && Youngest(d, R, y) && TotalSize(d - R) + |d[y].data| > t;
      TotalWith(d - R, y, d[y]);
      var Z := (d - R)[y := d[y]];
      assert forall p :: p in Z && p != x ==> Older(d, x, p);
      TotalOfPart(Y[x := d[x]], Z);
    } else {
      forall p | p in Y ensures p !in R {
        assert Older(d, x, p);
        OlderAsymmetric(d, x, p);
      }
      TotalOfPart(d - R, Y[x := d[x]]);
    }
  }

  lemma TotalOfPart(d: Dir, e: Dir)
    requires forall p :: p in e ==> p in d && d[p] == e[p]
    ensures TotalSize(e) <= TotalSize(d)
  {
    var R := d.Keys - e.Keys;
    assert d - R == e;
    TotalSubset(d, R);
  }

  // ----- pruneDir -----

  ghost predicate SortedByAge(d: Dir, ps: seq<Bytes>) {
    && (forall i :: 0 <= i < |ps| ==> ps[i] in d)
    && (forall i, j :: 0 <= i < j < |ps| ==> Older(d, ps[i], ps[j]))
  }

  /** Insert a path into an age-sorted list. */
  method InsertByAge(d: Dir, ps: seq<Bytes>, p: Bytes) returns (out: seq<Bytes>)
    requires SortedByAge(d, ps) && p in d && p !in ps
    ensures SortedByAge(d, out) && forall q :: q in out <==> q in ps || q == p
  {
    var i := |ps|;
    while i > 0 && Older(d, p, ps[i - 1])
      invariant 0 <= i <= |ps|
      invariant forall k :: i <= k < |ps| ==> Older(d, p, ps[k])
    {
      i := i - 1;
    }
    out := ps[..i] + [p] + ps[i..];
    forall k | 0 <= k < i ensures Older(d, ps[k], p) {
      OlderTotal(d, ps[i - 1], p);
      if k < i - 1 { OlderTransitive(d, ps[k], ps[i - 1], p); }
    }
    forall k, l | 0 <= k < l < |out| ensures Older(d, out[k], out[l]) {}
  }

  /** The walk over the directory collects every file and the total size. */
  method CollectByAge(d: Dir) returns (ps: seq<Bytes>, total: nat)
    ensures SortedByAge(d, ps) && (forall p :: p in ps <==> p in d)
    ensures total == TotalSize(d)
  {
    ps, total := [], 0;
    var left := d.Keys;
    assert d - (d.Keys - left) == d;
    while left != {}
      invariant left <= d.Keys && SortedByAge(d, ps)
      invariant forall p :: p in ps <==> p in d && p !in left
      invariant total + TotalSize(d - (d.Keys - left)) == TotalSize(d)
      decreases left
    {
      var p :| p in left;
      var rest := d - (d.Keys - left);
      TotalWithout(rest, p);
      assert rest - {p} == d - (d.Keys - (left - {p}));
      ps := InsertByAge(d, ps, p);
      total := total + |d[p].data|;
      left := left - {p};
    }
    assert d - d.Keys == map[];
  }

  /** pruneDir when every removal succeeds. */
  method PruneDir(d: Dir, targetBytes: int) returns (kept: Dir, freed: nat, remaining: nat)
    ensures var t := if targetBytes < 0 then 0 else targetBytes;
            Pruned(d, t, d.Keys - kept.Keys)
    ensures kept == d - (d.Keys - kept.Keys)
    ensures forall a, b :: a in d && a !in kept && b in kept ==>
              b in d && (d[a].mtime < d[b].mtime || (d[a].mtime == d[b].mtime && Less(a, b)))
    ensures remaining == TotalSize(kept) && freed + remaining == TotalSize(d)
  {
    var target := if targetBytes < 0 then 0 else targetBytes;
    var ps, total := CollectByAge(d);
    NothingPruned(d);
    if total <= target { return d, 0, total; }
    var i;
    ghost var R;
    kept, freed, remaining, i, R := RemoveOldest(d, ps, total, target);
    RemovedAll(d, ps, i, R);
    PrefixPruned(d, target, ps, i, R);
  }

  /** The removal loop of pruneDir: how far it goes, and what is left. */
  method RemoveOldest(d: Dir, ps: seq<Bytes>, total: nat, target: nat)
    returns (kept: Dir, freed: nat, remaining: nat, i: nat, ghost R: set<Bytes>)
    requires SortedByAge(d, ps) && total == TotalSize(d) > target
    ensures i <= |ps| && FirstPaths(d, ps, i, R) && kept == d - R
    ensures remaining == TotalSize(kept) && freed + remaining == TotalSize(d)
    ensures i < |ps| ==> remaining <= target
    ensures if i == 0 then remaining > target else remaining + |d[ps[i - 1]].data| > target
  {
    kept, freed, remaining := d, 0, total;
    i, R := 0, {};
    while i < |ps| && remaining > target
      invariant i <= |ps| && FirstPaths(d, ps, i, R) && kept == d - R
      invariant remaining == TotalSize(d - R) && freed + remaining == TotalSize(d)
      invariant if i == 0 then remaining > target else remaining + |d[ps[i - 1]].data| > target
    {
      var p := ps[i];
      RemoveNext(d, ps, i, R);
      R := R + {p};
      kept := kept - {p};
      remaining := remaining - |d[p].data|;
      freed := freed + |d[p].data|;
      i := i + 1;
    }
  }

  lemma NothingPruned(d: Dir)
    ensures d - {} == d && d.Keys - d.Keys == {}
    ensures forall t: nat :: TotalSize(d) <= t ==> Pruned(d, t, {})
  {
    assert d - {} == d;
  }

  /** R holds the first i paths of ps. */
  ghost predicate FirstPaths(d: Dir, ps: seq<Bytes>, i: nat, R: set<Bytes>)
    requires i <= |ps|
  {
    R <= d.Keys && forall p :: p in R <==> p in ps[..i]
  }

  lemma RemoveNext(d: Dir, ps: seq<Bytes>, i: nat, R: set<Bytes>)
    requires SortedByAge(d, ps) && i < |ps| && FirstPaths(d, ps, i, R)
    ensures ps[i] in d && ps[i] !in R && (d - R) - {ps[i]} == d - (R + {ps[i]})
    ensures TotalSize(d - R) == |d[ps[i]].data| + TotalSize(d - (R + {ps[i]}))
    ensures FirstPaths(d, ps, i + 1, R + {ps[i]})
  {
    var p := ps[i];
    AgeDistinct(d, ps, i);
    assert ps[..i + 1] == ps[..i] + [p];
    assert (d - R) - {p} == d - (R + {p});
    TotalWithout(d - R, p);
  }

  lemma RemovedAll(d: Dir, ps: seq<Bytes>, i: nat, R: set<Bytes>)
    requires (forall p :: p in ps <==> p in d) && i <= |ps| && FirstPaths(d, ps, i, R)
    ensures d.Keys - (d - R).Keys == R
    ensures i == |ps| ==> TotalSize(d - R) == 0
  {
    if i == |ps| {
      assert ps[..i] == ps;
      assert d - R == map[];
    }
  }

  lemma AgeDistinct(d: Dir, ps: seq<Bytes>, i: nat)
    requires SortedByAge(d, ps) && i < |ps|
    ensures ps[i] !in ps[..i]
  {
    forall k | 0 <= k < i ensures ps[k] != ps[i] { OlderAsymmetric(d, ps[k], ps[i]); }
  }

  /** The first i paths in age order are a pruning if what is left fits and the last of
      them was needed. */
  lemma PrefixPruned(d: Dir, t: nat, ps: seq<Bytes>, i: nat, R: set<Bytes>)
    requires SortedByAge(d, ps) && (forall p :: p in ps <==> p in d)
    requires 0 < i <= |ps| && FirstPaths(d, ps, i, R)
    requires TotalSize(d - R) <= t < TotalSize(d - R) + |d[ps[i - 1]].data|
    ensures Pruned(d, t, R)
  {
    var y := ps[i - 1];
    assert y in ps[..i];
    forall a | a in R && a != y ensures Older(d, a, y) {
      var k :| 0 <= k < i && ps[k] == a;
    }
    assert Youngest(d, R, y);
    assert forall m :: 0 <= m < i ==> ps[m] in ps[..i];
    forall a, b | a in R && b in d && b !in R ensures Older(d, a, b) {
      var k :| 0 <= k < i && ps[k] == a;
      var l :| 0 <= l < |ps| && ps[l] == b;
    }
  }
}
