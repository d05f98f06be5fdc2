/** Binary search by path and prefix scans over the entries of an index. */
module Index {
  import opened Wrappers
  import opened Bytes
  import opened Archive

  function Paths(es: seq<Entry>): (ps: seq<Bytes>)
    ensures |ps| == |es| && forall i :: 0 <= i < |ps| ==> ps[i] == es[i].path
  {
    seq(|es|, i requires 0 <= i < |es| => es[i].path)
  }

  ghost predicate SortedByPath(es: seq<Entry>) {
    StrictlySorted(Paths(es))
  }

  // ----- lookup -----

  /** The search from `start` over `span` entries. */
  function Search(es: seq<Entry>, key: Bytes, start: nat, span: nat): (r: Option<nat>)
    requires start + span <= |es|
    ensures r.Some? ==> start <= r.value < start + span && es[r.value].path == key
    decreases span
  {
    if span == 0 then None
    else
      var middle := span / 2;
      var p := es[start + middle].path;
      if Less(key, p) then Search(es, key, start, middle)
      else if Less(p, key) then Search(es, key, start + middle + 1, span - (middle + 1))
      else (LessTotal(p, key); Some(start + middle))
  }

  function Lookup(es: seq<Entry>, key: Bytes): Option<Entry> {
    var r := Search(es, key, 0, |es|);
    if r.None? then None else Some(es[r.value])
  }

  method LookupByKey(es: seq<Entry>, key: Bytes) returns (r: Option<Entry>)
    ensures r == Lookup(es, key)
    ensures r.Some? ==> r.value in es && r.value.path == key
    ensures SortedByPath(es) ==> (r.None? <==> forall e :: e in es ==> e.path != key)
  {
    var start, span := 0, |es|;
    while span != 0
      invariant 0 <= start && 0 <= span && start + span <= |es|
      invariant Search(es, key, start, span) == Search(es, key, 0, |es|)
      decreases span
    {
      var middle := span / 2;
      var p := es[start + middle].path;
      if Less(key, p) {
        span := middle;
      } else if Less(p, key) {
        middle := middle + 1;
        start := start + middle;
        span := span - middle;
      } else {
        LessTotal(p, key);
        return Some(es[start + middle]);
      }
    }
    if SortedByPath(es) { LookupFinds(es, key); }
    return None;
  }

  /** In a sorted index the search misses nothing in its window. */
  lemma {:induction false} SearchFinds(es: seq<Entry>, key: Bytes, start: nat, span: nat, k: nat)
    requires start <= k < start + span <= |es| && SortedByPath(es) && es[k].path == key
    ensures Search(es, key, start, span) == Some(k)
    decreases span
  {
    var m := start + span / 2;
    if k < m {
      assert Less(Paths(es)[k], Paths(es)[m]);
      SearchFinds(es, key, start, span / 2, k);
    } else if m < k {
      assert Less(Paths(es)[m], Paths(es)[k]);
      LessAsymmetric(es[m].path, key);
      SearchFinds(es, key, m + 1, span - (span / 2 + 1), k);
    } else {
      LessIrreflexive(key);
    }
  }

  /** On a sorted index lookup succeeds exactly when a linear scan would, and returns
      that entry. */
  lemma LookupFinds(es: seq<Entry>, key: Bytes)
    requires SortedByPath(es)
    ensures forall e :: e in es && e.path == key ==> Lookup(es, key) == Some(e)
    ensures Lookup(es, key).Some? <==> exists e :: e in es && e.path == key
  {
    forall e | e in es && e.path == key ensures Lookup(es, key) == Some(e) {
      var k :| 0 <= k < |es| && es[k] == e;
      SearchFinds(es, key, 0, |es|, k);
    }
  }

  ghost predicate FoundAt(es: seq<Entry>, k: nat, start: nat, span: nat)
    requires start <= k < start + span <= |es|
  {
    Search(es, es[k].path, start, span) == Some(k)
  }

  /** The search finds every entry of the window under its own path. */
  ghost predicate AllFound(es: seq<Entry>, start: nat, span: nat)
    requires start + span <= |es|
  {
    forall k :: start <= k < start + span ==> FoundAt(es, k, start, span)
  }

  /** The comparison at the middle sends an entry that is found to its own side. */
  lemma FoundSide(es: seq<Entry>, k: nat, start: nat, span: nat)
    requires start <= k < start + span <= |es| && FoundAt(es, k, start, span)
    ensures var h := span / 2; var m := start + h;
            && (k < m ==> Less(es[k].path, es[m].path) && FoundAt(es, k, start, h))
            && (m < k ==> Less(es[m].path, es[k].path) && FoundAt(es, k, m + 1, span - (h + 1)))
  {
  }

  lemma {:induction false} AllFoundSorts(es: seq<Entry>, start: nat, span: nat, i: nat, j: nat)
    requires start <= i < j < start + span <= |es| && AllFound(es, start, span)
    ensures Less(es[i].path, es[j].path)
    decreases span
  {
    var h := span / 2;
    var m := start + h;
    forall k | start <= k < m ensures FoundAt(es, k, start, h) { FoundSide(es, k, start, span); }
    var upper, rest := m + 1, span - (h + 1);
    forall k | upper <= k < upper + rest ensures FoundAt(es, k, upper, rest) { FoundSide(es, k, start, span); }
    if j < m {
      AllFoundSorts(es, start, h, i, j);
    } else if m < i {
      AllFoundSorts(es, upper, rest, i, j);
    } else {
      FoundSide(es, i, start, span);
      FoundSide(es, j, start, span);
      if i < m < j { LessTransitive(es[i].path, es[m].path, es[j].path); }
    }
  }

  /** Binary search finds every entry under its own path exactly when the index is
      sorted: on an unsorted index it misses something. */
  lemma AllFoundIffSorted(es: seq<Entry>)
    ensures AllFound(es, 0, |es|) <==> SortedByPath(es)
  {
    if AllFound(es, 0, |es|) {
      forall i, j | 0 <= i < j < |es| ensures Less(es[i].path, es[j].path) { AllFoundSorts(es, 0, |es|, i, j); }
    }
    if SortedByPath(es) {
      forall k | 0 <= k < |es| ensures FoundAt(es, k, 0, |es|) {
        SearchFinds(es, es[k].path, 0, |es|, k);
      }
    }
  }

  // ----- prefix scan -----

  function Keep(e: Entry, prefix: Bytes): seq<Entry> {
    if prefix <= e.path then [e] else []
  }

  /** The entries whose path has the prefix, in index order. */
  function WithPrefix(es: seq<Entry>, prefix: Bytes): seq<Entry> {
    if es == [] then [] else WithPrefix(es[..|es| - 1], prefix) + Keep(es[|es| - 1], prefix)
  }

  /** Where sort.Search over the entries i, ..., j - 1 ends up, on any index. */
  function SeekFrom(es: seq<Entry>, prefix: Bytes, i: nat, j: nat): (k: nat)
    requires i <= j <= |es|
    ensures i <= k <= j
    decreases j - i
  {
    if i == j then i
    else
      var h := (i + j) / 2;
      if Less(es[h].path, prefix) then SeekFrom(es, prefix, h + 1, j) else SeekFrom(es, prefix, i, h)
  }

  /** The entries from i on, as long as they have the prefix. */
  function RunFrom(es: seq<Entry>, prefix: Bytes, i: nat): seq<Entry>
    decreases |es| - i
  {
    if i < |es| && prefix <= es[i].path then [es[i]] + RunFrom(es, prefix, i + 1) else []
  }

  /** What the prefix scan yields, on any index. */
  function Scan(es: seq<Entry>, prefix: Bytes): seq<Entry> {
    RunFrom(es, prefix, SeekFrom(es, prefix, 0, |es|))
  }

  /** sort.Search: the first entry whose path is not below the prefix. */
  method FirstNotBelow(es: seq<Entry>, prefix: Bytes) returns (i: nat)
    ensures i <= |es|
    ensures i > 0 ==> Less(es[i - 1].path, prefix)
    ensures i < |es| ==> !Less(es[i].path, prefix)
    ensures i == SeekFrom(es, prefix, 0, |es|)
  {
    var j := |es|;
    i := 0;
    while i < j
      invariant 0 <= i <= j <= |es|
      invariant i > 0 ==> Less(es[i - 1].path, prefix)
      invariant j < |es| ==> !Less(es[j].path, prefix)
      invariant SeekFrom(es, prefix, i, j) == SeekFrom(es, prefix, 0, |es|)
    {
      var h := (i + j) / 2;
      if Less(es[h].path, prefix) { i := h + 1; } else { j := h; }
    }
  }

  lemma BelowHasNoPrefix(p: Bytes, prefix: Bytes)
    requires Less(p, prefix)
    ensures !(prefix <= p)
  {
    if prefix <= p {
      PrefixLess(prefix, p);
      LessAsymmetric(p, prefix);
    }
  }

  lemma {:induction false} NoneWithPrefix(es: seq<Entry>, prefix: Bytes)
    requires forall k :: 0 <= k < |es| ==> !(prefix <= es[k].path)
    ensures WithPrefix(es, prefix) == []
  {
    if es != [] { NoneWithPrefix(es[..|es| - 1], prefix); }
  }

  lemma {:induction false} WithPrefixConcat(a: seq<Entry>, b: seq<Entry>, prefix: Bytes)
    ensures WithPrefix(a + b, prefix) == WithPrefix(a, prefix) + WithPrefix(b, prefix)
  {
    if b == [] {
      assert a + b == a;
    } else {
      var b' := b[..|b| - 1];
      WithPrefixConcat(a, b', prefix);
      assert (a + b)[..|a + b| - 1] == a + b';
    }
  }

  lemma {:induction false} AllWithPrefix(es: seq<Entry>, prefix: Bytes)
    requires forall k :: 0 <= k < |es| ==> prefix <= es[k].path
    ensures WithPrefix(es, prefix) == es
  {
    if es != [] { AllWithPrefix(es[..|es| - 1], prefix); }
  }

  /** Before the first path not below the prefix no entry has it. */
  lemma NoneBefore(es: seq<Entry>, prefix: Bytes, lo: nat, k: nat)
    requires k < lo <= |es| && SortedByPath(es) && Less(es[lo - 1].path, prefix)
    ensures !(prefix <= es[k].path)
  {
    if k < lo - 1 {
      assert Less(Paths(es)[k], Paths(es)[lo - 1]);
      LessTransitive(es[k].path, es[lo - 1].path, prefix);
    }
    BelowHasNoPrefix(es[k].path, prefix);
  }

  /** After the first mismatch no entry has the prefix again. */
  lemma NoneAfter(es: seq<Entry>, prefix: Bytes, lo: nat, hi: nat, k: nat)
    requires lo <= hi <= k < |es| && SortedByPath(es)
    requires !Less(es[lo].path, prefix) && !(prefix <= es[hi].path)
    ensures !(prefix <= es[k].path)
  {
    NotBelowLater(es, prefix, lo, hi);
    if hi < k && prefix <= es[k].path {
      assert Less(Paths(es)[hi], Paths(es)[k]);
      PrefixConvex(prefix, es[hi].path, es[k].path);
    }
  }

  /** In a sorted index the entries with a prefix are one contiguous run, starting at the
      first path not below the prefix. */
  lemma PrefixRun(es: seq<Entry>, prefix: Bytes, lo: nat, hi: nat)
    requires lo <= hi <= |es| && SortedByPath(es)
    requires lo > 0 ==> Less(es[lo - 1].path, prefix)
    requires lo < |es| ==> !Less(es[lo].path, prefix)
    requires forall k :: lo <= k < hi ==> prefix <= es[k].path
    requires hi < |es| ==> !(prefix <= es[hi].path)
    ensures WithPrefix(es, prefix) == es[lo..hi]
  {
    NoneBeforeRun(es, prefix, lo);
    NoneAfterRun(es, prefix, lo, hi);
    MiddleSlice(es, prefix, lo, hi);
  }

  lemma MiddleSlice(es: seq<Entry>, prefix: Bytes, lo: nat, hi: nat)
    requires lo <= hi <= |es|
    requires forall k :: 0 <= k < lo ==> !(prefix <= es[..lo][k].path)
    requires forall k :: lo <= k < hi ==> prefix <= es[k].path
    requires forall k :: 0 <= k < |es| - hi ==> !(prefix <= es[hi..][k].path)
    ensures WithPrefix(es, prefix) == es[lo..hi]
  {
    MiddlePart(es[..lo], es[lo..hi], es[hi..], prefix);
    assert es == es[..lo] + es[lo..hi] + es[hi..];
  }

  lemma NoneBeforeRun(es: seq<Entry>, prefix: Bytes, lo: nat)
    requires lo <= |es| && SortedByPath(es)
    requires lo > 0 ==> Less(es[lo - 1].path, prefix)
    ensures forall k :: 0 <= k < lo ==> !(prefix <= es[..lo][k].path)
  {
    forall k | 0 <= k < lo ensures !(prefix <= es[..lo][k].path) { NoneBefore(es, prefix, lo, k); }
  }

  lemma NoneAfterRun(es: seq<Entry>, prefix: Bytes, lo: nat, hi: nat)
    requires lo <= hi <= |es| && SortedByPath(es)
    requires lo < |es| ==> !Less(es[lo].path, prefix)
    requires hi < |es| ==> !(prefix <= es[hi].path)
    ensures forall k :: 0 <= k < |es| - hi ==> !(prefix <= es[hi..][k].path)
  {
    forall k | 0 <= k < |es| - hi ensures !(prefix <= es[hi..][k].path) { NoneAfter(es, prefix, lo, hi, hi + k); }
  }

  lemma {:induction false} MiddlePart(a: seq<Entry>, b: seq<Entry>, c: seq<Entry>, prefix: Bytes)
    requires forall k :: 0 <= k < |a| ==> !(prefix <= a[k].path)
    requires forall k :: 0 <= k < |b| ==> prefix <= b[k].path
    requires forall k :: 0 <= k < |c| ==> !(prefix <= c[k].path)
    ensures WithPrefix(a + b + c, prefix) == b
  {
    NoneWithPrefix(a, prefix);
    AllWithPrefix(b, prefix);
    NoneWithPrefix(c, prefix);
    WithPrefixConcat(a, b, prefix);
    WithPrefixConcat(a + b, c, prefix);
  }

  lemma NotBelowLater(es: seq<Entry>, prefix: Bytes, lo: nat, k: nat)
    requires lo <= k < |es| && SortedByPath(es) && !Less(es[lo].path, prefix)
    ensures LessEq(prefix, es[k].path)
  {
    LessTotal(prefix, es[lo].path);
    if lo < k {
      assert Less(Paths(es)[lo], Paths(es)[k]);
      if prefix != es[lo].path { LessTransitive(prefix, es[lo].path, es[k].path); }
    }
  }

  lemma {:induction false} RunIsSlice(es: seq<Entry>, prefix: Bytes, lo: nat, hi: nat)
    requires lo <= hi <= |es| && (hi < |es| ==> !(prefix <= es[hi].path))
    requires forall k :: lo <= k < hi ==> prefix <= es[k].path
    ensures RunFrom(es, prefix, lo) == es[lo..hi]
    decreases hi - lo
  {
    if lo < hi { RunIsSlice(es, prefix, lo + 1, hi); }
  }

  lemma {:induction false} SeekFound(es: seq<Entry>, prefix: Bytes, i: nat, j: nat)
    requires i <= j <= |es| && (i > 0 ==> Less(es[i - 1].path, prefix)) && (j < |es| ==> !Less(es[j].path, prefix))
    ensures var k := SeekFrom(es, prefix, i, j);
            (k > 0 ==> Less(es[k - 1].path, prefix)) && (k < |es| ==> !Less(es[k].path, prefix))
    decreases j - i
  {
    if i < j {
      var h := (i + j) / 2;
      if Less(es[h].path, prefix) { SeekFound(es, prefix, h + 1, j); } else { SeekFound(es, prefix, i, h); }
    }
  }

  lemma ScanSorted(es: seq<Entry>, prefix: Bytes)
    requires SortedByPath(es)
    ensures Scan(es, prefix) == WithPrefix(es, prefix)
  {
    SeekFound(es, prefix, 0, |es|);
    var lo := SeekFrom(es, prefix, 0, |es|);
    var hi := RunEnd(es, prefix, lo);
    PrefixRun(es, prefix, lo, hi);
  }

  lemma RunEnd(es: seq<Entry>, prefix: Bytes, lo: nat) returns (hi: nat)
    requires lo <= |es|
    ensures lo <= hi <= |es| && RunFrom(es, prefix, lo) == es[lo..hi]
    ensures (forall k :: lo <= k < hi ==> prefix <= es[k].path) && (hi < |es| ==> !(prefix <= es[hi].path))
  {
    hi := lo;
    while hi < |es| && prefix <= es[hi].path
      invariant lo <= hi <= |es| && forall k :: lo <= k < hi ==> prefix <= es[k].path
    {
      hi := hi + 1;
    }
    RunIsSlice(es, prefix, lo, hi);
  }

  /** The scan: seek to the first path not below the prefix, then yield while it matches.
      On a sorted index this is the in-order filter of the entries by prefix. */
  method EntriesWithPrefix(es: seq<Entry>, prefix: Bytes) returns (out: seq<Entry>)
    ensures out == Scan(es, prefix)
    ensures SortedByPath(es) ==> out == WithPrefix(es, prefix)
    ensures forall e :: e in out ==> e in es && prefix <= e.path
  {
    var lo := FirstNotBelow(es, prefix);
    out := [];
    var i := lo;
    while i < |es| && prefix <= es[i].path
      invariant lo <= i <= |es|
      invariant out == es[lo..i]
      invariant forall k :: lo <= k < i ==> prefix <= es[k].path
    {
      SliceNext(es, lo, i);
      out := out + [es[i]];
      i := i + 1;
    }
    RunIsSlice(es, prefix, lo, i);
    SliceMembers(es, prefix, lo, i);
    if SortedByPath(es) { ScanSorted(es, prefix); }
  }

  lemma SliceNext(es: seq<Entry>, lo: nat, i: nat)
    requires lo <= i < |es|
    ensures es[lo..i] + [es[i]] == es[lo..i + 1]
  {
  }

  lemma SliceMembers(es: seq<Entry>, prefix: Bytes, lo: nat, hi: nat)
    requires lo <= hi <= |es| && forall k :: lo <= k < hi ==> prefix <= es[k].path
    ensures forall e :: e in es[lo..hi] ==> e in es && prefix <= e.path
  {
  }
}
