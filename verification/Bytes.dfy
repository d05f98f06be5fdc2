/** Byte strings and their lexicographic order, the order of bytes.Compare. */
module Bytes {
  type Byte = x: int | 0 <= x < 256
  type Bytes = seq<Byte>

  const SLASH: Byte := 47

  predicate Less(a: Bytes, b: Bytes) {
    if b == [] then false
    else if a == [] then true
    else if a[0] != b[0] then a[0] < b[0]
    else Less(a[1..], b[1..])
  }

  predicate LessEq(a: Bytes, b: Bytes) {
    a == b || Less(a, b)
  }

  lemma {:induction false} LessIrreflexive(a: Bytes)
    ensures !Less(a, a)
  {
    if a != [] { LessIrreflexive(a[1..]); }
  }

  lemma {:induction false} LessTotal(a: Bytes, b: Bytes)
    ensures a == b || Less(a, b) || Less(b, a)
  {
    if a != [] && b != [] && a[0] == b[0] {
      LessTotal(a[1..], b[1..]);
      assert a[1..] == b[1..] ==> a == [a[0]] + a[1..] && b == [b[0]] + b[1..];
    }
  }

  lemma {:induction false} LessTransitive(a: Bytes, b: Bytes, c: Bytes)
    requires Less(a, b) && Less(b, c)
    ensures Less(a, c)
  {
    if a != [] && a[0] == b[0] == c[0] { LessTransitive(a[1..], b[1..], c[1..]); }
  }

  lemma LessAsymmetric(a: Bytes, b: Bytes)
    requires Less(a, b)
    ensures !Less(b, a) && a != b
  {
    LessIrreflexive(a);
    if Less(b, a) { LessTransitive(a, b, a); }
  }

  lemma {:induction false} LessSamePrefix(p: Bytes, a: Bytes, b: Bytes)
    ensures Less(p + a, p + b) <==> Less(a, b)
  {
    if p == [] {
      assert p + a == a && p + b == b;
    } else {
      LessSamePrefix(p[1..], a, b);
      assert (p + a)[1..] == p[1..] + a && (p + b)[1..] == p[1..] + b;
    }
  }

  /** A string extended on the right stays above what was below it, and what is not a
      prefix of it stays below however it is extended. */
  lemma {:induction false} LessExtend(a: Bytes, b: Bytes, u: Bytes, v: Bytes)
    requires Less(a, b)
    ensures Less(a, b + v)
    ensures !(a <= b) ==> Less(a + u, b + v)
  {
    if a != [] && a[0] == b[0] {
      LessExtend(a[1..], b[1..], u, v);
      assert (a + u)[1..] == a[1..] + u && (b + v)[1..] == b[1..] + v;
      assert a[1..] <= b[1..] ==> a <= b;
    }
    assert (b + v)[1..] == b[1..] + v;
  }

  /** A proper prefix is below. */
  lemma {:induction false} PrefixLess(a: Bytes, b: Bytes)
    requires a <= b
    ensures LessEq(a, b)
  {
    if a != [] { PrefixLess(a[1..], b[1..]); }
  }

  /** The strings with prefix p lie together: between two of them there is no other. */
  lemma {:induction false} PrefixConvex(p: Bytes, a: Bytes, b: Bytes)
    requires LessEq(p, a) && Less(a, b) && p <= b
    ensures p <= a
  {
    if p != [] {
      assert p[0] == b[0];
      if a != p { PrefixConvex(p[1..], a[1..], b[1..]); }
    }
  }

  ghost predicate StrictlySorted(ps: seq<Bytes>) {
    forall i, j :: 0 <= i < j < |ps| ==> Less(ps[i], ps[j])
  }
}
