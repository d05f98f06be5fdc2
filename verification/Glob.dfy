/**
  Glob patterns of the trust policies. A glob is compiled to a regular expression by
  quoting it and then replacing every escaped star; the compiled pattern means what the
  glob means.
 */
module Glob {
  import opened Wrappers
  import opened Regex

  // ----- compilation, as text -----

  function Quote(c: char): string {
    if IsMeta(c) then ['\\', c] else [c]
  }

  /** regexp.QuoteMeta. */
  function QuoteMeta(p: string): string {
    if p == [] then [] else Quote(p[0]) + QuoteMeta(p[1..])
  }

  /** strings.ReplaceAll of an escaped star by a run of anything but slashes. */
  function ReplaceStars(s: string): string {
    if s == [] then []
    else if |s| >= 2 && s[0] == '\\' && s[1] == '*' then "[^/]*" + ReplaceStars(s[2..])
    else [s[0]] + ReplaceStars(s[1..])
  }

  function GlobToRegex(p: string): string {
    ReplaceStars(QuoteMeta(p))
  }

  // ----- meaning of a glob -----

  /** s is the glob with every star replaced by some run without a slash. */
  ghost predicate Expands(p: string, s: string) {
    if p == [] then s == []
    else if p[0] == '*' then exists k :: 0 <= k <= |s| && '/' !in s[..k] && Expands(p[1..], s[k..])
    else s != [] && s[0] == p[0] && Expands(p[1..], s[1..])
  }

  // ----- the compiled text, character by character -----

  function Emit(c: char): string {
    if c == '*' then "[^/]*" else if IsMeta(c) then ['\\', c] else [c]
  }

  function EmitAll(p: string): string {
    if p == [] then [] else Emit(p[0]) + EmitAll(p[1..])
  }

  lemma QuotedNeverStartsWithStar(p: string)
    ensures QuoteMeta(p) != [] ==> QuoteMeta(p)[0] != '*'
  {
  }

  /** Quoting keeps an escaped star apart from a quoted backslash before it, so replacing
      after quoting is replacing each star of the glob. */
  lemma {:induction false} GlobToRegexIsEmitAll(p: string)
    ensures GlobToRegex(p) == EmitAll(p)
  {
    if p != [] {
      var q := QuoteMeta(p[1..]);
      GlobToRegexIsEmitAll(p[1..]);
      QuotedNeverStartsWithStar(p[1..]);
      if IsMeta(p[0]) {
        var s := ['\\', p[0]] + q;
        assert s[1..] == [p[0]] + q && s[2..] == q;
        if p[0] != '*' {
          assert ReplaceStars(s) == ['\\'] + ReplaceStars([p[0]] + q);
          assert ([p[0]] + q)[1..] == q;
          assert ReplaceStars([p[0]] + q) == [p[0]] + ReplaceStars(q);
        }
      } else {
        assert ([p[0]] + q)[1..] == q;
      }
    }
  }

  // ----- parsing it back -----

  function ItemOf(c: char): Item {
    if c == '*' then Item(NotChar('/'), ZeroOrMore) else Item(Lit(c), Once)
  }

  function Items(p: string): seq<Item> {
    if p == [] then [] else [ItemOf(p[0])] + Items(p[1..])
  }

  /** Text after which the parser does not take a quantifier for the previous character. */
  predicate Unquantified(s: string) {
    s == [] || (s[0] != '*' && s[0] != '+')
  }

  lemma {:induction false} EmittedUnquantified(p: string, rest: string)
    requires Unquantified(rest)
    ensures Unquantified(EmitAll(p) + rest)
  {
    if p == [] { assert EmitAll(p) + rest == rest; }
  }

  /** Reading one compiled glob character. */
  lemma ParseEmitted(c: char, tail: string)
    requires Unquantified(tail) && ParseItems(tail).Some?
    ensures ParseItems(Emit(c) + tail) ==
            Some(Parsed([ItemOf(c)] + ParseItems(tail).value.tree, ParseItems(tail).value.rest))
  {
    var s := Emit(c) + tail;
    if c == '*' {
      assert s[4..] == ['*'] + tail && s[4..][1..] == tail;
    } else if IsMeta(c) {
      assert s[2..] == tail;
    } else {
      assert s[1..] == tail;
    }
  }

  /** A compiled glob followed by anything reads back as the glob's items, then the rest. */
  lemma {:induction false} ParseGlob(p: string, rest: string)
    requires Unquantified(rest) && ParseItems(rest).Some?
    ensures ParseItems(EmitAll(p) + rest) ==
            Some(Parsed(Items(p) + ParseItems(rest).value.tree, ParseItems(rest).value.rest))
  {
    if p == [] {
      assert EmitAll(p) + rest == rest;
      assert [] + ParseItems(rest).value.tree == ParseItems(rest).value.tree;
    } else {
      ParseGlob(p[1..], rest);
      EmittedUnquantified(p[1..], rest);
      assert EmitAll(p) + rest == Emit(p[0]) + (EmitAll(p[1..]) + rest);
      ParseEmitted(p[0], EmitAll(p[1..]) + rest);
      var t := ParseItems(rest).value.tree;
      assert Items(p) + t == [ItemOf(p[0])] + (Items(p[1..]) + t);
    }
  }

  // ----- meaning -----

  lemma {:induction false} ItemsMatchIff(p: string, s: string)
    ensures MatchItems(Items(p), s) <==> Expands(p, s)
  {
    if p != [] {
      var items := Items(p);
      assert items[0] == ItemOf(p[0]) && items[1..] == Items(p[1..]);
      forall k | 0 <= k <= |s|
        ensures MatchItem(items[0], s[..k]) && MatchItems(items[1..], s[k..]) <==>
                (if p[0] == '*' then '/' !in s[..k] else s[..k] == [p[0]]) && Expands(p[1..], s[k..])
      {
        ItemsMatchIff(p[1..], s[k..]);
        RunMatches('/', s[..k]);
      }
      if p[0] != '*' && s != [] { assert s[..1] == [s[0]]; }
    }
  }

  /** Compilation preserves meaning: the anchored compiled pattern matches exactly the
      expansions of the glob, for every glob. */
  lemma GlobCompiles(p: string, s: string)
    ensures Matches("^" + GlobToRegex(p) + "$", s) <==> Expands(p, s)
  {
    GlobToRegexIsEmitAll(p);
    ParseGlob(p, "$");
    var pattern := "^" + EmitAll(p) + "$";
    assert pattern[1..] == EmitAll(p) + "$";
    assert Items(p) + [] == Items(p);
    ItemsMatchIff(p, s);
  }

  // ----- branch and tag patterns -----

  predicate Plain(s: string) {
    forall c :: c in s ==> !IsMeta(c)
  }

  lemma {:induction false} EmitPlain(lit: string, p: string)
    requires Plain(lit)
    ensures EmitAll(lit + p) == lit + EmitAll(p)
  {
    if lit == [] {
      assert lit + p == p;
    } else {
      EmitPlain(lit[1..], p);
      assert (lit + p)[1..] == lit[1..] + p;
    }
  }

  lemma {:induction false} ExpandsLiteral(lit: string, p: string, s: string)
    requires '*' !in lit
    ensures Expands(lit + p, s) <==> lit <= s && Expands(p, s[|lit|..])
  {
    if lit == [] {
      assert lit + p == p && s[0..] == s;
    } else {
      assert (lit + p)[1..] == lit[1..] + p;
      if s != [] {
        ExpandsLiteral(lit[1..], p, s[1..]);
        assert lit <= s <==> lit[0] == s[0] && lit[1..] <= s[1..];
        assert lit <= s ==> s[1..][|lit| - 1..] == s[|lit|..];
      }
    }
  }

  /** A pattern with a plain prefix, as the branch and tag options build it. */
  lemma PrefixedGlobCompiles(prefix: string, p: string, s: string)
    requires Plain(prefix)
    ensures Matches("^" + prefix + GlobToRegex(p) + "$", s) <==> prefix <= s && Expands(p, s[|prefix|..])
  {
    GlobToRegexIsEmitAll(p);
    GlobToRegexIsEmitAll(prefix + p);
    EmitPlain(prefix, p);
    assert "^" + prefix + GlobToRegex(p) + "$" == "^" + GlobToRegex(prefix + p) + "$";
    GlobCompiles(prefix + p, s);
    ExpandsLiteral(prefix, p, s);
  }

  function BranchPattern(branch: string): string {
    "^refs/heads/" + GlobToRegex(branch) + "$"
  }

  function TagPattern(tag: string): string {
    "^refs/tags/" + GlobToRegex(tag) + "$"
  }

  /** The compiled patterns of WithBranches and WithTags, in order. */
  method CompileRefs(branches: seq<string>, tags: seq<string>) returns (patterns: seq<string>)
    ensures |patterns| == |branches| + |tags|
    ensures forall i :: 0 <= i < |branches| ==> patterns[i] == BranchPattern(branches[i])
    ensures forall i :: 0 <= i < |tags| ==> patterns[|branches| + i] == TagPattern(tags[i])
  {
    patterns := [];
    for i := 0 to |branches|
      invariant |patterns| == i && forall k :: 0 <= k < i ==> patterns[k] == BranchPattern(branches[k])
    {
      patterns := patterns + [BranchPattern(branches[i])];
    }
    for i := 0 to |tags|
      invariant |patterns| == |branches| + i
      invariant forall k :: 0 <= k < |branches| ==> patterns[k] == BranchPattern(branches[k])
      invariant forall k :: 0 <= k < i ==> patterns[|branches| + k] == TagPattern(tags[k])
    {
      patterns := patterns + [TagPattern(tags[i])];
    }
  }

  ghost predicate RefAllowed(branches: seq<string>, tags: seq<string>, ref: string) {
    || (exists i :: 0 <= i < |branches| && "refs/heads/" <= ref && Expands(branches[i], ref[11..]))
    || (exists i :: 0 <= i < |tags| && "refs/tags/" <= ref && Expands(tags[i], ref[10..]))
  }

  lemma BranchCompiles(branch: string, ref: string)
    ensures Matches(BranchPattern(branch), ref) <==> "refs/heads/" <= ref && Expands(branch, ref[11..])
  {
    assert BranchPattern(branch) == "^" + "refs/heads/" + GlobToRegex(branch) + "$";
    PrefixedGlobCompiles("refs/heads/", branch, ref);
  }

  lemma TagCompiles(tag: string, ref: string)
    ensures Matches(TagPattern(tag), ref) <==> "refs/tags/" <= ref && Expands(tag, ref[10..])
  {
    assert TagPattern(tag) == "^" + "refs/tags/" + GlobToRegex(tag) + "$";
    PrefixedGlobCompiles("refs/tags/", tag, ref);
  }

  /** A list of branches and tags accepts exactly the union of what its globs mean. */
  lemma RefsAcceptUnion(branches: seq<string>, tags: seq<string>, patterns: seq<string>, ref: string)
    requires |patterns| == |branches| + |tags|
    requires forall i :: 0 <= i < |branches| ==> patterns[i] == BranchPattern(branches[i])
    requires forall i :: 0 <= i < |tags| ==> patterns[|branches| + i] == TagPattern(tags[i])
    ensures (exists i :: 0 <= i < |patterns| && Matches(patterns[i], ref)) <==> RefAllowed(branches, tags, ref)
  {
    if i :| 0 <= i < |patterns| && Matches(patterns[i], ref) {
      if i < |branches| {
        BranchCompiles(branches[i], ref);
      } else {
        var j := i - |branches|;
        assert patterns[|branches| + j] == TagPattern(tags[j]);
        TagCompiles(tags[j], ref);
      }
    }
    if i :| 0 <= i < |branches| && "refs/heads/" <= ref && Expands(branches[i], ref[11..]) {
      BranchCompiles(branches[i], ref);
      assert Matches(patterns[i], ref);
    }
    if i :| 0 <= i < |tags| && "refs/tags/" <= ref && Expands(tags[i], ref[10..]) {
      TagCompiles(tags[i], ref);
      assert Matches(patterns[|branches| + i], ref);
    }
  }
}
