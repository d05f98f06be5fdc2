/**
  The subject pattern of GitHub Actions identities: any workflow of one repository, at an
  allowed ref. `SubjectLanguage` says exactly which subjects the generated pattern accepts.
 */
module GitHubSubject {
  import opened Wrappers
  import opened Regex
  import opened Glob

  function Prepend(prefix: string, globs: seq<string>): (r: seq<string>)
    ensures |r| == |globs| && forall i :: 0 <= i < |r| ==> r[i] == prefix + globs[i]
  {
    seq(|globs|, i requires 0 <= i < |globs| => prefix + globs[i])
  }

  /** The allowed refs as globs, in the order in which the pattern lists them. */
  function RefGlobs(branches: seq<string>, tags: seq<string>, refs: seq<string>): seq<string> {
    Prepend("refs/heads/", branches) + Prepend("refs/tags/", tags) + refs
  }

  /** The compiled globs joined by bars; GlobToRegex leaves the plain prefixes alone. */
  function Join(globs: seq<string>): string
    requires globs != []
  {
    if |globs| == 1 then GlobToRegex(globs[0]) else GlobToRegex(globs[0]) + "|" + Join(globs[1..])
  }

  function RefPattern(globs: seq<string>): string {
    if globs == [] then "refs/.+" else "(?:" + Join(globs) + ")"
  }

  /** The pattern that `BuildSubject` builds. */
  function SubjectRegex(repo: string, globs: seq<string>): string {
    "^https://github\\.com/" + QuoteMeta(repo) + "/" + ".github/workflows/[^@]+" + "@" + RefPattern(globs) + "$"
  }

  ghost predicate RefOk(globs: seq<string>, ref: string) {
    if globs == [] then "refs/" <= ref && |ref| > 5 && '\n' !in ref[5..]
    else exists i :: 0 <= i < |globs| && Expands(globs[i], ref)
  }

  // ----- literal text -----

  function Lits(x: string): seq<Item> {
    if x == [] then [] else [Item(Lit(x[0]), Once)] + Lits(x[1..])
  }

  lemma {:induction false} QuotedUnquantified(x: string, rest: string)
    requires Unquantified(rest)
    ensures Unquantified(QuoteMeta(x) + rest)
  {
    if x == [] { assert QuoteMeta(x) + rest == rest; }
  }

  /** Quoted text reads back as itself. */
  lemma {:induction false} ParseQuoted(x: string, rest: string)
    requires Unquantified(rest) && ParseItems(rest).Some?
    ensures ParseItems(QuoteMeta(x) + rest) ==
            Some(Parsed(Lits(x) + ParseItems(rest).value.tree, ParseItems(rest).value.rest))
  {
    var t := ParseItems(rest).value.tree;
    if x == [] {
      assert QuoteMeta(x) + rest == rest && [] + t == t;
    } else {
      ParseQuoted(x[1..], rest);
      QuotedUnquantified(x[1..], rest);
      ConcatAssoc(Quote(x[0]), QuoteMeta(x[1..]), rest);
      ParseQuote(x[0], QuoteMeta(x[1..]) + rest);
      ConcatAssoc([Item(Lit(x[0]), Once)], Lits(x[1..]), t);
    }
  }

  lemma ParseQuote(c: char, tail: string)
    requires Unquantified(tail) && ParseItems(tail).Some?
    ensures ParseItems(Quote(c) + tail) ==
            Some(Parsed([Item(Lit(c), Once)] + ParseItems(tail).value.tree, ParseItems(tail).value.rest))
  {
    var s := Quote(c) + tail;
    if IsMeta(c) {
      assert s[2..] == tail;
      assert ParseAtom(s) == Some(Parsed(Lit(c), tail));
    } else {
      assert s[0] == c && s[1..] == tail;
      assert ParseAtom(s) == Some(Parsed(Lit(c), tail));
    }
  }

  /** Plain text reads back as itself. */
  lemma ParsePlain(x: string, rest: string)
    requires Plain(x) && Unquantified(rest) && ParseItems(rest).Some?
    ensures ParseItems(x + rest) == Some(Parsed(Lits(x) + ParseItems(rest).value.tree, ParseItems(rest).value.rest))
  {
    QuotePlain(x);
    ParseQuoted(x, rest);
  }

  lemma {:induction false} QuoteConcat(x: string, y: string)
    ensures QuoteMeta(x + y) == QuoteMeta(x) + QuoteMeta(y)
  {
    if x == [] {
      assert x + y == y;
    } else {
      QuoteConcat(x[1..], y);
      assert (x + y)[1..] == x[1..] + y && (x + y)[0] == x[0];
      ConcatAssoc(Quote(x[0]), QuoteMeta(x[1..]), QuoteMeta(y));
    }
  }

  lemma ConcatAssoc<T>(a: seq<T>, b: seq<T>, c: seq<T>)
    ensures a + b + c == a + (b + c)
  {
  }

  lemma {:induction false} QuotePlain(x: string)
    requires Plain(x)
    ensures QuoteMeta(x) == x
  {
    if x != [] { QuotePlain(x[1..]); }
  }

  lemma {:induction false} MatchLits(x: string, items: seq<Item>, s: string)
    ensures MatchItems(Lits(x) + items, s) <==> x <= s && MatchItems(items, s[|x|..])
  {
    if x == [] {
      assert Lits(x) + items == items && s[0..] == s;
    } else {
      var all := Lits(x) + items;
      assert all[0] == Item(Lit(x[0]), Once) && all[1..] == Lits(x[1..]) + items;
      forall k | 0 <= k <= |s| ensures MatchItem(all[0], s[..k]) <==> k == 1 && s[0] == x[0] {}
      if s != [] {
        MatchLits(x[1..], items, s[1..]);
        assert s[..1] == [s[0]];
        assert x <= s <==> x[0] == s[0] && x[1..] <= s[1..];
        assert x <= s ==> s[1..][|x| - 1..] == s[|x|..];
      }
    }
  }

  // ----- the ref part -----

  function RefAlternatives(globs: seq<string>): Alternatives
    requires globs != []
  {
    if |globs| == 1 then Last(Items(globs[0])) else Or(Items(globs[0]), RefAlternatives(globs[1..]))
  }

  /** One alternative, up to the bar or the parenthesis that ends it. */
  lemma ParseAlternative(glob: string, tail: string)
    requires tail != [] && (tail[0] == '|' || tail[0] == ')')
    ensures ParseItems(GlobToRegex(glob) + tail) == Some(Parsed(Items(glob), tail))
  {
    GlobToRegexIsEmitAll(glob);
    assert ParseItems(tail) == Some(Parsed([], tail));
    ParseGlob(glob, tail);
    assert Items(glob) + [] == Items(glob);
  }

  lemma {:induction false} ParseJoined(globs: seq<string>, close: string)
    requires globs != [] && close != [] && close[0] == ')'
    ensures ParseAlternatives(Join(globs) + close) == Some(Parsed(RefAlternatives(globs), close))
  {
    if |globs| == 1 {
      ParseAlternative(globs[0], close);
    } else {
      var others := Join(globs[1..]) + close;
      var tail := "|" + others;
      ParseAlternative(globs[0], tail);
      ParseJoined(globs[1..], close);
      JoinSplits(GlobToRegex(globs[0]), Join(globs[1..]), close);
      assert tail[1..] == others;
    }
  }

  lemma JoinSplits(a: string, b: string, c: string)
    ensures a + "|" + b + c == a + ("|" + (b + c))
  {
  }

  lemma {:induction false} MatchJoined(globs: seq<string>, s: string)
    requires globs != []
    ensures MatchAlternatives(RefAlternatives(globs), s) <==> exists i :: 0 <= i < |globs| && Expands(globs[i], s)
  {
    ItemsMatchIff(globs[0], s);
    if |globs| > 1 {
      MatchJoined(globs[1..], s);
      if i :| 0 <= i < |globs| && Expands(globs[i], s) {
        if i > 0 { assert globs[i] == globs[1..][i - 1]; }
      }
      if i :| 0 <= i < |globs[1..]| && Expands(globs[1..][i], s) { assert globs[i + 1] == globs[1..][i]; }
    }
  }

  function RefItems(globs: seq<string>): seq<Item> {
    if globs == [] then Lits("refs/") + [Item(AnyChar, OneOrMore)]
    else [Item(Group(RefAlternatives(globs)), Once)]
  }

  lemma ParseAnyRef()
    ensures ParseItems("refs/.+" + "$") == Some(Parsed(RefItems([]), "$"))
  {
    ParseAnyAfter("refs/");
    assert "refs/.+" + "$" == "refs/" + ".+$";
  }

  lemma ParseAnyAfter(x: string)
    requires Plain(x)
    ensures ParseItems(x + ".+$") == Some(Parsed(Lits(x) + [Item(AnyChar, OneOrMore)], "$"))
  {
    var s, dots := ".+$", [Item(AnyChar, OneOrMore)];
    assert s[1..] == "+$" && s[1..][1..] == "$";
    assert ParseAtom(s) == Some(Parsed(AnyChar, s[1..]));
    assert ParseItems(s) == Some(Parsed(dots + [], "$"));
    assert dots + [] == dots;
    ParsePlain(x, s);
  }

  lemma ParseGroup(globs: seq<string>, close: string)
    requires globs != [] && close == ")$"
    ensures ParseAtom("(?:" + (Join(globs) + close)) == Some(Parsed(Group(RefAlternatives(globs)), "$"))
  {
    var body := Join(globs) + close;
    var s := "(?:" + body;
    ParseJoined(globs, close);
    assert s[3..] == body;
    assert close[1..] == "$";
  }

  lemma ParseListedRefs(globs: seq<string>)
    requires globs != []
    ensures ParseItems("(?:" + Join(globs) + ")" + "$") == Some(Parsed(RefItems(globs), "$"))
  {
    var close := ")$";
    var s := "(?:" + (Join(globs) + close);
    assert "(?:" + Join(globs) + ")" + "$" == s;
    ParseGroup(globs, close);
    var item := Item(Group(RefAlternatives(globs)), Once);
    assert ParseItems("$") == Some(Parsed([], "$"));
    assert ParseItems(s) == Some(Parsed([item] + [], "$"));
    assert [item] + [] == [item];
  }

  lemma ParseRefPattern(globs: seq<string>)
    ensures ParseItems(RefPattern(globs) + "$") == Some(Parsed(RefItems(globs), "$"))
    ensures Unquantified(RefPattern(globs) + "$")
  {
    if globs == [] { ParseAnyRef(); } else { ParseListedRefs(globs); }
  }

  /** A repeated dot matches the nonempty strings without a line break. */
  lemma {:induction false} DotsMatch(s: string)
    ensures MatchItem(Item(AnyChar, OneOrMore), s) <==> s != [] && '\n' !in s
    decreases |s|
  {
    if s != [] {
      DotsMatch(s[1..]);
      assert s == [s[0]] + s[1..] && s[..1] == [s[0]];
      assert forall k :: 0 < k <= |s| && MatchAtom(AnyChar, s[..k]) ==> k == 1;
    }
  }

  lemma MatchRef(globs: seq<string>, s: string)
    ensures MatchItems(RefItems(globs), s) <==> RefOk(globs, s)
  {
    if globs == [] {
      MatchLits("refs/", [Item(AnyChar, OneOrMore)], s);
      if "refs/" <= s {
        MatchOne(Item(AnyChar, OneOrMore), s[5..]);
        DotsMatch(s[5..]);
      }
    } else {
      MatchOne(Item(Group(RefAlternatives(globs)), Once), s);
      MatchJoined(globs, s);
    }
  }

  // ----- the whole pattern -----

  const ANY_WORKFLOW: Item := Item(NotChar('@'), OneOrMore)

  const MID: string := "github/workflows/"

  function RepoPart(repo: string): string {
    "https://github.com/" + repo + "/"
  }

  /** The items from the workflow name on. */
  function WorkflowItems(globs: seq<string>): seq<Item> {
    [ANY_WORKFLOW] + (Lits("@") + RefItems(globs))
  }

  function WorkflowText(globs: seq<string>): string {
    "[^@]+" + ("@" + (RefPattern(globs) + "$"))
  }

  lemma ParseWorkflow(globs: seq<string>)
    ensures ParseItems(WorkflowText(globs)) == Some(Parsed(WorkflowItems(globs), "$"))
    ensures Unquantified(WorkflowText(globs))
  {
    ParseRefPattern(globs);
    ParsePlain("@", RefPattern(globs) + "$");
    ParseName("@" + (RefPattern(globs) + "$"));
  }

  lemma ParseName(tail: string)
    requires ParseItems(tail).Some?
    ensures Unquantified("[^@]+" + tail)
    ensures ParseItems("[^@]+" + tail) ==
            Some(Parsed([ANY_WORKFLOW] + ParseItems(tail).value.tree, ParseItems(tail).value.rest))
  {
    var s := "[^@]+" + tail;
    assert s[4..] == ['+'] + tail && s[4..][1..] == tail;
    assert ParseAtom(s) == Some(Parsed(NotChar('@'), s[4..]));
  }

  /** A text head, any one character, a text mid, then the workflow and the ref. */
  function FrameItems(head: string, mid: string, globs: seq<string>): seq<Item> {
    Lits(head) + ([Item(AnyChar, Once)] + (Lits(mid) + WorkflowItems(globs)))
  }

  function SubjectItems(repo: string, globs: seq<string>): seq<Item> {
    FrameItems(RepoPart(repo), MID, globs)
  }

  lemma ParseDotted(mid: string, globs: seq<string>)
    requires Plain(mid) && mid != []
    ensures var s := "." + (mid + WorkflowText(globs));
            && ParseItems(s) == Some(Parsed([Item(AnyChar, Once)] + (Lits(mid) + WorkflowItems(globs)), "$"))
            && Unquantified(s)
  {
    ParseWorkflow(globs);
    ParsePlain(mid, WorkflowText(globs));
    var tail := mid + WorkflowText(globs);
    assert tail[0] == mid[0] && mid[0] in mid;
    ParseDot(tail);
  }

  lemma ParseDot(tail: string)
    requires Unquantified(tail) && ParseItems(tail).Some?
    ensures ParseItems("." + tail) ==
            Some(Parsed([Item(AnyChar, Once)] + ParseItems(tail).value.tree, ParseItems(tail).value.rest))
  {
    var s := "." + tail;
    assert s[1..] == tail;
    assert ParseAtom(s) == Some(Parsed(AnyChar, tail));
  }

  lemma ParseFrame(head: string, mid: string, globs: seq<string>)
    requires Plain(mid) && mid != []
    ensures ParseItems(QuoteMeta(head) + ("." + (mid + WorkflowText(globs)))) ==
            Some(Parsed(FrameItems(head, mid, globs), "$"))
  {
    ParseDotted(mid, globs);
    ParseQuoted(head, "." + (mid + WorkflowText(globs)));
  }

  lemma SubjectParses(repo: string, globs: seq<string>)
    ensures Parse(SubjectRegex(repo, globs)) == Some(SubjectItems(repo, globs))
  {
    SubjectSplits(repo, globs);
    MidPlain();
    FrameParses(RepoPart(repo), MID, globs, SubjectRegex(repo, globs));
  }

  lemma MidPlain()
    ensures Plain(MID) && MID != []
  {
  }

  lemma SubjectSplits(repo: string, globs: seq<string>)
    ensures SubjectRegex(repo, globs) == "^" + (QuoteMeta(RepoPart(repo)) + ("." + (MID + WorkflowText(globs))))
  {
    QuotedRepoPart(repo);
    SubjectText(QuoteMeta(repo), RefPattern(globs));
  }

  lemma FrameParses(head: string, mid: string, globs: seq<string>, pattern: string)
    requires Plain(mid) && mid != []
    requires pattern == "^" + (QuoteMeta(head) + ("." + (mid + WorkflowText(globs))))
    ensures Parse(pattern) == Some(FrameItems(head, mid, globs))
  {
    ParseFrame(head, mid, globs);
    assert pattern[1..] == QuoteMeta(head) + ("." + (mid + WorkflowText(globs)));
  }

  /** The text of the pattern, split where the parser splits it. */
  lemma SubjectText(repo: string, ref: string)
    ensures "^https://github\\.com/" + repo + "/" + ".github/workflows/[^@]+" + "@" + ref + "$" ==
            "^" + (("https://github\\.com/" + repo + "/") + ("." + (MID + ("[^@]+" + ("@" + (ref + "$"))))))
  {
    var host := "https://github\\.com/";
    assert "^https://github\\.com/" == "^" + host;
    assert ".github/workflows/[^@]+" == "." + (MID + "[^@]+");
    Regroup("^", host, repo, MID, ref);
  }

  lemma Regroup(a: string, host: string, repo: string, mid: string, ref: string)
    ensures (a + host) + repo + "/" + ("." + (mid + "[^@]+")) + "@" + ref + "$" ==
            a + ((host + repo + "/") + ("." + (mid + ("[^@]+" + ("@" + (ref + "$"))))))
  {
  }

  lemma QuotedRepoPart(repo: string)
    ensures QuoteMeta(RepoPart(repo)) == "https://github\\.com/" + QuoteMeta(repo) + "/"
  {
    var a, c := "https://github", "com/";
    assert "https://github.com/" == a + ("." + c);
    assert "https://github\\.com/" == a + ("\\." + c);
    QuotedPath(a, c, repo);
  }

  lemma QuotedPath(a: string, c: string, repo: string)
    requires Plain(a) && Plain(c)
    ensures QuoteMeta(a + ("." + c) + repo + "/") == a + ("\\." + c) + QuoteMeta(repo) + "/"
  {
    QuotedDot(a, c);
    var host := a + ("." + c);
    QuoteConcat(host, repo);
    QuoteConcat(host + repo, "/");
    QuotePlain("/");
  }

  lemma QuotedDot(a: string, c: string)
    requires Plain(a) && Plain(c)
    ensures QuoteMeta(a + ("." + c)) == a + ("\\." + c)
  {
    QuotePlain(a);
    QuotePlain(c);
    var t := "." + c;
    assert t[0] == '.' && t[1..] == c;
    QuoteConcat(a, t);
  }

  /** A subject of the repository: the dot before "github" matches any one character. */
  ghost predicate Framed(head: string, mid: string, globs: seq<string>, s: string, x: char, w: string, ref: string) {
    && x != '\n' && w != [] && '@' !in w && RefOk(globs, ref)
    && s == head + ([x] + (mid + (w + ("@" + ref))))
  }

  ghost predicate Subject(repo: string, globs: seq<string>, s: string, x: char, w: string, ref: string) {
    Framed(RepoPart(repo), MID, globs, s, x, w, ref)
  }

  /** The workflow's name ends at k, where the ref begins. */
  ghost predicate EndsAt(globs: seq<string>, v: string, k: int) {
    0 < k < |v| && '@' !in v[..k] && v[k] == '@' && RefOk(globs, v[k + 1..])
  }

  lemma WorkflowMatches(globs: seq<string>, s: string)
    ensures MatchItems(WorkflowItems(globs), s) <==> exists k :: EndsAt(globs, s, k)
  {
    var items := WorkflowItems(globs);
    var tail := Lits("@") + RefItems(globs);
    assert items[0] == ANY_WORKFLOW && items[1..] == tail;
    forall k | 0 <= k <= |s|
      ensures MatchItem(items[0], s[..k]) && MatchItems(items[1..], s[k..]) <==> EndsAt(globs, s, k)
    {
      RunMatches('@', s[..k]);
      MatchLits("@", RefItems(globs), s[k..]);
      if k < |s| {
        assert "@" <= s[k..] <==> s[k] == '@';
        assert s[k..][1..] == s[k + 1..];
        MatchRef(globs, s[k + 1..]);
      }
    }
  }

  lemma MatchAnyOne(after: seq<Item>, t: string)
    ensures MatchItems([Item(AnyChar, Once)] + after, t) <==> t != [] && t[0] != '\n' && MatchItems(after, t[1..])
  {
    var items := [Item(AnyChar, Once)] + after;
    assert items[0] == Item(AnyChar, Once) && items[1..] == after;
    forall k | 0 <= k <= |t| ensures MatchItem(items[0], t[..k]) <==> k == 1 && t[0] != '\n' {}
  }

  lemma TakeDrop(a: string, s: string)
    requires a <= s
    ensures s == a + s[|a|..]
  {
  }

  lemma Rebuild(head: string, mid: string, s: string, globs: seq<string>, k: int)
    requires head <= s && |s| > |head| && s[|head|] != '\n'
    requires var u := s[|head|..][1..]; mid <= u && EndsAt(globs, u[|mid|..], k)
    ensures exists x, w, ref :: Framed(head, mid, globs, s, x, w, ref)
  {
    var t := s[|head|..];
    var u := t[1..];
    var v := u[|mid|..];
    TakeDrop(v[..k], v);
    TakeDrop("@", v[k..]);
    TakeDrop(mid, u);
    TakeDrop([t[0]], t);
    TakeDrop(head, s);
    assert Framed(head, mid, globs, s, t[0], v[..k], v[k + 1..]);
  }

  lemma FrameSound(head: string, mid: string, globs: seq<string>, s: string)
    requires MatchItems(FrameItems(head, mid, globs), s)
    ensures exists x, w, ref :: Framed(head, mid, globs, s, x, w, ref)
  {
    var after := Lits(mid) + WorkflowItems(globs);
    MatchLits(head, [Item(AnyChar, Once)] + after, s);
    var t := s[|head|..];
    MatchAnyOne(after, t);
    var u := t[1..];
    MatchLits(mid, WorkflowItems(globs), u);
    WorkflowMatches(globs, u[|mid|..]);
    var k :| EndsAt(globs, u[|mid|..], k);
    Rebuild(head, mid, s, globs, k);
  }

  lemma FrameComplete(head: string, mid: string, globs: seq<string>, s: string, x: char, w: string, ref: string)
    requires Framed(head, mid, globs, s, x, w, ref)
    ensures MatchItems(FrameItems(head, mid, globs), s)
  {
    var v := w + ("@" + ref);
    assert v[..|w|] == w && v[|w|] == '@' && v[|w| + 1..] == ref;
    assert EndsAt(globs, v, |w|);
    WorkflowMatches(globs, v);
    var u := mid + v;
    assert u[|mid|..] == v;
    MatchLits(mid, WorkflowItems(globs), u);
    var after := Lits(mid) + WorkflowItems(globs);
    var t := [x] + u;
    assert t[1..] == u;
    MatchAnyOne(after, t);
    assert s[|head|..] == t;
    MatchLits(head, [Item(AnyChar, Once)] + after, s);
  }

  /** The generated pattern accepts exactly the subjects of the repository's workflows at
      an allowed ref (with any character in place of the dot of ".github"). */
  lemma SubjectLanguage(repo: string, globs: seq<string>, s: string)
    ensures Matches(SubjectRegex(repo, globs), s) <==> exists x, w, ref :: Subject(repo, globs, s, x, w, ref)
  {
    SubjectParses(repo, globs);
    var head, mid := RepoPart(repo), MID;
    if Matches(SubjectRegex(repo, globs), s) {
      FrameSound(head, mid, globs, s);
      var x, w, ref :| Framed(head, mid, globs, s, x, w, ref);
      assert Subject(repo, globs, s, x, w, ref);
    }
    if x, w, ref :| Subject(repo, globs, s, x, w, ref) { FrameComplete(head, mid, globs, s, x, w, ref); }
  }

  // ----- building it -----

  /** strings.Join with a bar. */
  function JoinBars(ps: seq<string>): string {
    if ps == [] then [] else if |ps| == 1 then ps[0] else ps[0] + "|" + JoinBars(ps[1..])
  }

  lemma {:induction false} JoinCompiled(globs: seq<string>, ps: seq<string>)
    requires globs != [] && |ps| == |globs|
    requires forall i :: 0 <= i < |ps| ==> ps[i] == GlobToRegex(globs[i])
    ensures JoinBars(ps) == Join(globs)
  {
    if |globs| > 1 { JoinCompiled(globs[1..], ps[1..]); }
  }

  lemma PrefixCompiles(prefix: string, glob: string)
    requires Plain(prefix)
    ensures GlobToRegex(prefix + glob) == prefix + GlobToRegex(glob)
  {
    GlobToRegexIsEmitAll(prefix + glob);
    GlobToRegexIsEmitAll(glob);
    EmitPlain(prefix, glob);
  }

  /** Appends the compiled globs, each behind the prefix. */
  method AppendPatterns(patterns: seq<string>, prefix: string, globs: seq<string>) returns (r: seq<string>)
    requires Plain(prefix)
    ensures |r| == |patterns| + |globs|
    ensures r[..|patterns|] == patterns
    ensures forall i :: 0 <= i < |globs| ==> r[|patterns| + i] == GlobToRegex(prefix + globs[i])
  {
    r := patterns;
    for i := 0 to |globs|
      invariant |r| == |patterns| + i && r[..|patterns|] == patterns
      invariant forall k :: 0 <= k < i ==> r[|patterns| + k] == GlobToRegex(prefix + globs[k])
    {
      PrefixCompiles(prefix, globs[i]);
      r := r + [prefix + GlobToRegex(globs[i])];
    }
  }

  /** buildGitHubActionsSubjectRegex. */
  method BuildSubject(repo: string, branches: seq<string>, tags: seq<string>, refs: seq<string>) returns (r: string)
    ensures r == SubjectRegex(repo, RefGlobs(branches, tags, refs))
  {
    var refPattern := "refs/.+";
    ghost var globs := RefGlobs(branches, tags, refs);
    if |branches| + |tags| + |refs| != 0 {
      var onBranches := AppendPatterns([], "refs/heads/", branches);
      var withTags := AppendPatterns(onBranches, "refs/tags/", tags);
      var patterns := AppendPatterns(withTags, "", refs);
      AllCompiled(branches, tags, refs, onBranches, withTags, patterns);
      JoinCompiled(globs, patterns);
      refPattern := "(?:" + JoinBars(patterns) + ")";
    }
    r := "^https://github\\.com/" + QuoteMeta(repo) + "/" + ".github/workflows/[^@]+" + "@" + refPattern + "$";
  }

  lemma AllCompiled(branches: seq<string>, tags: seq<string>, refs: seq<string>,
                    a: seq<string>, b: seq<string>, c: seq<string>)
    requires |a| == |branches| && |b| == |a| + |tags| && |c| == |b| + |refs|
    requires b[..|a|] == a && c[..|b|] == b
    requires forall i :: 0 <= i < |branches| ==> a[i] == GlobToRegex("refs/heads/" + branches[i])
    requires forall i :: 0 <= i < |tags| ==> b[|a| + i] == GlobToRegex("refs/tags/" + tags[i])
    requires forall i :: 0 <= i < |refs| ==> c[|b| + i] == GlobToRegex("" + refs[i])
    ensures var globs := RefGlobs(branches, tags, refs);
            |c| == |globs| && forall i :: 0 <= i < |c| ==> c[i] == GlobToRegex(globs[i])
  {
    var globs := RefGlobs(branches, tags, refs);
    forall i | 0 <= i < |c| ensures c[i] == GlobToRegex(globs[i]) {
      if i < |a| {
        assert c[i] == b[i] == a[i];
      } else if i < |b| {
        assert c[i] == b[|a| + (i - |a|)];
      } else {
        assert c[i] == c[|b| + (i - |b|)];
        assert "" + refs[i - |b|] == refs[i - |b|];
      }
    }
  }

  /** What the lists of branches, tags and refs allow; every ref when all are empty. */
  ghost predicate RefListed(branches: seq<string>, tags: seq<string>, refs: seq<string>, ref: string) {
    if branches == [] && tags == [] && refs == [] then "refs/" <= ref && |ref| > 5 && '\n' !in ref[5..]
    else RefAllowed(branches, tags, ref) || exists i :: 0 <= i < |refs| && Expands(refs[i], ref)
  }

  lemma RefOkIffListed(branches: seq<string>, tags: seq<string>, refs: seq<string>, ref: string)
    ensures RefOk(RefGlobs(branches, tags, refs), ref) <==> RefListed(branches, tags, refs, ref)
  {
    var globs := RefGlobs(branches, tags, refs);
    if globs != [] {
      if i :| 0 <= i < |globs| && Expands(globs[i], ref) {
        ListedFromGlob(branches, tags, refs, ref, i);
      }
      if RefListed(branches, tags, refs, ref) { GlobFromListed(branches, tags, refs, ref); }
    }
  }

  lemma ListedFromGlob(branches: seq<string>, tags: seq<string>, refs: seq<string>, ref: string, i: nat)
    requires var globs := RefGlobs(branches, tags, refs); i < |globs| && Expands(globs[i], ref)
    ensures RefAllowed(branches, tags, ref) || exists i :: 0 <= i < |refs| && Expands(refs[i], ref)
  {
    if i < |branches| {
      ExpandsLiteral("refs/heads/", branches[i], ref);
    } else if i < |branches| + |tags| {
      ExpandsLiteral("refs/tags/", tags[i - |branches|], ref);
    }
  }

  lemma GlobFromListed(branches: seq<string>, tags: seq<string>, refs: seq<string>, ref: string)
    requires RefAllowed(branches, tags, ref) || exists i :: 0 <= i < |refs| && Expands(refs[i], ref)
    ensures var globs := RefGlobs(branches, tags, refs); exists i :: 0 <= i < |globs| && Expands(globs[i], ref)
  {
    var globs := RefGlobs(branches, tags, refs);
    if i :| 0 <= i < |branches| && "refs/heads/" <= ref && Expands(branches[i], ref[11..]) {
      ExpandsLiteral("refs/heads/", branches[i], ref);
      assert Expands(globs[i], ref);
    } else if i :| 0 <= i < |tags| && "refs/tags/" <= ref && Expands(tags[i], ref[10..]) {
      ExpandsLiteral("refs/tags/", tags[i], ref);
      assert Expands(globs[|branches| + i], ref);
    } else if i :| 0 <= i < |refs| && Expands(refs[i], ref) {
      assert Expands(globs[|branches| + |tags| + i], ref);
    }
  }

  /** A subject x of the dot, workflow w and ref, at an allowed ref. */
  ghost predicate AllowedSubject(repo: string, branches: seq<string>, tags: seq<string>, refs: seq<string>,
                                 s: string, x: char, w: string, ref: string) {
    && x != '\n' && w != [] && '@' !in w && RefListed(branches, tags, refs, ref)
    && s == RepoPart(repo) + ([x] + (MID + (w + ("@" + ref))))
  }

  /** The pattern built from the three lists accepts exactly the subjects at a listed ref. */
  lemma SubjectAccepts(repo: string, branches: seq<string>, tags: seq<string>, refs: seq<string>, s: string)
    ensures Matches(SubjectRegex(repo, RefGlobs(branches, tags, refs)), s) <==>
            exists x, w, ref :: AllowedSubject(repo, branches, tags, refs, s, x, w, ref)
  {
    var globs := RefGlobs(branches, tags, refs);
    SubjectLanguage(repo, globs, s);
    forall x, w, ref
      ensures Subject(repo, globs, s, x, w, ref) <==> AllowedSubject(repo, branches, tags, refs, s, x, w, ref)
    {
      RefOkIffListed(branches, tags, refs, ref);
    }
  }

  /** The dot of ".github" is not quoted: any character but a line break passes for it. */
  lemma DotIsAnyCharacter(repo: string, globs: seq<string>, s: string, w: string, ref: string, x: char)
    requires Subject(repo, globs, s, '.', w, ref) && x != '\n'
    ensures Matches(SubjectRegex(repo, globs), RepoPart(repo) + ([x] + (MID + (w + ("@" + ref)))))
  {
    var t := RepoPart(repo) + ([x] + (MID + (w + ("@" + ref))));
    assert Subject(repo, globs, t, x, w, ref);
    SubjectLanguage(repo, globs, t);
  }
}
