/** Enough of regular expression syntax and meaning to read back the patterns that the
    policies generate: literals, escapes, '.', negated one-character classes, groups with
    alternatives, and the quantifiers '*' and '+'. */
module Regex {
  import opened Wrappers

  datatype Quantifier = Once | ZeroOrMore | OneOrMore
  datatype Atom = Lit(c: char) | AnyChar | NotChar(c: char) | Group(alternatives: Alternatives)
  datatype Alternatives = Last(items: seq<Item>) | Or(items: seq<Item>, others: Alternatives)
  datatype Item = Item(atom: Atom, quantifier: Quantifier)

  predicate IsMeta(c: char) {
    c in {'\\', '.', '+', '*', '?', '(', ')', '|', '[', ']', '{', '}', '^', '$'}
  }

  // ----- syntax -----

  datatype Parsed<+T> = Parsed(tree: T, rest: string)

  function ParseAtom(s: string): (r: Option<Parsed<Atom>>)
    ensures r.Some? ==> |r.value.rest| < |s|
    decreases |s|, 0
  {
    if s == [] then None
    else if s[0] == '\\' then
      if |s| >= 2 then Some(Parsed(Lit(s[1]), s[2..])) else None
    else if s[0] == '.' then Some(Parsed(AnyChar, s[1..]))
    else if s[0] == '[' then
      if |s| >= 4 && s[1] == '^' && s[3] == ']' then Some(Parsed(NotChar(s[2]), s[4..])) else None
    else if s[0] == '(' then
      if |s| >= 3 && s[1] == '?' && s[2] == ':' then
        var alts := ParseAlternatives(s[3..]);
        if alts.Some? && alts.value.rest != [] && alts.value.rest[0] == ')' then
          Some(Parsed(Group(alts.value.tree), alts.value.rest[1..]))
        else None
      else None
    else if IsMeta(s[0]) then None
    else Some(Parsed(Lit(s[0]), s[1..]))
  }

  /** Where a sequence of items ends. */
  predicate AtEnd(s: string) {
    s == [] || s[0] == '|' || s[0] == ')' || s[0] == '$'
  }

  function ParseItems(s: string): (r: Option<Parsed<seq<Item>>>)
    ensures r.Some? ==> |r.value.rest| <= |s|
    decreases |s|, 1
  {
    if AtEnd(s) then Some(Parsed([], s))
    else
      var a := ParseAtom(s);
      if a.None? then None
      else
        var q := if a.value.rest != [] && a.value.rest[0] == '*' then ZeroOrMore
                 else if a.value.rest != [] && a.value.rest[0] == '+' then OneOrMore
                 else Once;
        var tail := ParseItems(if q.Once? then a.value.rest else a.value.rest[1..]);
        if tail.None? then None
        else Some(Parsed([Item(a.value.tree, q)] + tail.value.tree, tail.value.rest))
  }

  function ParseAlternatives(s: string): (r: Option<Parsed<Alternatives>>)
    ensures r.Some? ==> |r.value.rest| <= |s|
    decreases |s|, 2
  {
    var first := ParseItems(s);
    if first.None? then None
    else if first.value.rest != [] && first.value.rest[0] == '|' then
      var others := ParseAlternatives(first.value.rest[1..]);
      if others.None? then None
      else Some(Parsed(Or(first.value.tree, others.value.tree), others.value.rest))
    else Some(Parsed(Last(first.value.tree), first.value.rest))
  }

  /** A pattern anchored at both ends. */
  function Parse(s: string): Option<seq<Item>> {
    if s == [] || s[0] != '^' then None
    else
      var items := ParseItems(s[1..]);
      if items.Some? && items.value.rest == ['$'] then Some(items.value.tree) else None
  }

  // ----- meaning -----

  ghost predicate MatchAtom(a: Atom, s: string)
    decreases a, |s|, 0
  {
    match a
    case Lit(c) => s == [c]
    case AnyChar => |s| == 1 && s[0] != '\n'
    case NotChar(c) => |s| == 1 && s[0] != c
    case Group(alts) => MatchAlternatives(alts, s)
  }

  ghost predicate MatchAlternatives(a: Alternatives, s: string)
    decreases a, |s|, 0
  {
    MatchItems(a.items, s) || (a.Or? && MatchAlternatives(a.others, s))
  }

  ghost predicate MatchItem(it: Item, s: string)
    decreases it, |s|, 1
  {
    match it.quantifier
    case Once => MatchAtom(it.atom, s)
    case ZeroOrMore => s == [] || exists k :: 0 < k <= |s| && MatchAtom(it.atom, s[..k]) && MatchItem(it, s[k..])
    case OneOrMore =>
      exists k :: 0 < k <= |s| && MatchAtom(it.atom, s[..k]) && (k == |s| || MatchItem(it, s[k..]))
  }

  ghost predicate MatchItems(items: seq<Item>, s: string)
    decreases items, |s|, 2
  {
    if items == [] then s == []
    else exists k :: 0 <= k <= |s| && MatchItem(items[0], s[..k]) && MatchItems(items[1..], s[k..])
  }

  /** Does the pattern match the whole text? A pattern that does not parse matches nothing. */
  ghost predicate Matches(pattern: string, s: string) {
    Parse(pattern).Some? && MatchItems(Parse(pattern).value, s)
  }

  /** A sequence of one item. */
  lemma MatchOne(it: Item, s: string)
    ensures MatchItems([it], s) <==> MatchItem(it, s)
  {
    assert [it][1..] == [] && s[..|s|] == s && s[|s|..] == [];
    if MatchItems([it], s) {
      var k :| 0 <= k <= |s| && MatchItem(it, s[..k]) && MatchItems([it][1..], s[k..]);
    }
  }

  /** A repeated negated class matches the strings without that character. */
  lemma {:induction false} RunMatches(c: char, s: string)
    ensures MatchItem(Item(NotChar(c), ZeroOrMore), s) <==> c !in s
    ensures MatchItem(Item(NotChar(c), OneOrMore), s) <==> s != [] && c !in s
    decreases |s|
  {
    if s != [] {
      var t := s[1..];
      RunMatches(c, t);
      assert s == [s[0]] + t && s[..1] == [s[0]];
      assert forall k :: 0 < k <= |s| && MatchAtom(NotChar(c), s[..k]) ==> k == 1;
    }
  }
}
