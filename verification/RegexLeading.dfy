/** Leading strings and nodes of a tree, and the merging of single-rune nodes. */
module RegexLeading {
  import opened Spans
  import opened RuneClass
  import opened RegexTree
  import opened Options

  // ----- leading literal strings

  /** The literal a tree starts with, and whether it folds case. */
  function LeadingString(re: Regexp): (seq<int>, bool) {
    if re.op == Concat && re.sub != [] then
      if re.sub[0].op == Literal then (re.sub[0].rune, re.sub[0].flags.foldCase) else ([], false)
    else if re.op == Literal then (re.rune, re.flags.foldCase)
    else ([], false)
  }

  function RemoveLeadingString(re: Regexp, n: nat): Regexp
    decreases re
  {
    if re.op == Concat && re.sub != [] then
      var sub0 := RemoveLeadingString(re.sub[0], n);
      if sub0.op == EmptyMatch then
        if |re.sub| == 1 then re.(op := EmptyMatch, sub := [])
        else if |re.sub| == 2 then re.sub[1]
        else re.(sub := re.sub[1..])
      else re.(sub := [sub0] + re.sub[1..])
    else if re.op == Literal then
      var rest := re.rune[if n < |re.rune| then n else |re.rune|..];
      if rest == [] then re.(op := EmptyMatch, rune := []) else re.(rune := rest)
    else re
  }

  /** Removing a leading string from a literal. */
  lemma RemoveFromLiteral(e: Env, re: Regexp, str: seq<int>)
    requires WellFormed(re) && re.op == Literal && str <= re.rune
    ensures var r := RemoveLeadingString(re, |str|);
            && WellFormed(r) && (r.op == EmptyMatch <==> str == re.rune) && (r.op == EmptyMatch || r.op == Literal)
            && Match(e, re) == Then(LitMatch(e, str, re.flags.foldCase), Match(e, r))
            && Weight(r) + 3 * |str| == Weight(re)
  {
    var rest := re.rune[|str|..];
    assert re.rune == str + rest;
    LitConcat(e, str, rest, re.flags.foldCase);
    LitEmpty(e, re.flags.foldCase);
  }

  /** A tree that starts with `str` is `str` followed by what remains after removing it. */
  lemma RemovePrefix(e: Env, re: Regexp, str: seq<int>)
    requires WellFormed(re) && str <= LeadingString(re).0 && str != []
    ensures var r := RemoveLeadingString(re, |str|);
            && WellFormed(r)
            && Match(e, re) == Then(LitMatch(e, str, LeadingString(re).1), Match(e, r))
            && Weight(r) + 3 * |str| <= Weight(re)
  {
    if re.op == Literal {
      RemoveFromLiteral(e, re, str);
    } else {
      RemoveFromConcat(e, re, str);
    }
  }

  /** What is left of a concatenation is what is left of its first node, then its tail. */
  lemma ConcatLeft(e: Env, re: Regexp, n: nat)
    requires WellFormed(re) && re.op == Concat && re.sub != []
    requires WellFormed(RemoveLeadingString(re.sub[0], n))
    ensures var r, sub0, rest := RemoveLeadingString(re, n), RemoveLeadingString(re.sub[0], n), re.sub[1..];
            && WellFormed(r) && AllWellFormed(rest)
            && Match(e, r) == Then(Match(e, sub0), MatchAll(e, rest))
            && Weight(r) <= 1 + Weight(sub0) + WeightAll(rest)
  {
    hide Then, Id, LitMatch, OneRune, Repeated, Assertion, Within;
    var sub0, rest := RemoveLeadingString(re.sub[0], n), re.sub[1..];
    assert AllWellFormed([sub0] + rest);
    if sub0.op == EmptyMatch {
      MatchAllWithin(e, rest);
      IdThen(|e.text|, MatchAll(e, rest));
      if |re.sub| == 1 {
        assert rest == [];
      } else if |re.sub| == 2 {
        assert rest == [re.sub[1]];
        MatchAllOne(e, re.sub[1]);
        WeightOne(re.sub[1]);
      }
    } else {
      assert ([sub0] + rest)[1..] == rest;
    }
  }

  lemma RemoveFromConcat(e: Env, re: Regexp, str: seq<int>)
    requires WellFormed(re) && re.op == Concat && re.sub != [] && re.sub[0].op == Literal
    requires str <= re.sub[0].rune && str != []
    ensures var r := RemoveLeadingString(re, |str|);
            && WellFormed(r)
            && Match(e, re) == Then(LitMatch(e, str, re.sub[0].flags.foldCase), Match(e, r))
            && Weight(r) + 3 * |str| <= Weight(re)
  {
    var sub0, rest := RemoveLeadingString(re.sub[0], |str|), re.sub[1..];
    var lit := LitMatch(e, str, re.sub[0].flags.foldCase);
    RemoveFromLiteral(e, re.sub[0], str);
    ConcatLeft(e, re, |str|);
    assert Match(e, re) == Then(Match(e, re.sub[0]), MatchAll(e, rest));
    assert Weight(re) == 1 + Weight(re.sub[0]) + WeightAll(rest);
    hide *;
    ThenAssociative(lit, Match(e, sub0), MatchAll(e, rest));
  }

  // ----- leading nodes

  function LeadingRegexp(re: Regexp): Option<Regexp> {
    if re.op == EmptyMatch then None
    else if re.op == Concat && re.sub != [] then
      if re.sub[0].op == EmptyMatch then None else Some(re.sub[0])
    else Some(re)
  }

  /** The leading node and what follows it. */
  function RemoveLeadingRegexp(re: Regexp): (Regexp, Regexp) {
    if re.op == Concat && re.sub != [] then
      (re.sub[0],
       if |re.sub| == 1 then NewRegexp(EmptyMatch)
       else if |re.sub| == 2 then re.sub[1]
       else re.(sub := re.sub[1..]))
    else (re, NewRegexp(EmptyMatch))
  }

  /** What follows the first node of a concatenation is the concatenation of its tail. */
  lemma TailNode(e: Env, re: Regexp)
    requires WellFormed(re) && re.op == Concat && re.sub != []
    ensures var rest := RemoveLeadingRegexp(re).1;
            && WellFormed(rest) && AllWellFormed(re.sub[1..])
            && Match(e, rest) == MatchAll(e, re.sub[1..]) && Weight(rest) <= 1 + WeightAll(re.sub[1..])
  {
    hide Then, Id, LitMatch, OneRune, Repeated, Assertion, Within;
    var tail := re.sub[1..];
    if |re.sub| == 1 {
      assert tail == [];
    } else if |re.sub| == 2 {
      assert tail == [re.sub[1]];
      MatchAllOne(e, re.sub[1]);
      WeightOne(re.sub[1]);
    }
  }

  lemma RemoveNode(e: Env, re: Regexp)
    requires WellFormed(re)
    ensures var (lead, rest) := RemoveLeadingRegexp(re);
            && WellFormed(lead) && WellFormed(rest)
            && Match(e, re) == Then(Match(e, lead), Match(e, rest))
            && Weight(rest) + Weight(lead) <= Weight(re) + 1
  {
    if re.op == Concat && re.sub != [] {
      TailNode(e, re);
      ConcatFirst(e, re);
    } else {
      EmptyNode(e);
      MatchWithin(e, re);
      ThenId(|e.text|, Match(e, re));
    }
    hide Match, MatchAll, Weight, WeightAll, WellFormed, Then, Id;
  }

  lemma ConcatFirst(e: Env, re: Regexp)
    requires WellFormed(re) && re.op == Concat && re.sub != []
    ensures WellFormed(re.sub[0]) && AllWellFormed(re.sub[1..])
    ensures Match(e, re) == Then(Match(e, re.sub[0]), MatchAll(e, re.sub[1..]))
    ensures Weight(re) == 1 + Weight(re.sub[0]) + WeightAll(re.sub[1..])
  {
    hide Then;
  }

  lemma EmptyNode(e: Env)
    ensures var empty := NewRegexp(EmptyMatch);
            WellFormed(empty) && Match(e, empty) == Id(|e.text|) && Weight(empty) == 1
  {
  }

  // ----- nodes that match one rune

  predicate IsCharClass(re: Regexp) {
    (re.op == Literal && |re.rune| == 1) || re.op == CharClass || re.op == AnyCharNotNL || re.op == AnyChar
  }

  /** The source's order of operators. */
  function Rank(op: Op): nat {
    match op
    case NoMatch => 1
    case EmptyMatch => 2
    case Literal => 3
    case CharClass => 4
    case AnyCharNotNL => 5
    case AnyChar => 6
    case BeginLine => 7
    case EndLine => 8
    case BeginText => 9
    case EndText => 10
    case WordBoundary => 11
    case NoWordBoundary => 12
    case Capture => 13
    case Star => 14
    case Plus => 15
    case Quest => 16
    case Repeat => 17
    case Concat => 18
    case Alternate => 19
  }

  ghost function LiteralRunes(fold: FoldTable, r: int, foldCase: bool): iset<int> {
    if foldCase then Folded(fold, r) else iset{r}
  }

  /** The runes a single-rune node matches. */
  ghost function RuneSet(fold: FoldTable, re: Regexp): iset<int>
    requires IsCharClass(re)
  {
    match re.op
    case Literal => LiteralRunes(fold, re.rune[0], re.flags.foldCase)
    case CharClass => Members(re.ranges)
    case AnyCharNotNL => AllButNewline()
    case _ => AllRunes()
  }

  lemma CharClassMatch(e: Env, re: Regexp)
    requires WellFormed(re) && IsCharClass(re)
    ensures Match(e, re) == OneRune(e, RuneSet(e.fold, re))
  {
    if re.op == Literal {
      var s := RuneSet(e.fold, re);
      forall i, j ensures LitAt(e, re.rune, re.flags.foldCase, i, j) <==> OneAt(e, s, (i, j)) {
      }
      assert forall p: (int, int) :: LitAt(e, re.rune, re.flags.foldCase, p.0, p.1) <==> OneAt(e, s, (p.0, p.1));
    }
  }

  /** On runes, `out` is the union of the two sets. */
  ghost predicate Unites(s: iset<int>, t: iset<int>, out: iset<int>) {
    forall c :: IsRune(c) ==> (c in out <==> c in s || c in t)
  }

  lemma OneRuneUnion(e: Env, s: iset<int>, t: iset<int>, out: iset<int>)
    requires ValidEnv(e) && Unites(s, t, out)
    ensures OneRune(e, out) == OneRune(e, s) + OneRune(e, t)
  {
    forall p ensures OneAt(e, out, p) <==> OneAt(e, s, p) || OneAt(e, t, p) {
    }
  }

  predicate InCharClass(r: int, ranges: seq<Range>) {
    exists k :: 0 <= k < |ranges| && ranges[k].lo <= r <= ranges[k].hi
  }

  function MatchRune(re: Regexp, r: int): bool {
    match re.op
    case Literal => |re.rune| == 1 && re.rune[0] == r
    case CharClass => InCharClass(r, re.ranges)
    case AnyCharNotNL => r != NEWLINE
    case AnyChar => true
    case _ => false
  }

  lemma MatchRuneNewline(fold: FoldTable, re: Regexp)
    requires IsCharClass(re) && NewlineAlone(fold)
    ensures MatchRune(re, NEWLINE) <==> NEWLINE in RuneSet(fold, re)
  {
    if re.op == Literal {
      FoldedNewline(fold, re.rune[0]);
    } else if re.op == CharClass {
      if InCharClass(NEWLINE, re.ranges) {
        var k :| 0 <= k < |re.ranges| && re.ranges[k].lo <= NEWLINE <= re.ranges[k].hi;
        assert InRange(re.ranges, k, NEWLINE);
      }
      if InClass(re.ranges, NEWLINE) {
        var k :| InRange(re.ranges, k, NEWLINE);
      }
    }
  }

  method AppendLiteral(fold: FoldTable, r: seq<Range>, x: int, foldCase: bool) returns (out: seq<Range>)
    requires Proper(r)
    ensures Proper(out) && Members(out) == Members(r) + LiteralRunes(fold, x, foldCase)
  {
    if foldCase {
      out := AppendFoldedRange(fold, r, x, x);
      FoldedOne(fold, x);
    } else {
      PointInterval(x);
      out := AppendRange(r, x, x);
    }
  }

  /** Adds the runes of `src` to `dst`, the more complex of the two. */
  method MergeCharClass(fold: FoldTable, dst: Regexp, src: Regexp) returns (out: Regexp)
    requires NewlineAlone(fold) && WellFormed(dst) && WellFormed(src)
    requires IsCharClass(dst) && IsCharClass(src) && Rank(src.op) <= Rank(dst.op)
    ensures WellFormed(out) && IsCharClass(out) && Rank(dst.op) <= Rank(out.op)
    ensures Unites(RuneSet(fold, dst), RuneSet(fold, src), RuneSet(fold, out))
    ensures out.op == Literal ==> out == dst && src.op == Literal && src.rune == dst.rune && src.flags == dst.flags
  {
    hide Folded;
    out := dst;
    match dst.op
    case AnyChar =>
    case AnyCharNotNL =>
      MatchRuneNewline(fold, src);
      if MatchRune(src, NEWLINE) {
        out := dst.(op := AnyChar);
      }
    case CharClass =>
      var ranges;
      if src.op == Literal {
        ranges := AppendLiteral(fold, dst.ranges, src.rune[0], src.flags.foldCase);
      } else {
        ranges := AppendClass(dst.ranges, src.ranges);
      }
      out := dst.(ranges := ranges);
      hide Members;
    case Literal =>
      if src.rune[0] == dst.rune[0] && src.flags == dst.flags {
        return;
      }
      MembersEmpty([]);
      var ranges := AppendLiteral(fold, [], dst.rune[0], dst.flags.foldCase);
      ranges := AppendLiteral(fold, ranges, src.rune[0], src.flags.foldCase);
      out := dst.(op := CharClass, rune := [], ranges := ranges);
      hide Members;
  }

  /** Normalises a class and recognises the two classes that have operators of their own. */
  method CleanAlt(re: Regexp) returns (out: Regexp)
    requires WellFormed(re)
    ensures WellFormed(out) && (re.op != CharClass ==> out == re)
    ensures re.op == CharClass ==> IsCharClass(out) && out.op != Literal
    ensures re.op == CharClass ==> forall c, fold :: IsRune(c) ==> (c in RuneSet(fold, out) <==> c in Members(re.ranges))
  {
    out := re;
    if re.op != CharClass {
      return;
    }
    var ranges := CleanClass(re.ranges);
    out := re.(ranges := ranges);
    if ranges == [Range(0, MAX_RUNE)] {
      MembersOne(ranges[0]);
      out := re.(op := AnyChar, ranges := []);
    } else if ranges == [Range(0, NEWLINE - 1), Range(NEWLINE + 1, MAX_RUNE)] {
      assert ranges == [ranges[0]] + [ranges[1]];
      MembersConcat([ranges[0]], [ranges[1]]);
      MembersOne(ranges[0]);
      MembersOne(ranges[1]);
      out := re.(op := AnyCharNotNL, ranges := []);
    }
  }
}
