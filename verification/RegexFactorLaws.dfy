/** Laws behind the factoring of alternations, for every text. */
module RegexFactorLaws {
  import opened Spans
  import opened RuneClass
  import opened RegexTree
  import opened RegexLeading
  import opened Options

  /** The two alternations match the same spans of every text. */
  ghost predicate SameAny(fold: FoldTable, a: seq<Regexp>, b: seq<Regexp>) {
    && AllWellFormed(a) && AllWellFormed(b)
    && forall text :: ValidEnv(Env(fold, text)) ==> MatchAny(Env(fold, text), a) == MatchAny(Env(fold, text), b)
  }

  /** The tree matches what the alternation of `subs` matches, in every text. */
  ghost predicate IsAnyOf(fold: FoldTable, re: Regexp, subs: seq<Regexp>) {
    && WellFormed(re) && AllWellFormed(subs)
    && forall text :: ValidEnv(Env(fold, text)) ==> Match(Env(fold, text), re) == MatchAny(Env(fold, text), subs)
  }

  /** The tree matches what the concatenation of `subs` matches, in every text. */
  ghost predicate IsAllOf(fold: FoldTable, re: Regexp, subs: seq<Regexp>) {
    && WellFormed(re) && AllWellFormed(subs)
    && forall text :: ValidEnv(Env(fold, text)) ==> Match(Env(fold, text), re) == MatchAll(Env(fold, text), subs)
  }

  lemma OneIsAnyOf(fold: FoldTable, re: Regexp)
    requires WellFormed(re)
    ensures IsAnyOf(fold, re, [re]) && IsAllOf(fold, re, [re])
  {
    forall text | ValidEnv(Env(fold, text))
      ensures Match(Env(fold, text), re) == MatchAny(Env(fold, text), [re])
      ensures Match(Env(fold, text), re) == MatchAll(Env(fold, text), [re])
    {
      MatchAnyOne(Env(fold, text), re);
      MatchAllOne(Env(fold, text), re);
    }
  }

  lemma SameAnyTransitive(fold: FoldTable, a: seq<Regexp>, b: seq<Regexp>, c: seq<Regexp>)
    requires SameAny(fold, a, b) && SameAny(fold, b, c)
    ensures SameAny(fold, a, c)
  {
    hide MatchAny, ValidEnv, WellFormed;
    forall text | ValidEnv(Env(fold, text)) ensures MatchAny(Env(fold, text), a) == MatchAny(Env(fold, text), c) {
      assert MatchAny(Env(fold, text), a) == MatchAny(Env(fold, text), b);
      assert MatchAny(Env(fold, text), b) == MatchAny(Env(fold, text), c);
    }
  }

  /** A single alternative stands for its alternation. */
  lemma SingleAnswers(fold: FoldTable, subs: seq<Regexp>, out: seq<Regexp>)
    requires SameAny(fold, subs, out) && |out| == 1
    ensures IsAnyOf(fold, out[0], subs)
  {
    hide Match, ValidEnv;
    assert out == [out[0]];
    forall text | ValidEnv(Env(fold, text)) ensures Match(Env(fold, text), out[0]) == MatchAny(Env(fold, text), subs) {
      MatchAnyOne(Env(fold, text), out[0]);
      assert MatchAny(Env(fold, text), subs) == MatchAny(Env(fold, text), out);
    }
  }

  // ----- progress of a round over the alternatives

  /** `out` replaces the alternatives before `start`; the rest is still to come. */
  ghost predicate Pending(fold: FoldTable, subs: seq<Regexp>, out: seq<Regexp>, start: nat) {
    && start <= |subs| && AllWellFormed(out) && SameAny(fold, subs, out + subs[start..])
    && WeightAll(out) + WeightAll(subs[start..]) <= WeightAll(subs)
  }

  lemma PendingStart(fold: FoldTable, subs: seq<Regexp>)
    requires AllWellFormed(subs)
    ensures Pending(fold, subs, [], 0)
  {
    assert subs[0..] == subs && [] + subs == subs;
  }

  lemma PendingEnd(fold: FoldTable, subs: seq<Regexp>, out: seq<Regexp>)
    requires Pending(fold, subs, out, |subs|)
    ensures SameAny(fold, subs, out) && WeightAll(out) <= WeightAll(subs)
  {
    assert out + subs[|subs|..] == out;
  }

  lemma ReplaceRun(e: Env, out: seq<Regexp>, re: Regexp, run: seq<Regexp>, rest: seq<Regexp>)
    requires AllWellFormed(out) && WellFormed(re) && AllWellFormed(run) && AllWellFormed(rest)
    requires Match(e, re) == MatchAny(e, run)
    ensures AllWellFormed(out + (run + rest)) && AllWellFormed(out + [re] + rest)
    ensures MatchAny(e, out + (run + rest)) == MatchAny(e, out + [re] + rest)
  {
    MatchAnyOne(e, re);
    MatchAnyConcat(e, run, rest);
    MatchAnyConcat(e, out, run + rest);
    MatchAnyConcat(e, out, [re]);
    MatchAnyConcat(e, out + [re], rest);
    hide *;
    RelAssociative(MatchAny(e, out), MatchAny(e, run), MatchAny(e, rest));
  }

  /** Replacing the run `start..i` by one tree that matches the same. */
  lemma PendingPush(fold: FoldTable, subs: seq<Regexp>, out: seq<Regexp>, start: nat, i: nat, re: Regexp)
    requires Pending(fold, subs, out, start) && start <= i <= |subs|
    requires IsAnyOf(fold, re, subs[start..i]) && Weight(re) <= WeightAll(subs[start..i])
    ensures Pending(fold, subs, out + [re], i)
  {
    var run, rest := subs[start..i], subs[i..];
    assert subs[start..] == run + rest;
    assert AllWellFormed(out + [re]);
    assert AllWellFormed(out + [re] + rest);
    WeightConcat(run, rest);
    WeightConcat(out, [re]);
    WeightOne(re);
    hide Match, MatchAny, ValidEnv, WellFormed, Weight, WeightAll;
    forall text | ValidEnv(Env(fold, text))
      ensures MatchAny(Env(fold, text), subs) == MatchAny(Env(fold, text), out + [re] + rest)
    {
      assert Match(Env(fold, text), re) == MatchAny(Env(fold, text), run);
      ReplaceRun(Env(fold, text), out, re, run, rest);
      assert MatchAny(Env(fold, text), subs) == MatchAny(Env(fold, text), out + subs[start..]);
    }
  }

  /** Moving one alternative over unchanged. */
  lemma PendingKeep(fold: FoldTable, subs: seq<Regexp>, out: seq<Regexp>, start: nat)
    requires Pending(fold, subs, out, start) && start < |subs|
    ensures Pending(fold, subs, out + [subs[start]], start + 1)
  {
    assert subs[start..start + 1] == [subs[start]];
    assert WellFormed(subs[start]);
    OneIsAnyOf(fold, subs[start]);
    WeightOne(subs[start]);
    hide IsAnyOf, WeightAll, Weight;
    PendingPush(fold, subs, out, start, start + 1, subs[start]);
  }

  // ----- pulling out a common start

  /** Alternatives that each start with `lead` are `lead` followed by the alternation of their rests. */
  lemma {:induction false} CommonStart(e: Env, lead: Rel, items: seq<Regexp>, rests: seq<Regexp>)
    requires AllWellFormed(items) && AllWellFormed(rests) && |items| == |rests|
    requires forall k :: 0 <= k < |items| ==> Match(e, items[k]) == Then(lead, Match(e, rests[k]))
    ensures MatchAny(e, items) == Then(lead, MatchAny(e, rests))
  {
    hide Match, Then;
    if items == [] {
      ThenNothing(lead);
    } else {
      CommonStart(e, lead, items[1..], rests[1..]);
      ThenUnion(lead, Match(e, rests[0]), MatchAny(e, rests[1..]));
    }
  }

  /** The factored form `prefix(suffix)`. */
  function Factored(prefix: Regexp, suffix: Regexp): Regexp {
    Regexp(Concat, NO_FLAGS, [prefix, suffix], [], [], 0, 0, 0, "")
  }

  lemma FactoredMatch(e: Env, prefix: Regexp, suffix: Regexp)
    requires WellFormed(prefix) && WellFormed(suffix)
    ensures WellFormed(Factored(prefix, suffix))
    ensures Match(e, Factored(prefix, suffix)) == Then(Match(e, prefix), Match(e, suffix))
    ensures Weight(Factored(prefix, suffix)) == 1 + Weight(prefix) + Weight(suffix)
  {
    var f := Factored(prefix, suffix);
    assert f.sub[1..] == [suffix];
    assert AllWellFormed([suffix]);
    WeightOne(suffix);
    assert Match(e, f) == Then(Match(e, prefix), MatchAll(e, [suffix]));
    MatchAllOne(e, suffix);
  }

  function LiteralNode(str: seq<int>, foldCase: bool): Regexp {
    Regexp(Literal, NO_FLAGS.(foldCase := foldCase), [], str, [], 0, 0, 0, "")
  }

  /** Every item starts with the literal `str`. */
  ghost predicate StartWith(items: seq<Regexp>, str: seq<int>, foldCase: bool) {
    forall k :: 0 <= k < |items| ==> LeadingString(items[k]).1 == foldCase && str <= LeadingString(items[k]).0
  }

  /** `run` is `items` without the first `n` runes of each. */
  ghost predicate Stripped(items: seq<Regexp>, run: seq<Regexp>, n: nat) {
    |run| == |items| && forall k :: 0 <= k < |items| ==> run[k] == RemoveLeadingString(items[k], n)
  }

  /** An alternation without its first alternative weighs that much less. */
  lemma WeightFirst(items: seq<Regexp>)
    requires items != []
    ensures WeightAll(items) == Weight(items[0]) + WeightAll(items[1..])
  {
  }

  lemma OneMore(n: nat, m: int)
    ensures (n + 1) * m == m + n * m
  {
  }

  lemma {:induction false} StrippedWeight(fold: FoldTable, items: seq<Regexp>, run: seq<Regexp>, str: seq<int>, foldCase: bool)
    requires AllWellFormed(items) && str != [] && StartWith(items, str, foldCase) && Stripped(items, run, |str|)
    ensures AllWellFormed(run) && WeightAll(run) + |items| * (3 * |str|) <= WeightAll(items)
  {
    hide RemoveLeadingString, LeadingString, Weight, WellFormed, WeightAll, Match;
    if items == [] {
      WeightNone();
    } else {
      RemovePrefix(Env(fold, []), items[0], str);
      StrippedWeight(fold, items[1..], run[1..], str, foldCase);
      OneMore(|items[1..]|, 3 * |str|);
      WeightFirst(items);
      WeightFirst(run);
      assert run == [run[0]] + run[1..];
    }
  }

  lemma WeightNone()
    ensures WeightAll([]) == 0
  {
  }

  lemma LiteralNodeWellFormed(str: seq<int>, foldCase: bool)
    ensures WellFormed(LiteralNode(str, foldCase))
  {
  }

  lemma AtLeastTwice(n: nat, m: nat)
    requires n >= 2
    ensures n * m >= 2 * m
  {
  }

  lemma FactorStringWeight(fold: FoldTable, items: seq<Regexp>, run: seq<Regexp>, str: seq<int>, foldCase: bool, suffix: Regexp)
    requires AllWellFormed(items) && |items| >= 2 && str != []
    requires StartWith(items, str, foldCase) && Stripped(items, run, |str|)
    requires WellFormed(suffix) && Weight(suffix) <= WeightAll(run) + 1
    ensures Weight(Factored(LiteralNode(str, foldCase), suffix)) <= WeightAll(items)
  {
    assert Weight(LiteralNode(str, foldCase)) == 1 + 3 * |str|;
    hide Match, Weight, WeightAll, StartWith, Stripped, WellFormed, LiteralNode;
    StrippedWeight(fold, items, run, str, foldCase);
    LiteralNodeWellFormed(str, foldCase);
    FactoredMatch(Env(fold, []), LiteralNode(str, foldCase), suffix);
    AtLeastTwice(|items|, 3 * |str|);
  }

  /** Pulling the literal out of at least two alternatives keeps the meaning and does not add weight. */
  lemma FactorString(fold: FoldTable, items: seq<Regexp>, run: seq<Regexp>, str: seq<int>, foldCase: bool, suffix: Regexp)
    requires AllWellFormed(items) && |items| >= 2 && str != []
    requires StartWith(items, str, foldCase) && Stripped(items, run, |str|)
    requires IsAnyOf(fold, suffix, run) && Weight(suffix) <= WeightAll(run) + 1
    ensures IsAnyOf(fold, Factored(LiteralNode(str, foldCase), suffix), items)
    ensures Weight(Factored(LiteralNode(str, foldCase), suffix)) <= WeightAll(items)
  {
    hide Match, MatchAny, Weight, WeightAll, ValidEnv, StartWith, Stripped, Factored;
    FactorStringWeight(fold, items, run, str, foldCase, suffix);
    var prefix := LiteralNode(str, foldCase);
    FactoredMatch(Env(fold, []), prefix, suffix);
    forall text | ValidEnv(Env(fold, text))
      ensures Match(Env(fold, text), Factored(prefix, suffix)) == MatchAny(Env(fold, text), items)
    {
      assert Match(Env(fold, text), suffix) == MatchAny(Env(fold, text), run);
      FactorStringAt(Env(fold, text), items, run, str, foldCase, suffix);
    }
  }

  lemma FactorStringAt(e: Env, items: seq<Regexp>, run: seq<Regexp>, str: seq<int>, foldCase: bool, suffix: Regexp)
    requires AllWellFormed(items) && AllWellFormed(run) && WellFormed(suffix) && str != []
    requires StartWith(items, str, foldCase) && Stripped(items, run, |str|)
    requires Match(e, suffix) == MatchAny(e, run)
    ensures Match(e, Factored(LiteralNode(str, foldCase), suffix)) == MatchAny(e, items)
  {
    var prefix := LiteralNode(str, foldCase);
    var lead := LitMatch(e, str, foldCase);
    assert Match(e, prefix) == lead;
    FactoredMatch(e, prefix, suffix);
    hide LitMatch, Then, RemoveLeadingString, LeadingString;
    forall k | 0 <= k < |items| ensures Match(e, items[k]) == Then(lead, Match(e, run[k])) {
      RemovePrefix(e, items[k], str);
    }
    hide Match;
    CommonStart(e, lead, items, run);
  }

  // ----- pulling out a common leading node

  /** A class, or a fixed repeat of a class. */
  predicate Simple(f: Regexp) {
    IsCharClass(f) || (f.op == Repeat && f.min == f.max && |f.sub| > 0 && IsCharClass(f.sub[0]))
  }

  /** Every item has a leading node the source calls equal to `first`. */
  ghost predicate LedBy(items: seq<Regexp>, first: Regexp) {
    forall k :: 0 <= k < |items| ==> LeadingRegexp(items[k]).Some? && Equal(first, LeadingRegexp(items[k]).value)
  }

  ghost predicate Beheaded(items: seq<Regexp>, run: seq<Regexp>) {
    |run| == |items| && forall k :: 0 <= k < |items| ==> run[k] == RemoveLeadingRegexp(items[k]).1
  }

  lemma LeadIsRemoved(re: Regexp)
    requires LeadingRegexp(re).Some?
    ensures RemoveLeadingRegexp(re).0 == LeadingRegexp(re).value
  {
  }

  lemma SimpleWeight(x: Regexp, y: Regexp)
    requires Simple(x) && Equal(x, y) && WellFormed(x) && WellFormed(y)
    ensures Weight(y) == Weight(x) >= 4
  {
    if x.op == Repeat {
      WeightOne(x.sub[0]);
      WeightOne(y.sub[0]);
      assert x.sub == [x.sub[0]] && y.sub == [y.sub[0]];
    }
  }

  lemma {:induction false} BeheadedWeight(fold: FoldTable, items: seq<Regexp>, run: seq<Regexp>, first: Regexp)
    requires AllWellFormed(items) && WellFormed(first) && Simple(first) && LedBy(items, first) && Beheaded(items, run)
    ensures AllWellFormed(run) && WeightAll(run) + |items| * (Weight(first) - 1) <= WeightAll(items)
  {
    hide RemoveLeadingRegexp, LeadingRegexp, Equal, Simple, Weight, WellFormed, WeightAll, Match;
    if items == [] {
      WeightNone();
    } else {
      RemoveNode(Env(fold, []), items[0]);
      LeadIsRemoved(items[0]);
      SimpleWeight(first, LeadingRegexp(items[0]).value);
      BeheadedWeight(fold, items[1..], run[1..], first);
      OneMore(|items[1..]|, Weight(first) - 1);
      WeightFirst(items);
      WeightFirst(run);
      assert run == [run[0]] + run[1..];
    }
  }

  lemma FactorNodeAt(e: Env, items: seq<Regexp>, run: seq<Regexp>, first: Regexp, suffix: Regexp)
    requires AllWellFormed(items) && AllWellFormed(run) && WellFormed(first) && WellFormed(suffix)
    requires LedBy(items, first) && Beheaded(items, run)
    requires Match(e, suffix) == MatchAny(e, run)
    ensures Match(e, Factored(first, suffix)) == MatchAny(e, items)
  {
    hide RemoveLeadingRegexp, LeadingRegexp, Equal, Then, Match;
    FactoredMatch(e, first, suffix);
    forall k | 0 <= k < |items| ensures Match(e, items[k]) == Then(Match(e, first), Match(e, run[k])) {
      RemoveNode(e, items[k]);
      LeadIsRemoved(items[k]);
      EqualMatch(e, first, LeadingRegexp(items[k]).value);
    }
    CommonStart(e, Match(e, first), items, run);
  }

  lemma FactorNodeWeight(fold: FoldTable, items: seq<Regexp>, run: seq<Regexp>, first: Regexp, suffix: Regexp)
    requires AllWellFormed(items) && |items| >= 2 && WellFormed(first) && Simple(first)
    requires LedBy(items, first) && Beheaded(items, run)
    requires WellFormed(suffix) && Weight(suffix) <= WeightAll(run) + 1
    ensures Weight(Factored(first, suffix)) <= WeightAll(items)
  {
    hide Match, Weight, WeightAll, LedBy, Beheaded, Equal;
    BeheadedWeight(fold, items, run, first);
    FactoredMatch(Env(fold, []), first, suffix);
    EqualItself(first);
    SimpleWeight(first, first);
    AtLeastTwice(|items|, Weight(first) - 1);
  }

  /** Pulling the leading node out of at least two alternatives keeps the meaning and does not add weight. */
  lemma FactorNode(fold: FoldTable, items: seq<Regexp>, run: seq<Regexp>, first: Regexp, suffix: Regexp)
    requires AllWellFormed(items) && |items| >= 2 && WellFormed(first) && Simple(first)
    requires LedBy(items, first) && Beheaded(items, run)
    requires IsAnyOf(fold, suffix, run) && Weight(suffix) <= WeightAll(run) + 1
    ensures IsAnyOf(fold, Factored(first, suffix), items)
    ensures Weight(Factored(first, suffix)) <= WeightAll(items)
  {
    hide Match, MatchAny, Weight, WeightAll, ValidEnv, LedBy, Beheaded, Factored, Equal;
    FactorNodeWeight(fold, items, run, first, suffix);
    FactoredMatch(Env(fold, []), first, suffix);
    forall text | ValidEnv(Env(fold, text))
      ensures Match(Env(fold, text), Factored(first, suffix)) == MatchAny(Env(fold, text), items)
    {
      assert Match(Env(fold, text), suffix) == MatchAny(Env(fold, text), run);
      FactorNodeAt(Env(fold, text), items, run, first, suffix);
    }
  }

  lemma {:induction false} EqualItself(x: Regexp)
    ensures Equal(x, x)
    decreases x
  {
    EqualAllItself(x.sub);
  }

  lemma {:induction false} EqualAllItself(a: seq<Regexp>)
    ensures EqualAll(a, a)
    decreases a
  {
    if a != [] {
      EqualItself(a[0]);
      EqualAllItself(a[1..]);
    }
  }

  // ----- merging single-rune alternatives

  ghost predicate SomeRune(fold: FoldTable, items: seq<Regexp>, c: int)
    requires forall k :: 0 <= k < |items| ==> IsCharClass(items[k])
  {
    exists k :: 0 <= k < |items| && c in RuneSet(fold, items[k])
  }

  lemma {:induction false} AnyOfClasses(e: Env, items: seq<Regexp>, s: iset<int>)
    requires ValidEnv(e) && AllWellFormed(items) && forall k :: 0 <= k < |items| ==> IsCharClass(items[k])
    requires forall c :: IsRune(c) ==> (c in s <==> SomeRune(e.fold, items, c))
    ensures MatchAny(e, items) == OneRune(e, s)
  {
    hide RuneSet, Match;
    if items == [] {
      assert forall p :: !OneAt(e, s, p);
    } else {
      var tail := items[1..];
      var t := iset c | IsRune(c) && SomeRune(e.fold, tail, c);
      AnyOfClasses(e, tail, t);
      CharClassMatch(e, items[0]);
      forall c | IsRune(c) ensures c in s <==> c in RuneSet(e.fold, items[0]) || c in t {
        if SomeRune(e.fold, items, c) {
          var k :| 0 <= k < |items| && c in RuneSet(e.fold, items[k]);
          assert k > 0 ==> c in RuneSet(e.fold, tail[k - 1]);
        }
        if SomeRune(e.fold, tail, c) {
          var k :| 0 <= k < |tail| && c in RuneSet(e.fold, tail[k]);
          assert c in RuneSet(e.fold, items[k + 1]);
        }
      }
      OneRuneUnion(e, RuneSet(e.fold, items[0]), t, s);
    }
  }

  /** A single-rune tree with exactly the runes of the items stands for their alternation. */
  lemma MergedClasses(fold: FoldTable, items: seq<Regexp>, re: Regexp)
    requires AllWellFormed(items) && (forall k :: 0 <= k < |items| ==> IsCharClass(items[k]))
    requires WellFormed(re) && IsCharClass(re)
    requires forall c :: IsRune(c) ==> (c in RuneSet(fold, re) <==> SomeRune(fold, items, c))
    ensures IsAnyOf(fold, re, items)
  {
    hide RuneSet, Match;
    forall text | ValidEnv(Env(fold, text)) ensures Match(Env(fold, text), re) == MatchAny(Env(fold, text), items) {
      CharClassMatch(Env(fold, text), re);
      AnyOfClasses(Env(fold, text), items, RuneSet(fold, re));
    }
  }

  lemma {:induction false} ClassesWeight(items: seq<Regexp>)
    requires forall k :: 0 <= k < |items| ==> IsCharClass(items[k])
    ensures WeightAll(items) == 4 * |items|
  {
    if items != [] {
      ClassesWeight(items[1..]);
    }
  }

  // ----- neighbours that have nothing in common any more

  /** Both strings start with the same rune, under the same folding. */
  predicate SameStart(a: (seq<int>, bool), b: (seq<int>, bool)) {
    a.1 == b.1 && a.0 != [] && b.0 != [] && a.0[0] == b.0[0]
  }

  /** The node an alternative starts with. */
  function Head(x: Regexp): Regexp {
    if x.op == Concat && x.sub != [] then x.sub[0] else x
  }

  /** A node that matches one rune: a literal of one, a class or a dot. */
  predicate SingleRune(x: Regexp) {
    match x.op
    case Literal => |x.rune| == 1
    case CharClass => true
    case AnyChar => true
    case AnyCharNotNL => true
    case _ => false
  }

  /** Both alternatives start with the same literal rune, under the same folding. */
  ghost predicate ShareLiteral(x: Regexp, y: Regexp) {
    var a, b := Head(x), Head(y);
    && a.op == Literal && b.op == Literal && a.flags.foldCase == b.flags.foldCase
    && exists c :: StartsWith(a, c) && StartsWith(b, c)
  }

  predicate StartsWith(x: Regexp, c: int) {
    x.rune != [] && x.rune[0] == c
  }

  /** Both alternatives start with equal nodes that match one rune, or a fixed number of times one rune. */
  ghost predicate ShareNode(x: Regexp, y: Regexp) {
    var a, b := Head(x), Head(y);
    Equal(a, b) && (SingleRune(a) || (a.op == Repeat && a.min == a.max && a.sub != [] && SingleRune(a.sub[0])))
  }

  lemma ShareLiteralMeaning(x: Regexp, y: Regexp)
    ensures ShareLiteral(x, y) <==> SameStart(LeadingString(x), LeadingString(y))
  {
    if SameStart(LeadingString(x), LeadingString(y)) {
      var c := LeadingString(x).0[0];
      assert StartsWith(Head(x), c) && StartsWith(Head(y), c);
    }
  }

  lemma SingleRuneMeaning(x: Regexp)
    ensures SingleRune(x) <==> IsCharClass(x)
  {
  }

  lemma ShareNodeMeaning(x: Regexp, y: Regexp)
    ensures var a, b := LeadingRegexp(x), LeadingRegexp(y);
            ShareNode(x, y) <==> a.Some? && b.Some? && Equal(a.value, b.value) && Simple(a.value)
  {
  }

  ghost predicate NoSharedLiterals(q: seq<Regexp>) {
    forall k :: 0 <= k < |q| - 1 ==> !ShareLiteral(q[k], q[k + 1])
  }

  ghost predicate NoSharedNodes(q: seq<Regexp>) {
    forall k :: 0 <= k < |q| - 1 ==> !ShareNode(q[k], q[k + 1])
  }

  /** No common literal, not both single runes, and a common node only with one of them a single rune. */
  ghost predicate Merged(x: Regexp, y: Regexp) {
    !ShareLiteral(x, y) && !(SingleRune(x) && SingleRune(y)) && (ShareNode(x, y) ==> SingleRune(x) || SingleRune(y))
  }

  ghost predicate AllMerged(q: seq<Regexp>) {
    forall k :: 0 <= k < |q| - 1 ==> Merged(q[k], q[k + 1])
  }

  /** What factoring leaves of neighbours: they are merged, and not both empty matches. */
  ghost predicate Tidy(q: seq<Regexp>) {
    AllMerged(q) && forall k :: 0 <= k < |q| - 1 ==> !(q[k].op == EmptyMatch && q[k + 1].op == EmptyMatch)
  }

  lemma MergedSnoc(q: seq<Regexp>, x: Regexp)
    requires AllMerged(q) && (q != [] ==> Merged(q[|q| - 1], x))
    ensures AllMerged(q + [x])
  {
    hide Merged;
    var r := q + [x];
    forall k | 0 <= k < |r| - 1 ensures Merged(r[k], r[k + 1]) {
      assert k < |q| - 1 ==> r[k + 1] == q[k + 1];
    }
  }

  /** A class without a leading string beside a node that is not a single rune. */
  lemma ClassBeside(c: Regexp, x: Regexp)
    requires IsCharClass(c) && c.op != Literal && !IsCharClass(x)
    ensures Merged(c, x) && Merged(x, c)
  {
    hide Equal;
  }

  /** An empty match beside a node that is none. */
  lemma EmptyBeside(x: Regexp, y: Regexp)
    requires y.op == EmptyMatch
    ensures Merged(x, y) && Merged(y, x)
  {
  }

  /** A run led by one literal rune would share it, so a run of nodes starts with something else. */
  lemma RunNotLiteral(subs: seq<Regexp>, start: nat, i: nat, first: Regexp)
    requires NoSharedLiterals(subs) && start + 2 <= i <= |subs| && LedBy(subs[start..i], first) && Simple(first)
    ensures first.op != Literal
  {
    var run := subs[start..i];
    assert run[0] == subs[start] && run[1] == subs[start + 1];
    assert LeadingRegexp(run[0]).Some? && LeadingRegexp(run[1]).Some?;
    assert !ShareLiteral(subs[start], subs[start + 1]);
    ShareLiteralMeaning(subs[start], subs[start + 1]);
    LedByLiteral(run[0], first);
    LedByLiteral(run[1], first);
  }

  lemma LedByLiteral(x: Regexp, first: Regexp)
    requires LeadingRegexp(x).Some? && Equal(first, LeadingRegexp(x).value)
    ensures first.op == Literal ==> LeadingString(x) == (first.rune, first.flags.foldCase)
  {
  }

  /** Single runes that are all one literal share it, so two neighbours never merge into a literal. */
  lemma MergeNotLiteral(subs: seq<Regexp>, start: nat, re: Regexp)
    requires NoSharedLiterals(subs) && start + 2 <= |subs| && IsCharClass(re)
    requires re.op == Literal ==> forall k :: start <= k < start + 2 ==> subs[k].op == Literal && subs[k].rune == re.rune && subs[k].flags == re.flags
    ensures re.op != Literal
  {
    assert !ShareLiteral(subs[start], subs[start + 1]);
    ShareLiteralMeaning(subs[start], subs[start + 1]);
  }

  lemma LiteralsSnoc(q: seq<Regexp>, x: Regexp)
    requires NoSharedLiterals(q) && (q != [] ==> !ShareLiteral(q[|q| - 1], x))
    ensures NoSharedLiterals(q + [x])
  {
    hide ShareLiteral;
    var r := q + [x];
    forall k | 0 <= k < |r| - 1 ensures !ShareLiteral(r[k], r[k + 1]) {
      assert k < |q| - 1 ==> r[k + 1] == q[k + 1];
    }
  }

  lemma NodesSnoc(q: seq<Regexp>, x: Regexp)
    requires NoSharedNodes(q) && (q != [] ==> !ShareNode(q[|q| - 1], x))
    ensures NoSharedNodes(q + [x])
  {
    hide ShareNode;
    var r := q + [x];
    forall k | 0 <= k < |r| - 1 ensures !ShareNode(r[k], r[k + 1]) {
      assert k < |q| - 1 ==> r[k + 1] == q[k + 1];
    }
  }

  /** The factored form starts with what was pulled out. */
  lemma FactoredStart(prefix: Regexp, suffix: Regexp)
    ensures LeadingString(Factored(prefix, suffix)) == if prefix.op == Literal then (prefix.rune, prefix.flags.foldCase) else ([], false)
    ensures LeadingRegexp(Factored(prefix, suffix)) == if prefix.op == EmptyMatch then None else Some(prefix)
  {
  }
}
