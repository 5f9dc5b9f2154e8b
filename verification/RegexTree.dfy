/** Regular-expression trees and the spans of a text they match. */
module RegexTree {
  import opened Spans
  import opened RuneClass
  import opened Options

  datatype Op =
    | NoMatch | EmptyMatch | Literal | CharClass | AnyCharNotNL | AnyChar
    | BeginLine | EndLine | BeginText | EndText | WordBoundary | NoWordBoundary
    | Capture | Star | Plus | Quest | Repeat | Concat | Alternate

  datatype Flags = Flags(foldCase: bool, classNl: bool, dotNl: bool, oneLine: bool,
                         nonGreedy: bool, perlX: bool, unicodeGroups: bool, wasDollar: bool)

  const NO_FLAGS := Flags(false, false, false, false, false, false, false, false)

  /** A parse-tree node. The runes of a class are kept as its list of ranges. */
  datatype Regexp = Regexp(op: Op, flags: Flags, sub: seq<Regexp>, rune: seq<int>, ranges: seq<Range>,
                           min: int, max: int, cap: int, name: string)

  function NewRegexp(op: Op): Regexp {
    Regexp(op, NO_FLAGS, [], [], [], 0, 0, 0, "")
  }

  predicate HasOneSub(op: Op) {
    op in {Capture, Star, Plus, Quest, Repeat}
  }

  /** Operators of nodes without children. */
  predicate IsLeaf(op: Op) {
    !HasOneSub(op) && op != Concat && op != Alternate
  }

  /** The shape the parser gives every tree. */
  ghost predicate WellFormed(re: Regexp) {
    && (HasOneSub(re.op) ==> |re.sub| == 1)
    && (IsLeaf(re.op) ==> re.sub == [])
    && (re.op == Repeat ==> 0 <= re.min && (re.max == -1 || re.min <= re.max))
    && (re.op == CharClass ==> Proper(re.ranges))
    && forall i :: 0 <= i < |re.sub| ==> WellFormed(re.sub[i])
  }

  ghost predicate AllWellFormed(subs: seq<Regexp>) {
    forall i :: 0 <= i < |subs| ==> WellFormed(subs[i])
  }

  // ----- what a tree matches

  /** A text and the case-folding orbits in force. */
  datatype Env = Env(fold: FoldTable, text: seq<int>)

  predicate IsRune(c: int) {
    0 <= c <= MAX_RUNE
  }

  ghost predicate ValidEnv(e: Env) {
    NewlineAlone(e.fold) && forall i :: 0 <= i < |e.text| ==> IsRune(e.text[i])
  }

  ghost predicate RuneFits(fold: FoldTable, r: int, foldCase: bool, c: int) {
    if foldCase then c in Folded(fold, r) else c == r
  }

  ghost predicate LitAt(e: Env, rune: seq<int>, foldCase: bool, i: int, j: int) {
    && 0 <= i && j == i + |rune| <= |e.text|
    && forall t :: 0 <= t < |rune| ==> RuneFits(e.fold, rune[t], foldCase, e.text[i + t])
  }

  ghost function LitMatch(e: Env, rune: seq<int>, foldCase: bool): Rel {
    iset p: (int, int) | LitAt(e, rune, foldCase, p.0, p.1)
  }

  ghost predicate OneAt(e: Env, s: iset<int>, p: (int, int)) {
    0 <= p.0 < |e.text| && p.1 == p.0 + 1 && e.text[p.0] in s
  }

  /** Spans of one rune taken from `s`. */
  ghost function OneRune(e: Env, s: iset<int>): Rel {
    iset p: (int, int) | OneAt(e, s, p)
  }

  predicate IsWord(c: int) {
    0x30 <= c <= 0x39 || 0x41 <= c <= 0x5a || c == 0x5f || 0x61 <= c <= 0x7a
  }

  predicate WordBefore(text: seq<int>, i: nat)
    requires i <= |text|
  {
    i > 0 && IsWord(text[i - 1])
  }

  predicate WordAfter(text: seq<int>, i: nat)
    requires i <= |text|
  {
    i < |text| && IsWord(text[i])
  }

  /** A zero-width assertion holds at position `i`. */
  predicate Holds(op: Op, text: seq<int>, i: nat)
    requires i <= |text|
  {
    match op
    case BeginLine => i == 0 || text[i - 1] == NEWLINE
    case EndLine => i == |text| || text[i] == NEWLINE
    case BeginText => i == 0
    case EndText => i == |text|
    case WordBoundary => WordBefore(text, i) != WordAfter(text, i)
    case NoWordBoundary => WordBefore(text, i) == WordAfter(text, i)
    case _ => false
  }

  ghost predicate HoldsAt(e: Env, op: Op, p: (int, int)) {
    0 <= p.0 == p.1 <= |e.text| && Holds(op, e.text, p.0)
  }

  ghost function Assertion(e: Env, op: Op): Rel {
    iset p: (int, int) | HoldsAt(e, op, p)
  }

  ghost function AllRunes(): iset<int> {
    iset c: int | IsRune(c)
  }

  ghost function AllButNewline(): iset<int> {
    iset c: int | IsRune(c) && c != NEWLINE
  }

  ghost function Match(e: Env, re: Regexp): Rel
    requires WellFormed(re)
    decreases re
  {
    match re.op
    case NoMatch => iset{}
    case EmptyMatch => Id(|e.text|)
    case Literal => LitMatch(e, re.rune, re.flags.foldCase)
    case CharClass => OneRune(e, Members(re.ranges))
    case AnyCharNotNL => OneRune(e, AllButNewline())
    case AnyChar => OneRune(e, AllRunes())
    case Capture => Match(e, re.sub[0])
    case Star => Repeated(|e.text|, Match(e, re.sub[0]), 0, -1)
    case Plus => Repeated(|e.text|, Match(e, re.sub[0]), 1, -1)
    case Quest => Repeated(|e.text|, Match(e, re.sub[0]), 0, 1)
    case Repeat => Repeated(|e.text|, Match(e, re.sub[0]), re.min, re.max)
    case Concat => MatchAll(e, re.sub)
    case Alternate => MatchAny(e, re.sub)
    case _ => Assertion(e, re.op)
  }

  /** Spans of a concatenation. */
  ghost function MatchAll(e: Env, subs: seq<Regexp>): Rel
    requires AllWellFormed(subs)
    decreases subs
  {
    if subs == [] then Id(|e.text|) else Then(Match(e, subs[0]), MatchAll(e, subs[1..]))
  }

  /** Spans of an alternation. */
  ghost function MatchAny(e: Env, subs: seq<Regexp>): Rel
    requires AllWellFormed(subs)
    decreases subs
  {
    if subs == [] then iset{} else Match(e, subs[0]) + MatchAny(e, subs[1..])
  }

  lemma {:induction false} MatchWithin(e: Env, re: Regexp)
    requires WellFormed(re)
    ensures Within(Match(e, re), |e.text|)
    decreases re
  {
    hide Repeated;
    if HasOneSub(re.op) {
      MatchWithin(e, re.sub[0]);
      var r := Match(e, re.sub[0]);
      RepeatedWithin(|e.text|, r, 0, -1);
      RepeatedWithin(|e.text|, r, 1, -1);
      RepeatedWithin(|e.text|, r, 0, 1);
      RepeatedWithin(|e.text|, r, re.min, re.max);
    } else if re.op == Concat {
      MatchAllWithin(e, re.sub);
    } else if re.op == Alternate {
      MatchAnyWithin(e, re.sub);
    }
  }

  lemma {:induction false} MatchAllWithin(e: Env, subs: seq<Regexp>)
    requires AllWellFormed(subs)
    ensures Within(MatchAll(e, subs), |e.text|)
    decreases subs
  {
    if subs != [] {
      MatchWithin(e, subs[0]);
      MatchAllWithin(e, subs[1..]);
      ThenWithin(|e.text|, Match(e, subs[0]), MatchAll(e, subs[1..]));
    }
  }

  lemma {:induction false} MatchAnyWithin(e: Env, subs: seq<Regexp>)
    requires AllWellFormed(subs)
    ensures Within(MatchAny(e, subs), |e.text|)
    decreases subs
  {
    if subs != [] {
      MatchWithin(e, subs[0]);
      MatchAnyWithin(e, subs[1..]);
    }
  }

  lemma MatchAllOne(e: Env, re: Regexp)
    requires WellFormed(re)
    ensures MatchAll(e, [re]) == Match(e, re)
  {
    MatchWithin(e, re);
    assert MatchAll(e, []) == Id(|e.text|);
    hide Match;
    ThenId(|e.text|, Match(e, re));
    assert [re][1..] == [];
  }

  lemma MatchAnyOne(e: Env, re: Regexp)
    requires WellFormed(re)
    ensures MatchAny(e, [re]) == Match(e, re)
  {
    hide Match;
    assert [re][1..] == [];
    assert MatchAny(e, []) == iset{};
  }

  lemma {:induction false} MatchAllConcat(e: Env, a: seq<Regexp>, b: seq<Regexp>)
    requires AllWellFormed(a) && AllWellFormed(b)
    ensures AllWellFormed(a + b) && MatchAll(e, a + b) == Then(MatchAll(e, a), MatchAll(e, b))
  {
    hide Match;
    if a == [] {
      MatchAllWithin(e, b);
      IdThen(|e.text|, MatchAll(e, b));
      assert a + b == b;
    } else {
      MatchAllConcat(e, a[1..], b);
      assert (a + b)[0] == a[0] && (a + b)[1..] == a[1..] + b;
      ThenAssociative(Match(e, a[0]), MatchAll(e, a[1..]), MatchAll(e, b));
    }
  }

  lemma {:induction false} MatchAnyConcat(e: Env, a: seq<Regexp>, b: seq<Regexp>)
    requires AllWellFormed(a) && AllWellFormed(b)
    ensures AllWellFormed(a + b) && MatchAny(e, a + b) == MatchAny(e, a) + MatchAny(e, b)
  {
    hide Match, WellFormed;
    if a == [] {
      assert a + b == b;
    } else {
      MatchAnyConcat(e, a[1..], b);
      assert (a + b)[0] == a[0] && (a + b)[1..] == a[1..] + b;
      RelAssociative(Match(e, a[0]), MatchAny(e, a[1..]), MatchAny(e, b));
    }
  }

  lemma RelAssociative(r: Rel, s: Rel, t: Rel)
    ensures r + s + t == r + (s + t)
  {
  }

  // ----- literals

  lemma LitEmpty(e: Env, foldCase: bool)
    ensures LitMatch(e, [], foldCase) == Id(|e.text|)
  {
  }

  lemma LitSplits(e: Env, a: seq<int>, b: seq<int>, foldCase: bool, i: int, j: int)
    ensures LitAt(e, a + b, foldCase, i, j) <==>
            LitAt(e, a, foldCase, i, i + |a|) && LitAt(e, b, foldCase, i + |a|, j)
  {
    if LitAt(e, a + b, foldCase, i, j) {
      forall t | 0 <= t < |a| ensures RuneFits(e.fold, a[t], foldCase, e.text[i + t]) {
        assert (a + b)[t] == a[t];
      }
      forall t | 0 <= t < |b| ensures RuneFits(e.fold, b[t], foldCase, e.text[i + |a| + t]) {
        assert (a + b)[|a| + t] == b[t];
      }
    }
    if LitAt(e, a, foldCase, i, i + |a|) && LitAt(e, b, foldCase, i + |a|, j) {
      forall t | 0 <= t < |a + b| ensures RuneFits(e.fold, (a + b)[t], foldCase, e.text[i + t]) {
        assert t >= |a| ==> RuneFits(e.fold, b[t - |a|], foldCase, e.text[i + |a| + (t - |a|)]);
      }
    }
  }

  /** A literal matches its prefix and then its rest. */
  lemma LitLength(e: Env, a: seq<int>, foldCase: bool, i: int, k: int)
    requires LitAt(e, a, foldCase, i, k)
    ensures k == i + |a|
  {
  }

  lemma LitConcat(e: Env, a: seq<int>, b: seq<int>, foldCase: bool)
    ensures LitMatch(e, a + b, foldCase) == Then(LitMatch(e, a, foldCase), LitMatch(e, b, foldCase))
  {
    hide LitAt;
    var r, s := LitMatch(e, a, foldCase), LitMatch(e, b, foldCase);
    forall i, j ensures (i, j) in LitMatch(e, a + b, foldCase) <==> (i, j) in Then(r, s) {
      LitSplits(e, a, b, foldCase, i, j);
      if LitAt(e, a + b, foldCase, i, j) {
        ThenMember(r, s, i, i + |a|, j);
      }
      if (i, j) in Then(r, s) {
        var k :| Joins(r, s, i, k, j);
        LitLength(e, a, foldCase, i, k);
      }
    }
    assert forall p :: p in LitMatch(e, a + b, foldCase) <==> (p.0, p.1) in Then(r, s);
  }

  // ----- weight, the termination measure of factoring

  /**
   * Runes of a literal weigh three, so that pulling a common prefix out pays for the nodes it adds;
   * a class weighs the same however many ranges it has. A counted repeat weighs its copies, so that
   * the weight also bounds the size and the height the parser limits.
   */
  function Weight(re: Regexp): (w: nat)
    ensures w >= 1
    decreases re
  {
    match re.op
    case Literal => 1 + 3 * |re.rune|
    case CharClass => 4
    case AnyCharNotNL => 4
    case AnyChar => 4
    case Capture => 1 + WeightAll(re.sub)
    case Star => 1 + WeightAll(re.sub)
    case Plus => 1 + WeightAll(re.sub)
    case Quest => 1 + WeightAll(re.sub)
    case Repeat => 1 + (1 + Times(re)) * WeightAll(re.sub)
    case Concat => 1 + WeightAll(re.sub)
    case Alternate => 1 + WeightAll(re.sub)
    case _ => 1
  }

  /** The most copies a counted repeat asks for, when it bounds them. */
  function Times(re: Regexp): nat {
    if re.max > re.min && re.max > 0 then re.max else if re.min > 0 then re.min else 0
  }

  function WeightAll(subs: seq<Regexp>): nat
    decreases subs
  {
    if subs == [] then 0 else Weight(subs[0]) + WeightAll(subs[1..])
  }

  lemma {:induction false} WeightConcat(a: seq<Regexp>, b: seq<Regexp>)
    ensures WeightAll(a + b) == WeightAll(a) + WeightAll(b)
  {
    hide Weight;
    if a == [] {
      assert a + b == b;
    } else {
      WeightConcat(a[1..], b);
      assert (a + b)[0] == a[0] && (a + b)[1..] == a[1..] + b;
    }
  }

  lemma WeightOne(re: Regexp)
    ensures WeightAll([re]) == Weight(re)
  {
    hide Weight;
    assert [re][1..] == [];
  }

  // ----- structural equality

  function Equal(x: Regexp, y: Regexp): bool
    decreases x
  {
    x.op == y.op &&
    match x.op
    case EndText => x.flags.wasDollar == y.flags.wasDollar
    case Literal => x.flags.foldCase == y.flags.foldCase && x.rune == y.rune
    case CharClass => x.flags.foldCase == y.flags.foldCase && x.ranges == y.ranges
    case Alternate => EqualAll(x.sub, y.sub)
    case Concat => EqualAll(x.sub, y.sub)
    case Star => x.flags.nonGreedy == y.flags.nonGreedy && EqualAll(x.sub, y.sub)
    case Plus => x.flags.nonGreedy == y.flags.nonGreedy && EqualAll(x.sub, y.sub)
    case Quest => x.flags.nonGreedy == y.flags.nonGreedy && EqualAll(x.sub, y.sub)
    case Repeat => x.flags.nonGreedy == y.flags.nonGreedy && x.min == y.min && x.max == y.max && EqualAll(x.sub, y.sub)
    case Capture => x.cap == y.cap && x.name == y.name && EqualAll(x.sub, y.sub)
    case _ => true
  }

  function EqualAll(a: seq<Regexp>, b: seq<Regexp>): bool
    decreases a
  {
    |a| == |b| && (a == [] || (Equal(a[0], b[0]) && EqualAll(a[1..], b[1..])))
  }

  /** Trees the source calls equal match the same spans. */
  lemma {:induction false} EqualMatch(e: Env, x: Regexp, y: Regexp)
    requires WellFormed(x) && WellFormed(y) && Equal(x, y)
    ensures Match(e, x) == Match(e, y)
    decreases x
  {
    hide Repeated, Id;
    if HasOneSub(x.op) {
      EqualMatch(e, x.sub[0], y.sub[0]);
    } else if x.op == Concat || x.op == Alternate {
      EqualMatchAll(e, x.sub, y.sub);
    }
  }

  lemma {:induction false} EqualMatchAll(e: Env, a: seq<Regexp>, b: seq<Regexp>)
    requires AllWellFormed(a) && AllWellFormed(b) && EqualAll(a, b)
    ensures MatchAll(e, a) == MatchAll(e, b) && MatchAny(e, a) == MatchAny(e, b)
    decreases a
  {
    if a != [] {
      EqualMatch(e, a[0], b[0]);
      EqualMatchAll(e, a[1..], b[1..]);
    }
  }
}
