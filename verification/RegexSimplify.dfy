/** Expansion of counted repetition and collapsing of stacked repeats. */
module RegexSimplify {
  import opened Spans
  import opened RuneClass
  import opened RegexTree

  function NodeWith(op: Op, flags: Flags, subs: seq<Regexp>): Regexp {
    Regexp(op, flags, subs, [], [], 0, 0, 0, "")
  }

  /** A repeat of `sub`, dropped when `sub` is empty or already the same repeat. */
  function Simplify1(op: Op, flags: Flags, sub: Regexp): Regexp {
    if sub.op == EmptyMatch then sub
    else if op == sub.op && flags.nonGreedy == sub.flags.nonGreedy then sub
    else NodeWith(op, flags, [sub])
  }

  function Copies(sub: Regexp, n: nat): (r: seq<Regexp>)
    ensures |r| == n && forall i :: 0 <= i < n ==> r[i] == sub
  {
    if n == 0 then [] else [sub] + Copies(sub, n - 1)
  }

  /** `m` optional copies, nested: (x(x(x)?)?)?. */
  function NestedQuest(sub: Regexp, flags: Flags, m: nat): Regexp
    requires m >= 1
  {
    if m == 1 then Simplify1(Quest, flags, sub)
    else Simplify1(Quest, flags, NodeWith(Concat, NO_FLAGS, [sub, NestedQuest(sub, flags, m - 1)]))
  }

  /** The expansion of a counted repeat whose body is already simplified. */
  function Expand(flags: Flags, min: nat, max: int, sub: Regexp): Regexp {
    if max == -1 then
      if min == 0 then Simplify1(Star, flags, sub)
      else if min == 1 then Simplify1(Plus, flags, sub)
      else NodeWith(Concat, NO_FLAGS, Copies(sub, min - 1) + [Simplify1(Plus, flags, sub)])
    else if min == 1 && max == 1 then sub
    else if max > min then
      if min == 0 then NestedQuest(sub, flags, max - min)
      else NodeWith(Concat, NO_FLAGS, Copies(sub, min) + [NestedQuest(sub, flags, max - min)])
    else if min > 0 then NodeWith(Concat, NO_FLAGS, Copies(sub, min))
    else NewRegexp(NoMatch)
  }

  function Simplify(re: Regexp): Regexp
    requires Shaped(re)
    decreases re
  {
    match re.op
    case Capture => re.(sub := SimplifyAll(re.sub))
    case Concat => re.(sub := SimplifyAll(re.sub))
    case Alternate => re.(sub := SimplifyAll(re.sub))
    case Star => Simplify1(Star, re.flags, Simplify(re.sub[0]))
    case Plus => Simplify1(Plus, re.flags, Simplify(re.sub[0]))
    case Quest => Simplify1(Quest, re.flags, Simplify(re.sub[0]))
    case Repeat =>
      if re.min == 0 && re.max == 0 then NewRegexp(EmptyMatch)
      else Expand(re.flags, re.min, re.max, Simplify(re.sub[0]))
    case _ => re
  }

  /** Repeats and captures have one child and counts are not negative, all the way down. */
  predicate Shaped(re: Regexp)
    decreases re
  {
    && (HasOneSub(re.op) ==> |re.sub| == 1)
    && (re.op == Repeat ==> re.min >= 0)
    && forall i :: 0 <= i < |re.sub| ==> Shaped(re.sub[i])
  }

  predicate ShapedAll(subs: seq<Regexp>) {
    forall i :: 0 <= i < |subs| ==> Shaped(subs[i])
  }

  lemma {:induction false} WellFormedIsShaped(re: Regexp)
    requires WellFormed(re)
    ensures Shaped(re)
    decreases re
  {
    forall i | 0 <= i < |re.sub| ensures Shaped(re.sub[i]) {
      WellFormedIsShaped(re.sub[i]);
    }
  }

  function SimplifyAll(subs: seq<Regexp>): (r: seq<Regexp>)
    requires ShapedAll(subs)
    ensures |r| == |subs|
    decreases subs
  {
    if subs == [] then [] else [Simplify(subs[0])] + SimplifyAll(subs[1..])
  }

  // ----- meaning

  /** The bounds of a repeat operator. */
  function MinOf(op: Op): nat {
    if op == Plus then 1 else 0
  }

  function MaxOf(op: Op): int {
    if op == Quest then 1 else -1
  }

  lemma Simplify1Match(e: Env, op: Op, flags: Flags, sub: Regexp)
    requires WellFormed(sub) && op in {Star, Plus, Quest}
    ensures WellFormed(Simplify1(op, flags, sub))
    ensures Match(e, Simplify1(op, flags, sub)) == Repeated(|e.text|, Match(e, sub), MinOf(op), MaxOf(op))
  {
    hide Repeated, Id;
    if sub.op == EmptyMatch {
      RepeatedId(|e.text|, MinOf(op), MaxOf(op));
    } else if op == sub.op && flags.nonGreedy == sub.flags.nonGreedy {
      var r := Match(e, sub.sub[0]);
      MatchWithin(e, sub.sub[0]);
      if op == Quest {
        StackedOptional(|e.text|, r);
      } else {
        StackedUnbounded(|e.text|, r, MinOf(op));
      }
    }
  }

  lemma {:induction false} CopiesMatch(e: Env, sub: Regexp, n: nat)
    requires WellFormed(sub)
    ensures AllWellFormed(Copies(sub, n)) && MatchAll(e, Copies(sub, n)) == Power(|e.text|, Match(e, sub), n)
  {
    hide Match, Then, Id;
    if n > 0 {
      CopiesMatch(e, sub, n - 1);
      assert Copies(sub, n)[1..] == Copies(sub, n - 1);
    }
  }

  lemma PairMatch(e: Env, x: Regexp, y: Regexp)
    requires WellFormed(x) && WellFormed(y)
    ensures WellFormed(NodeWith(Concat, NO_FLAGS, [x, y]))
    ensures Match(e, NodeWith(Concat, NO_FLAGS, [x, y])) == Then(Match(e, x), Match(e, y))
  {
    var subs := [x, y];
    assert subs[1..] == [y];
    assert AllWellFormed(subs) && AllWellFormed([y]);
    ConcatNode(e, subs);
    hide Match, Then, WellFormed;
    assert MatchAll(e, subs) == Then(Match(e, x), MatchAll(e, [y]));
    MatchAllOne(e, y);
  }

  /** An optional copy followed by up to one copy less. */
  lemma QuestOfPair(n: nat, r: Rel, pair: Rel, m: nat)
    requires Within(r, n) && Within(pair, n) && m >= 1 && pair == Then(r, Repeated(n, r, 0, m - 1))
    ensures Repeated(n, pair, 0, 1) == Repeated(n, r, 0, m)
  {
    hide *;
    OptionalIsUnion(n, pair);
    OptionalStep(n, r, m - 1);
  }

  lemma {:induction false} NestedQuestMatch(e: Env, sub: Regexp, flags: Flags, m: nat)
    requires WellFormed(sub) && m >= 1
    ensures WellFormed(NestedQuest(sub, flags, m))
    ensures Match(e, NestedQuest(sub, flags, m)) == Repeated(|e.text|, Match(e, sub), 0, m)
  {
    hide Match, Repeated, Simplify1, Then, Id;
    if m == 1 {
      Simplify1Match(e, Quest, flags, sub);
    } else {
      var inner := NestedQuest(sub, flags, m - 1);
      NestedQuestMatch(e, sub, flags, m - 1);
      PairMatch(e, sub, inner);
      var pair := NodeWith(Concat, NO_FLAGS, [sub, inner]);
      Simplify1Match(e, Quest, flags, pair);
      MatchWithin(e, pair);
      MatchWithin(e, sub);
      assert NestedQuest(sub, flags, m) == Simplify1(Quest, flags, pair);
      QuestOfPair(|e.text|, Match(e, sub), Match(e, pair), m);
    }
  }

  /** Copies followed by one more node. */
  lemma CopiesThen(e: Env, sub: Regexp, n: nat, last: Regexp)
    requires WellFormed(sub) && WellFormed(last)
    ensures WellFormed(NodeWith(Concat, NO_FLAGS, Copies(sub, n) + [last]))
    ensures Match(e, NodeWith(Concat, NO_FLAGS, Copies(sub, n) + [last]))
         == Then(Power(|e.text|, Match(e, sub), n), Match(e, last))
  {
    var subs := Copies(sub, n) + [last];
    CopiesMatch(e, sub, n);
    assert AllWellFormed([last]);
    MatchAllConcat(e, Copies(sub, n), [last]);
    MatchAllOne(e, last);
    ConcatNode(e, subs);
    hide *;
  }

  lemma ExpandUnbounded(e: Env, flags: Flags, min: nat, sub: Regexp)
    requires WellFormed(sub)
    ensures WellFormed(Expand(flags, min, -1, sub))
    ensures Match(e, Expand(flags, min, -1, sub)) == Repeated(|e.text|, Match(e, sub), min, -1)
  {
    hide Match, Repeated, Power, Then, Simplify1, Copies, Within, WellFormed;
    if min == 0 {
      Simplify1Match(e, Star, flags, sub);
    } else {
      Simplify1Match(e, Plus, flags, sub);
      if min >= 2 {
        MatchWithin(e, sub);
        CopiesThen(e, sub, min - 1, Simplify1(Plus, flags, sub));
        PowerThenRepeated(|e.text|, Match(e, sub), min - 1, 1, -1);
      }
    }
  }

  lemma ExpandBounded(e: Env, flags: Flags, min: nat, max: nat, sub: Regexp)
    requires WellFormed(sub) && min < max
    ensures WellFormed(Expand(flags, min, max, sub))
    ensures Match(e, Expand(flags, min, max, sub)) == Repeated(|e.text|, Match(e, sub), min, max)
  {
    hide Match, Repeated, Power, Then, NestedQuest, Copies, Within, WellFormed;
    NestedQuestMatch(e, sub, flags, max - min);
    if min > 0 {
      MatchWithin(e, sub);
      CopiesThen(e, sub, min, NestedQuest(sub, flags, max - min));
      PowerThenRepeated(|e.text|, Match(e, sub), min, 0, max - min);
    }
  }

  lemma ExpandExact(e: Env, flags: Flags, min: nat, sub: Regexp)
    requires WellFormed(sub) && min >= 1
    ensures WellFormed(Expand(flags, min, min, sub))
    ensures Match(e, Expand(flags, min, min, sub)) == Repeated(|e.text|, Match(e, sub), min, min)
  {
    hide Match, Repeated, Power, Then, Copies, Within, WellFormed;
    RepeatedExactly(|e.text|, Match(e, sub), min);
    if min == 1 {
      MatchWithin(e, sub);
      PowerOne(|e.text|, Match(e, sub));
    } else {
      CopiesMatch(e, sub, min);
      ConcatNode(e, Copies(sub, min));
    }
  }

  /** The expansion of x{min,max} matches between `min` and `max` copies of x. */
  lemma ExpandMatch(e: Env, flags: Flags, min: nat, max: int, sub: Regexp)
    requires WellFormed(sub) && (max == -1 || min <= max) && !(min == 0 && max == 0)
    ensures WellFormed(Expand(flags, min, max, sub))
    ensures Match(e, Expand(flags, min, max, sub)) == Repeated(|e.text|, Match(e, sub), min, max)
  {
    hide *;
    if max == -1 {
      ExpandUnbounded(e, flags, min, sub);
    } else if min < max {
      ExpandBounded(e, flags, min, max, sub);
    } else {
      ExpandExact(e, flags, min, sub);
    }
  }

  lemma ConcatNode(e: Env, subs: seq<Regexp>)
    requires AllWellFormed(subs)
    ensures WellFormed(NodeWith(Concat, NO_FLAGS, subs))
    ensures Match(e, NodeWith(Concat, NO_FLAGS, subs)) == MatchAll(e, subs)
  {
  }

  /** Simplification keeps every span of every text. */
  lemma {:induction false} SimplifyMatch(e: Env, re: Regexp)
    requires WellFormed(re)
    ensures Shaped(re) && WellFormed(Simplify(re)) && Match(e, Simplify(re)) == Match(e, re)
    decreases re
  {
    WellFormedIsShaped(re);
    if re.op in {Concat, Alternate, Capture} {
      SimplifyAllMatch(e, re.sub);
      SimplifyNode(e, re);
    } else if re.op in {Star, Plus, Quest} {
      SimplifyMatch(e, re.sub[0]);
      hide Repeated;
      Simplify1Match(e, re.op, re.flags, Simplify(re.sub[0]));
    } else if re.op == Repeat {
      if re.min == 0 && re.max == 0 {
        RepeatedExactly(|e.text|, Match(e, re.sub[0]), 0);
      } else {
        SimplifyMatch(e, re.sub[0]);
        hide Repeated, Expand;
        ExpandMatch(e, re.flags, re.min, re.max, Simplify(re.sub[0]));
      }
    }
  }

  lemma SimplifyNode(e: Env, re: Regexp)
    requires WellFormed(re) && Shaped(re) && re.op in {Concat, Alternate, Capture}
    requires AllWellFormed(SimplifyAll(re.sub))
    requires MatchAll(e, SimplifyAll(re.sub)) == MatchAll(e, re.sub)
    requires MatchAny(e, SimplifyAll(re.sub)) == MatchAny(e, re.sub)
    ensures WellFormed(Simplify(re)) && Match(e, Simplify(re)) == Match(e, re)
  {
    hide MatchAll, MatchAny, SimplifyAll;
    if re.op == Capture {
      assert re.sub == [re.sub[0]];
      var s := SimplifyAll(re.sub);
      assert s == [s[0]];
      MatchAnyOne(e, re.sub[0]);
      MatchAnyOne(e, s[0]);
    }
  }

  lemma {:induction false} SimplifyAllMatch(e: Env, subs: seq<Regexp>)
    requires AllWellFormed(subs)
    ensures ShapedAll(subs) && AllWellFormed(SimplifyAll(subs))
    ensures MatchAll(e, SimplifyAll(subs)) == MatchAll(e, subs)
    ensures MatchAny(e, SimplifyAll(subs)) == MatchAny(e, subs)
    decreases subs
  {
    forall i | 0 <= i < |subs| ensures Shaped(subs[i]) {
      WellFormedIsShaped(subs[i]);
    }
    if subs != [] {
      SimplifyMatch(e, subs[0]);
      SimplifyAllMatch(e, subs[1..]);
      hide Match, Simplify;
      assert SimplifyAll(subs)[1..] == SimplifyAll(subs[1..]);
    }
  }

  // ----- normal form

  /** No counted repetition is left. */
  predicate Uncounted(re: Regexp)
    decreases re
  {
    re.op != Repeat && UncountedAll(re.sub)
  }

  predicate UncountedAll(subs: seq<Regexp>)
    decreases subs
  {
    subs == [] || (Uncounted(subs[0]) && UncountedAll(subs[1..]))
  }

  lemma {:induction false} UncountedConcat(a: seq<Regexp>, b: seq<Regexp>)
    requires UncountedAll(a) && UncountedAll(b)
    ensures UncountedAll(a + b)
  {
    hide Uncounted;
    if a == [] {
      assert a + b == b;
    } else {
      UncountedConcat(a[1..], b);
      assert (a + b)[0] == a[0] && (a + b)[1..] == a[1..] + b;
    }
  }

  lemma UncountedOne(re: Regexp)
    requires Uncounted(re)
    ensures UncountedAll([re])
  {
    assert [re][1..] == [];
  }

  lemma {:induction false} UncountedCopies(sub: Regexp, n: nat)
    requires Uncounted(sub)
    ensures UncountedAll(Copies(sub, n))
  {
    if n > 0 {
      UncountedCopies(sub, n - 1);
      assert Copies(sub, n)[1..] == Copies(sub, n - 1);
    }
  }

  lemma UncountedSimplify1(op: Op, flags: Flags, sub: Regexp)
    requires Uncounted(sub) && op != Repeat
    ensures Uncounted(Simplify1(op, flags, sub))
  {
    UncountedOne(sub);
  }

  lemma {:induction false} UncountedNested(sub: Regexp, flags: Flags, m: nat)
    requires Uncounted(sub) && m >= 1
    ensures Uncounted(NestedQuest(sub, flags, m))
  {
    if m == 1 {
      UncountedSimplify1(Quest, flags, sub);
    } else {
      UncountedNested(sub, flags, m - 1);
      var inner := NestedQuest(sub, flags, m - 1);
      assert [sub, inner][1..] == [inner];
      UncountedOne(inner);
      UncountedSimplify1(Quest, flags, NodeWith(Concat, NO_FLAGS, [sub, inner]));
    }
  }

  lemma UncountedExpand(flags: Flags, min: nat, max: int, sub: Regexp)
    requires Uncounted(sub)
    ensures Uncounted(Expand(flags, min, max, sub))
  {
    hide Simplify1, NestedQuest, Copies;
    UncountedSimplify1(Star, flags, sub);
    UncountedSimplify1(Plus, flags, sub);
    UncountedCopies(sub, min);
    if max == -1 {
      if min >= 2 {
        UncountedCopies(sub, min - 1);
        UncountedOne(Simplify1(Plus, flags, sub));
        UncountedConcat(Copies(sub, min - 1), [Simplify1(Plus, flags, sub)]);
      }
    } else if max > min {
      UncountedNested(sub, flags, max - min);
      UncountedOne(NestedQuest(sub, flags, max - min));
      UncountedConcat(Copies(sub, min), [NestedQuest(sub, flags, max - min)]);
    }
  }

  /** The result has no counted repetition anywhere, provided leaves carry no children. */
  lemma {:induction false} SimplifyUncounted(re: Regexp)
    requires Shaped(re) && LeavesBare(re)
    ensures Uncounted(Simplify(re))
    decreases re
  {
    if re.op in {Concat, Alternate, Capture} {
      SimplifyAllUncounted(re.sub);
    } else if re.op in {Star, Plus, Quest} {
      SimplifyUncounted(re.sub[0]);
      UncountedSimplify1(re.op, re.flags, Simplify(re.sub[0]));
    } else if re.op == Repeat && !(re.min == 0 && re.max == 0) {
      SimplifyUncounted(re.sub[0]);
      UncountedExpand(re.flags, re.min, re.max, Simplify(re.sub[0]));
    }
  }

  lemma {:induction false} SimplifyAllUncounted(subs: seq<Regexp>)
    requires ShapedAll(subs) && LeavesBareAll(subs)
    ensures UncountedAll(SimplifyAll(subs))
    decreases subs
  {
    if subs != [] {
      SimplifyUncounted(subs[0]);
      SimplifyAllUncounted(subs[1..]);
      assert SimplifyAll(subs)[1..] == SimplifyAll(subs[1..]);
    }
  }

  /** Only composite operators have children. */
  predicate LeavesBare(re: Regexp)
    decreases re
  {
    (HasOneSub(re.op) || re.op == Concat || re.op == Alternate || re.sub == []) && LeavesBareAll(re.sub)
  }

  predicate LeavesBareAll(subs: seq<Regexp>)
    decreases subs
  {
    subs == [] || (LeavesBare(subs[0]) && LeavesBareAll(subs[1..]))
  }
}
