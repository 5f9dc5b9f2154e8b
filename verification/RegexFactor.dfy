/** The parser's collapsing and factoring of alternations, as mutually recursive loops over node lists. */
module RegexFactor {
  import opened Spans
  import opened RuneClass
  import opened RegexTree
  import opened RegexLeading
  import opened RegexFactorLaws
  import opened Options

  const MAX_HEIGHT := 1000
  const MAX_SIZE := 3355443
  const MAX_RUNES := 33554432

  datatype ParseError = NestingDepth | Large

  function CalcSize(re: Regexp): int
    decreases re
  {
    var size :=
      match re.op
      case Literal => |re.rune|
      case Capture => 2 + SumSize(re.sub)
      case Star => 2 + SumSize(re.sub)
      case Plus => 1 + SumSize(re.sub)
      case Quest => 1 + SumSize(re.sub)
      case Concat => SumSize(re.sub)
      case Alternate => SumSize(re.sub) + (if |re.sub| > 1 then |re.sub| - 1 else 0)
      case Repeat => RepeatedSize(re.min, re.max, SumSize(re.sub))
      case _ => 0;
    if size < 1 then 1 else size
  }

  function RepeatedSize(min: int, max: int, sub: int): int {
    if max == -1 then (if min == 0 then 2 + sub else 1 + min * sub) else max * sub + (max - min)
  }

  function SumSize(subs: seq<Regexp>): int
    decreases subs
  {
    if subs == [] then 0 else CalcSize(subs[0]) + SumSize(subs[1..])
  }

  function CalcHeight(re: Regexp): nat
    decreases re
  {
    1 + MaxHeight(re.sub)
  }

  function MaxHeight(subs: seq<Regexp>): nat
    decreases subs
  {
    if subs == [] then 0
    else if CalcHeight(subs[0]) > MaxHeight(subs[1..]) then CalcHeight(subs[0]) else MaxHeight(subs[1..])
  }

  lemma {:induction false} WeightBoundsSize(re: Regexp)
    requires WellFormed(re)
    ensures CalcSize(re) <= 2 * Weight(re) - 1
    decreases re
  {
    WeightBoundsSum(re.sub);
    if re.op == Repeat {
      RepeatSize(re);
    } else {
      hide SumSize, WeightAll;
    }
  }

  lemma {:induction false} WeightBoundsSum(subs: seq<Regexp>)
    requires AllWellFormed(subs)
    ensures SumSize(subs) <= 2 * WeightAll(subs) - |subs|
    decreases subs
  {
    if subs != [] {
      WeightBoundsSize(subs[0]);
      WeightBoundsSum(subs[1..]);
    }
  }

  lemma RepeatSize(re: Regexp)
    requires WellFormed(re) && re.op == Repeat && SumSize(re.sub) <= 2 * WeightAll(re.sub) - 1
    ensures CalcSize(re) <= 2 * Weight(re) - 1
  {
    hide SumSize, WeightAll, RepeatedSize;
    var n, s, w := Times(re), SumSize(re.sub), WeightAll(re.sub);
    assert CalcSize(re) <= (if RepeatedSize(re.min, re.max, s) < 1 then 1 else RepeatedSize(re.min, re.max, s)) by {
      hide Times;
    }
    assert w >= 0 && (1 + n) * w >= 0;
    assert Weight(re) == 1 + (1 + n) * w;
    RepeatedBound(re.min, re.max, n, s, w);
    hide *;
  }

  lemma RepeatedBound(min: int, max: int, n: nat, s: int, w: nat)
    requires 0 <= min && (max == -1 || min <= max) && n == (if max == -1 then min else max) && s <= 2 * w - 1
    ensures RepeatedSize(min, max, s) <= 2 * (1 + (1 + n) * w) - 1
  {
    ScaledSize(n, s, w);
    OneMore(n, w);
  }

  lemma ScaledSize(n: nat, s: int, w: nat)
    requires s <= 2 * w - 1
    ensures n * s + n <= 2 * (n * w) && 0 <= n * w
  {
    assert n * s <= n * (2 * w - 1);
  }

  lemma {:induction false} WeightBoundsHeight(re: Regexp)
    requires WellFormed(re)
    ensures CalcHeight(re) <= Weight(re)
    decreases re
  {
    WeightBoundsMax(re.sub);
    if re.op == Repeat {
      assert Times(re) * WeightAll(re.sub) >= 0;
    }
  }

  lemma {:induction false} WeightBoundsMax(subs: seq<Regexp>)
    requires AllWellFormed(subs)
    ensures MaxHeight(subs) <= WeightAll(subs)
    decreases subs
  {
    if subs != [] {
      WeightBoundsHeight(subs[0]);
      WeightBoundsMax(subs[1..]);
    }
  }

  /** A refusal of trees of total weight `w` has its cause: too many runes, or a weight that can break the limit. */
  ghost predicate Caused(error: ParseError, runes: int, w: nat) {
    match error
    case Large => runes > MAX_RUNES || 2 * w > MAX_SIZE
    case NestingDepth => w > MAX_HEIGHT
  }

  lemma RefusedPart(items: seq<Regexp>, k: nat, part: Regexp, error: ParseError, runes: int)
    requires k < |items| && WellFormed(part) && Weight(part) <= Weight(items[k])
    requires error == Large ==> runes > MAX_RUNES || CalcSize(part) > MAX_SIZE
    requires error == NestingDepth ==> CalcHeight(part) > MAX_HEIGHT
    ensures Caused(error, runes, WeightAll(items))
  {
    hide Weight, WeightAll, WellFormed, CalcSize, CalcHeight;
    WeightBoundsSize(part);
    WeightBoundsHeight(part);
    assert items[k..k + 1] == [items[k]];
    WeightOne(items[k]);
    SliceWeight(items, k, k + 1);
  }

  /** The runes or ranges length the source compares. */
  function RuneLen(re: Regexp): nat {
    if re.op == CharClass then 2 * |re.ranges| else |re.rune|
  }

  /** Position of the most complex node: greatest operator, then most runes. */
  method MostComplex(items: seq<Regexp>) returns (maxj: nat)
    requires |items| >= 1
    ensures maxj < |items| && forall k :: 0 <= k < |items| ==> Rank(items[k].op) <= Rank(items[maxj].op)
  {
    maxj := 0;
    for j := 1 to |items|
      invariant maxj < |items| && forall k :: 0 <= k < j ==> Rank(items[k].op) <= Rank(items[maxj].op)
    {
      var a, b := items[maxj], items[j];
      if Rank(a.op) < Rank(b.op) || (a.op == b.op && RuneLen(a) < RuneLen(b)) {
        maxj := j;
      }
    }
  }

  ghost predicate AllClasses(items: seq<Regexp>) {
    forall k :: 0 <= k < |items| ==> IsCharClass(items[k])
  }

  /** Merges single-rune nodes into one, most complex first. */
  method MergeRun(fold: FoldTable, items: seq<Regexp>) returns (re: Regexp)
    requires NewlineAlone(fold) && AllWellFormed(items) && AllClasses(items) && |items| >= 2
    ensures IsAnyOf(fold, re, items) && Weight(re) <= WeightAll(items) && IsCharClass(re)
    ensures re.op == Literal ==> AllSame(items, re)
  {
    hide RuneSet, WellFormed, NewlineAlone, Weight, WeightAll, IsAnyOf;
    var maxj := MostComplex(items);
    var order := items[0 := items[maxj]][maxj := items[0]];
    var dst := order[0];
    for k := 1 to |order|
      invariant WellFormed(dst) && IsCharClass(dst) && Rank(items[maxj].op) <= Rank(dst.op)
      invariant forall c :: IsRune(c) ==> (c in RuneSet(fold, dst) <==> SomeRune(fold, order[..k], c))
      invariant dst.op == Literal ==> forall j :: 0 <= j < k ==> SameLiteral(order[j], dst)
    {
      ghost var before := dst;
      dst := MergeCharClass(fold, dst, order[k]);
      MergedOne(fold, order, k, before, dst);
    }
    assert order[..|order|] == order;
    re := CleanAlt(dst);
    CleanedRunes(fold, dst, re);
    if re.op == Literal {
      SwappedSame(items, order, maxj, re);
    }
    MergedRun(fold, items, order, maxj, dst, re);
  }

  ghost predicate SameLiteral(x: Regexp, re: Regexp) {
    x.op == Literal && x.rune == re.rune && x.flags == re.flags
  }

  ghost predicate AllSame(items: seq<Regexp>, re: Regexp) {
    forall k :: 0 <= k < |items| ==> SameLiteral(items[k], re)
  }

  lemma SwappedSame(items: seq<Regexp>, order: seq<Regexp>, m: nat, re: Regexp)
    requires m < |items| == |order| && order == items[0 := items[m]][m := items[0]]
    requires forall j :: 0 <= j < |order| ==> SameLiteral(order[j], re)
    ensures AllSame(items, re)
  {
    forall k | 0 <= k < |items| ensures SameLiteral(items[k], re) {
      assert items[k] == order[if k == m then 0 else if k == 0 then m else k];
    }
  }

  lemma MergedRun(fold: FoldTable, items: seq<Regexp>, order: seq<Regexp>, m: nat, dst: Regexp, re: Regexp)
    requires AllWellFormed(items) && AllClasses(items) && AllClasses(order) && m < |items| == |order|
    requires order == items[0 := items[m]][m := items[0]] && IsCharClass(dst) && WellFormed(re) && IsCharClass(re)
    requires forall c :: IsRune(c) ==> (c in RuneSet(fold, dst) <==> SomeRune(fold, order, c))
    requires forall c :: IsRune(c) ==> (c in RuneSet(fold, re) <==> c in RuneSet(fold, dst))
    ensures IsAnyOf(fold, re, items) && Weight(re) <= WeightAll(items)
  {
    hide RuneSet, WellFormed, Weight, WeightAll, IsAnyOf, SomeRune;
    forall c ensures SomeRune(fold, order, c) <==> SomeRune(fold, items, c) {
      SwappedRunes(fold, items, order, m, c);
    }
    MergedClasses(fold, items, re);
    ClassesWeight(items);
    ClassesWeight([re]);
    WeightOne(re);
  }

  lemma MergedOne(fold: FoldTable, order: seq<Regexp>, k: nat, before: Regexp, dst: Regexp)
    requires AllClasses(order) && 0 < k < |order| && IsCharClass(before) && IsCharClass(dst)
    requires forall c :: IsRune(c) ==> (c in RuneSet(fold, before) <==> SomeRune(fold, order[..k], c))
    requires Unites(RuneSet(fold, before), RuneSet(fold, order[k]), RuneSet(fold, dst))
    ensures forall c :: IsRune(c) ==> (c in RuneSet(fold, dst) <==> SomeRune(fold, order[..k + 1], c))
  {
    hide RuneSet, IsRune;
    forall c | IsRune(c) ensures c in RuneSet(fold, dst) <==> SomeRune(fold, order[..k + 1], c) {
      if SomeRune(fold, order[..k + 1], c) {
        var m :| 0 <= m < k + 1 && c in RuneSet(fold, order[..k + 1][m]);
        assert m < k ==> c in RuneSet(fold, order[..k][m]);
      }
      if SomeRune(fold, order[..k], c) {
        var m :| 0 <= m < k && c in RuneSet(fold, order[..k][m]);
        assert c in RuneSet(fold, order[..k + 1][m]);
      }
      assert order[..k + 1][k] == order[k];
    }
  }

  lemma CleanedRunes(fold: FoldTable, dst: Regexp, out: Regexp)
    requires IsCharClass(dst) && IsCharClass(out) && (dst.op != CharClass ==> out == dst)
    requires dst.op == CharClass ==> forall c, f :: IsRune(c) ==> (c in RuneSet(f, out) <==> c in Members(dst.ranges))
    ensures forall c :: IsRune(c) ==> (c in RuneSet(fold, out) <==> c in RuneSet(fold, dst))
  {
  }

  lemma SwappedRunes(fold: FoldTable, items: seq<Regexp>, order: seq<Regexp>, m: nat, c: int)
    requires AllClasses(items) && AllClasses(order) && m < |items| == |order|
    requires order == items[0 := items[m]][m := items[0]]
    ensures SomeRune(fold, order, c) <==> SomeRune(fold, items, c)
  {
    hide RuneSet;
    if SomeRune(fold, order, c) {
      var k :| 0 <= k < |order| && c in RuneSet(fold, order[k]);
      assert order[k] == items[if k == m then 0 else if k == 0 then m else k];
    }
    if SomeRune(fold, items, c) {
      var k :| 0 <= k < |items| && c in RuneSet(fold, items[k]);
      assert items[k] == order[if k == m then 0 else if k == 0 then m else k];
    }
  }

  /** The third round so far: what was put out is merged and ends with the alternative before `start`, which is no single rune. */
  ghost predicate MergedTo(subs: seq<Regexp>, out: seq<Regexp>, start: nat) {
    && start <= |subs| && (NoSharedLiterals(subs) && NoSharedNodes(subs) ==> AllMerged(out))
    && (start == 0 ==> out == [])
    && (start > 0 ==> out != [] && out[|out| - 1] == subs[start - 1] && !IsCharClass(subs[start - 1]))
  }

  /** The same with the run of single runes from `start` to `i` put out. */
  ghost predicate FlushedTo(subs: seq<Regexp>, out: seq<Regexp>, start: nat, i: nat) {
    && start <= i <= |subs| && (NoSharedLiterals(subs) && NoSharedNodes(subs) ==> AllMerged(out))
    && (i == start ==> MergedTo(subs, out, start))
    && (i == start + 1 ==> out != [] && out[|out| - 1] == subs[start])
    && (i > start + 1 ==> out != [] && IsCharClass(out[|out| - 1]) && (NoSharedLiterals(subs) ==> out[|out| - 1].op != Literal))
  }

  lemma NothingMerged(subs: seq<Regexp>)
    ensures MergedTo(subs, [], 0)
  {
  }

  /** Neighbours of the list that are not both single runes. */
  lemma StillApart(subs: seq<Regexp>, k: nat)
    requires k + 1 < |subs| && NoSharedLiterals(subs) && NoSharedNodes(subs) && !(IsCharClass(subs[k]) && IsCharClass(subs[k + 1]))
    ensures Merged(subs[k], subs[k + 1])
  {
    hide ShareLiteral, ShareNode;
    SingleRuneMeaning(subs[k]);
    SingleRuneMeaning(subs[k + 1]);
  }

  lemma FlushOne(subs: seq<Regexp>, out: seq<Regexp>, start: nat)
    requires MergedTo(subs, out, start) && start < |subs| && IsCharClass(subs[start])
    ensures FlushedTo(subs, out + [subs[start]], start, start + 1)
  {
    hide IsCharClass, Merged, NoSharedLiterals, NoSharedNodes;
    if NoSharedLiterals(subs) && NoSharedNodes(subs) {
      if start > 0 {
        StillApart(subs, start - 1);
      }
      MergedSnoc(out, subs[start]);
    }
  }

  lemma FlushMany(subs: seq<Regexp>, out: seq<Regexp>, start: nat, i: nat, re: Regexp)
    requires MergedTo(subs, out, start) && start + 2 <= i <= |subs| && IsCharClass(re)
    requires re.op == Literal ==> AllSame(subs[start..i], re)
    ensures FlushedTo(subs, out + [re], start, i)
  {
    hide IsCharClass, Merged, NoSharedLiterals, NoSharedNodes;
    if NoSharedLiterals(subs) {
      if re.op == Literal {
        var run := subs[start..i];
        assert SameLiteral(run[0], re) && SameLiteral(run[1], re);
        assert run[0] == subs[start] && run[1] == subs[start + 1];
      }
      MergeNotLiteral(subs, start, re);
      if NoSharedNodes(subs) {
        if start > 0 {
          ClassBeside(re, subs[start - 1]);
        }
        MergedSnoc(out, re);
      }
    }
  }

  lemma KeepOther(subs: seq<Regexp>, out: seq<Regexp>, start: nat, i: nat)
    requires FlushedTo(subs, out, start, i) && i < |subs| && !IsCharClass(subs[i])
    ensures MergedTo(subs, out + [subs[i]], i + 1)
  {
    hide IsCharClass, Merged, NoSharedLiterals, NoSharedNodes;
    if NoSharedLiterals(subs) && NoSharedNodes(subs) {
      if i > start + 1 {
        ClassBeside(out[|out| - 1], subs[i]);
      } else if i > 0 {
        StillApart(subs, i - 1);
      }
      MergedSnoc(out, subs[i]);
    }
  }

  /** Round 3: runs of single-rune alternatives become one class. */
  method MergeClasses(fold: FoldTable, subs: seq<Regexp>) returns (out: seq<Regexp>)
    requires NewlineAlone(fold) && AllWellFormed(subs)
    ensures SameAny(fold, subs, out) && WeightAll(out) <= WeightAll(subs)
    ensures NoSharedLiterals(subs) && NoSharedNodes(subs) ==> AllMerged(out)
  {
    hide NewlineAlone, WellFormed, Pending, SameAny, WeightAll, MergedTo, AllMerged, NoSharedLiterals, NoSharedNodes;
    PendingStart(fold, subs);
    NothingMerged(subs);
    out := [];
    var start, i := 0, 0;
    while i < |subs|
      invariant 0 <= start <= i <= |subs| && Pending(fold, subs, out, start) && MergedTo(subs, out, start)
      invariant forall k :: start <= k < i ==> IsCharClass(subs[k])
    {
      if IsCharClass(subs[i]) {
        i := i + 1;
        continue;
      }
      out := FlushClasses(fold, subs, out, start, i);
      PendingKeep(fold, subs, out, i);
      KeepOther(subs, out, start, i);
      out := out + [subs[i]];
      i := i + 1;
      start := i;
    }
    out := FlushClasses(fold, subs, out, start, i);
    PendingEnd(fold, subs, out);
  }

  method FlushClasses(fold: FoldTable, subs: seq<Regexp>, out0: seq<Regexp>, start: nat, i: nat) returns (out: seq<Regexp>)
    requires NewlineAlone(fold) && AllWellFormed(subs) && start <= i <= |subs| && Pending(fold, subs, out0, start) && MergedTo(subs, out0, start)
    requires forall k :: start <= k < i ==> IsCharClass(subs[k])
    ensures Pending(fold, subs, out, i) && FlushedTo(subs, out, start, i)
  {
    hide NewlineAlone, WellFormed, Pending, WeightAll, Weight, IsAnyOf, NoSharedLiterals, NoSharedNodes, AllMerged, AllSame;
    out := out0;
    if i == start {
    } else if i == start + 1 {
      PendingKeep(fold, subs, out, start);
      FlushOne(subs, out, start);
      out := out + [subs[start]];
    } else {
      var re := MergeRun(fold, subs[start..i]);
      PendingPush(fold, subs, out, start, i, re);
      FlushMany(subs, out, start, i, re);
      out := out + [re];
    }
  }

  lemma EmptyTwice(e: Env, out: seq<Regexp>, rest: seq<Regexp>)
    requires AllWellFormed(out) && AllWellFormed(rest) && |rest| >= 2
    requires rest[0].op == EmptyMatch && rest[1].op == EmptyMatch
    ensures AllWellFormed(out + rest) && AllWellFormed(out + rest[1..])
    ensures MatchAny(e, out + rest) == MatchAny(e, out + rest[1..])
  {
    assert Match(e, rest[0]) == Match(e, rest[1]) == Id(|e.text|);
    assert MatchAny(e, rest) == Match(e, rest[0]) + MatchAny(e, rest[1..]);
    assert MatchAny(e, rest[1..]) == Match(e, rest[1]) + MatchAny(e, rest[1..][1..]);
    MatchAnyConcat(e, out, rest);
    MatchAnyConcat(e, out, rest[1..]);
  }

  lemma PendingDrop(fold: FoldTable, subs: seq<Regexp>, out: seq<Regexp>, i: nat)
    requires AllWellFormed(subs) && Pending(fold, subs, out, i) && i + 1 < |subs|
    requires subs[i].op == EmptyMatch && subs[i + 1].op == EmptyMatch
    ensures Pending(fold, subs, out, i + 1)
  {
    var rest := subs[i..];
    assert rest[1..] == subs[i + 1..];
    assert WeightAll(rest) == Weight(rest[0]) + WeightAll(rest[1..]);
    EmptyTwice(Env(fold, []), out, rest);
    hide Match, MatchAny, ValidEnv, WellFormed, Weight, WeightAll;
    forall text | ValidEnv(Env(fold, text))
      ensures MatchAny(Env(fold, text), subs) == MatchAny(Env(fold, text), out + subs[i + 1..])
    {
      EmptyTwice(Env(fold, text), out, rest);
      assert MatchAny(Env(fold, text), subs) == MatchAny(Env(fold, text), out + rest);
    }
  }

  /**
   * The fourth round before the i-th alternative: what was put out is tidy and ends with the alternative before,
   * or that one was dropped for the empty match at hand.
   */
  ghost predicate TidyTo(subs: seq<Regexp>, out: seq<Regexp>, i: nat) {
    && i <= |subs| && (AllMerged(subs) ==> Tidy(out)) && (i == 0 ==> out == [])
    && (i > 0 ==>
        || (out != [] && out[|out| - 1] == subs[i - 1] && (i < |subs| ==> !(subs[i - 1].op == EmptyMatch && subs[i].op == EmptyMatch)))
        || (i < |subs| && subs[i].op == EmptyMatch && (out != [] ==> out[|out| - 1].op != EmptyMatch)))
  }

  lemma DropOne(subs: seq<Regexp>, out: seq<Regexp>, i: nat)
    requires TidyTo(subs, out, i) && i + 1 < |subs| && subs[i].op == EmptyMatch && subs[i + 1].op == EmptyMatch
    ensures TidyTo(subs, out, i + 1)
  {
    hide Tidy, AllMerged;
  }

  lemma KeepOne(subs: seq<Regexp>, out: seq<Regexp>, i: nat)
    requires TidyTo(subs, out, i) && i < |subs| && !(i + 1 < |subs| && subs[i].op == EmptyMatch && subs[i + 1].op == EmptyMatch)
    ensures TidyTo(subs, out + [subs[i]], i + 1)
  {
    if AllMerged(subs) {
      hide Merged;
      var more := out + [subs[i]];
      if out != [] {
        if i > 0 && out[|out| - 1] == subs[i - 1] {
          assert Merged(subs[i - 1], subs[i]);
        } else {
          EmptyBeside(out[|out| - 1], subs[i]);
        }
      }
      MergedSnoc(out, subs[i]);
      forall k | 0 <= k < |more| - 1 ensures !(more[k].op == EmptyMatch && more[k + 1].op == EmptyMatch) {
        assert k < |out| - 1 ==> more[k + 1] == out[k + 1];
      }
    }
  }

  /** Round 4: runs of empty matches become one. */
  method DropEmpties(fold: FoldTable, subs: seq<Regexp>) returns (out: seq<Regexp>)
    requires AllWellFormed(subs)
    ensures SameAny(fold, subs, out) && WeightAll(out) <= WeightAll(subs)
    ensures AllMerged(subs) ==> Tidy(out)
  {
    hide WellFormed, Pending, SameAny, WeightAll, TidyTo, Tidy, AllMerged;
    PendingStart(fold, subs);
    out := [];
    NothingTidy(subs);
    for i := 0 to |subs|
      invariant Pending(fold, subs, out, i) && TidyTo(subs, out, i)
    {
      if i + 1 < |subs| && subs[i].op == EmptyMatch && subs[i + 1].op == EmptyMatch {
        PendingDrop(fold, subs, out, i);
        DropOne(subs, out, i);
        continue;
      }
      PendingKeep(fold, subs, out, i);
      KeepOne(subs, out, i);
      out := out + [subs[i]];
    }
    PendingEnd(fold, subs, out);
    TidyEnd(subs, out);
  }

  lemma NothingTidy(subs: seq<Regexp>)
    ensures TidyTo(subs, [], 0)
  {
  }

  lemma TidyEnd(subs: seq<Regexp>, out: seq<Regexp>)
    requires TidyTo(subs, out, |subs|)
    ensures AllMerged(subs) ==> Tidy(out)
  {
  }

  // ----- flattening nested nodes of the same operator

  /** `flat` stands for the first `k` of `subs` under `op`. */
  ghost predicate Flattened(fold: FoldTable, op: Op, subs: seq<Regexp>, flat: seq<Regexp>, k: nat) {
    && k <= |subs| && AllWellFormed(subs) && AllWellFormed(flat) && WeightAll(flat) <= WeightAll(subs[..k])
    && forall text :: ValidEnv(Env(fold, text)) ==>
      if op == Alternate then MatchAny(Env(fold, text), flat) == MatchAny(Env(fold, text), subs[..k])
      else MatchAll(Env(fold, text), flat) == MatchAll(Env(fold, text), subs[..k])
  }

  lemma FlattenAt(e: Env, op: Op, taken: seq<Regexp>, flat: seq<Regexp>, re: Regexp, more: seq<Regexp>)
    requires AllWellFormed(taken) && AllWellFormed(flat) && WellFormed(re) && AllWellFormed(more)
    requires op == Concat || op == Alternate
    requires if op == Alternate then MatchAny(e, flat) == MatchAny(e, taken) else MatchAll(e, flat) == MatchAll(e, taken)
    requires more == if re.op == op then re.sub else [re]
    ensures AllWellFormed(flat + more) && AllWellFormed(taken + [re])
    ensures if op == Alternate then MatchAny(e, flat + more) == MatchAny(e, taken + [re])
            else MatchAll(e, flat + more) == MatchAll(e, taken + [re])
  {
    if op == Alternate {
      MatchAnyConcat(e, flat, more);
      MatchAnyConcat(e, taken, [re]);
      MatchAnyOne(e, re);
    } else {
      MatchAllConcat(e, flat, more);
      MatchAllConcat(e, taken, [re]);
      MatchAllOne(e, re);
    }
  }

  lemma FlattenWeight(op: Op, taken: seq<Regexp>, flat: seq<Regexp>, re: Regexp, more: seq<Regexp>)
    requires WellFormed(re) && WeightAll(flat) <= WeightAll(taken) && (op == Concat || op == Alternate)
    requires more == if re.op == op then re.sub else [re]
    ensures AllWellFormed(more) && WeightAll(flat + more) <= WeightAll(taken + [re])
  {
    WeightConcat(flat, more);
    WeightConcat(taken, [re]);
    WeightOne(re);
  }

  lemma FlattenStep(fold: FoldTable, op: Op, subs: seq<Regexp>, flat: seq<Regexp>, k: nat, more: seq<Regexp>)
    requires op == Concat || op == Alternate
    requires Flattened(fold, op, subs, flat, k) && k < |subs|
    requires more == if subs[k].op == op then subs[k].sub else [subs[k]]
    ensures Flattened(fold, op, subs, flat + more, k + 1)
  {
    var taken, re := subs[..k], subs[k];
    assert subs[..k + 1] == taken + [re];
    assert WellFormed(re);
    FlattenWeight(op, taken, flat, re, more);
    assert AllWellFormed(flat + more);
    hide Match, MatchAny, MatchAll, ValidEnv, WellFormed, Weight, WeightAll, AllWellFormed;
    forall text | ValidEnv(Env(fold, text))
      ensures if op == Alternate then MatchAny(Env(fold, text), flat + more) == MatchAny(Env(fold, text), subs[..k + 1])
              else MatchAll(Env(fold, text), flat + more) == MatchAll(Env(fold, text), subs[..k + 1])
    {
      FlattenAt(Env(fold, text), op, taken, flat, re, more);
    }
  }

  method Flatten(fold: FoldTable, op: Op, subs: seq<Regexp>) returns (flat: seq<Regexp>)
    requires AllWellFormed(subs) && (op == Concat || op == Alternate)
    ensures Flattened(fold, op, subs, flat, |subs|)
  {
    flat := [];
    assert Flattened(fold, op, subs, flat, 0) by {
      assert subs[..0] == [];
    }
    hide Flattened, WellFormed;
    for k := 0 to |subs|
      invariant Flattened(fold, op, subs, flat, k)
    {
      var sub := subs[k];
      if sub.op == op {
        FlattenStep(fold, op, subs, flat, k, sub.sub);
        flat := flat + sub.sub;
      } else {
        FlattenStep(fold, op, subs, flat, k, [sub]);
        flat := flat + [sub];
      }
    }
  }

  /** The node built from flattened children. */
  function NodeOf(op: Op, subs: seq<Regexp>): Regexp {
    Regexp(op, NO_FLAGS, subs, [], [], 0, 0, 0, "")
  }

  lemma NodeOfMatch(e: Env, op: Op, subs: seq<Regexp>)
    requires AllWellFormed(subs) && (op == Concat || op == Alternate)
    ensures WellFormed(NodeOf(op, subs)) && Weight(NodeOf(op, subs)) == WeightAll(subs) + 1
    ensures Match(e, NodeOf(op, subs)) == if op == Concat then MatchAll(e, subs) else MatchAny(e, subs)
  {
    hide Then, Id, LitMatch, OneRune, Repeated, Assertion;
  }

  lemma NodeOfAny(fold: FoldTable, subs: seq<Regexp>, out: seq<Regexp>)
    requires SameAny(fold, subs, out)
    ensures IsAnyOf(fold, NodeOf(Alternate, out), subs) && Weight(NodeOf(Alternate, out)) == WeightAll(out) + 1
  {
    var node := NodeOf(Alternate, out);
    NodeOfMatch(Env(fold, []), Alternate, out);
    hide Match, MatchAny, ValidEnv, WellFormed, Weight, WeightAll, NodeOf;
    forall text | ValidEnv(Env(fold, text)) ensures Match(Env(fold, text), node) == MatchAny(Env(fold, text), subs) {
      NodeOfMatch(Env(fold, text), Alternate, out);
      assert MatchAny(Env(fold, text), subs) == MatchAny(Env(fold, text), out);
    }
  }

  lemma NodeOfAll(fold: FoldTable, subs: seq<Regexp>, flat: seq<Regexp>)
    requires Flattened(fold, Concat, subs, flat, |subs|)
    ensures IsAllOf(fold, NodeOf(Concat, flat), subs) && Weight(NodeOf(Concat, flat)) <= WeightAll(subs) + 1
  {
    assert subs[..|subs|] == subs;
    var node := NodeOf(Concat, flat);
    NodeOfMatch(Env(fold, []), Concat, flat);
    hide Match, MatchAll, ValidEnv, WellFormed, Weight, WeightAll, NodeOf;
    forall text | ValidEnv(Env(fold, text)) ensures Match(Env(fold, text), node) == MatchAll(Env(fold, text), subs) {
      NodeOfMatch(Env(fold, text), Concat, flat);
      assert MatchAll(Env(fold, text), flat) == MatchAll(Env(fold, text), subs);
    }
  }

  lemma FlattenedAny(fold: FoldTable, subs: seq<Regexp>, flat: seq<Regexp>)
    requires Flattened(fold, Alternate, subs, flat, |subs|)
    ensures SameAny(fold, subs, flat) && WeightAll(flat) <= WeightAll(subs)
  {
    assert subs[..|subs|] == subs;
  }

  // ----- the parser

  /** The product of the repeat counts met so far, cut off at the size limit. */
  function Repeats(repeats: nat, re: Regexp): (r: int)
    ensures r >= 1
  {
    var before := if repeats == 0 then 1 else repeats;
    var n := if re.max == -1 then re.min else re.max;
    var times := if n <= 0 then 1 else n;
    if re.op != Repeat then before
    else if times > MAX_SIZE / before then MAX_SIZE
    else
      GrowsPositive(before, times);
      before * times
  }

  class Parser {
    const fold: FoldTable
    var numRegexp: int
    var numRunes: int
    var repeats: int

    ghost predicate Valid()
      reads this
    {
      NewlineAlone(fold) && 0 <= repeats
    }

    constructor (fold: FoldTable)
      requires NewlineAlone(fold)
      ensures Valid() && this.fold == fold && numRegexp == 0 && numRunes == 0 && repeats == 0
    {
      this.fold := fold;
      numRegexp, numRunes, repeats := 0, 0, 0;
    }

    /** Rejects trees that are too big; accepted trees are not changed. */
    method CheckLimits(re: Regexp) returns (err: Option<ParseError>)
      requires Valid()
      modifies this
      ensures Valid() && numRegexp == old(numRegexp) && numRunes == old(numRunes)
      ensures numRunes > MAX_RUNES ==> err == Some(Large)
      ensures err == Some(Large) ==> numRunes > MAX_RUNES || CalcSize(re) > MAX_SIZE
      ensures err == Some(NestingDepth) ==> CalcHeight(re) > MAX_HEIGHT
      ensures numRunes <= MAX_RUNES ==> repeats == Repeats(old(repeats), re) >= 1
      ensures numRunes <= MAX_RUNES && numRegexp >= MAX_SIZE / Repeats(old(repeats), re) && CalcSize(re) > MAX_SIZE ==> err == Some(Large)
      ensures numRunes <= MAX_RUNES && numRegexp >= MAX_HEIGHT && CalcHeight(re) > MAX_HEIGHT ==> err.Some?
    {
      if numRunes > MAX_RUNES {
        return Some(Large);
      }
      if repeats == 0 {
        repeats := 1;
      }
      if re.op == Repeat {
        var n := if re.max == -1 then re.min else re.max;
        n := if n <= 0 then 1 else n;
        if n > MAX_SIZE / repeats {
          repeats := MAX_SIZE;
        } else {
          GrowsPositive(repeats, n);
          repeats := repeats * n;
        }
      }
      if numRegexp >= MAX_SIZE / repeats && CalcSize(re) > MAX_SIZE {
        return Some(Large);
      }
      if numRegexp >= MAX_HEIGHT && CalcHeight(re) > MAX_HEIGHT {
        return Some(NestingDepth);
      }
      err := None;
    }

    /** Joins nodes under one operator; an alternation is factored on the way. */
    method Collapse(subs: seq<Regexp>, op: Op) returns (r: Result<Regexp, ParseError>)
      requires Valid() && AllWellFormed(subs) && (op == Concat || op == Alternate)
      modifies this
      ensures Valid() && numRunes == old(numRunes)
      ensures r.Err? ==> Caused(r.error, numRunes, WeightAll(subs))
      ensures r.Ok? && op == Alternate ==> IsAnyOf(fold, r.value, subs)
      ensures r.Ok? && op == Concat ==> IsAllOf(fold, r.value, subs)
      ensures r.Ok? ==> Weight(r.value) <= WeightAll(subs) + 1
      decreases WeightAll(subs), 3
    {
      hide NewlineAlone, WellFormed, IsAnyOf, IsAllOf, Weight, WeightAll, Flattened, SameAny;
      if |subs| == 1 {
        assert subs == [subs[0]];
        WeightOne(subs[0]);
        OneIsAnyOf(fold, subs[0]);
        return Ok(subs[0]);
      }
      numRegexp := numRegexp + 1;
      var flat := Flatten(fold, op, subs);
      if op == Concat {
        NodeOfAll(fold, subs, flat);
        return Ok(NodeOf(Concat, flat));
      }
      FlattenedAny(fold, subs, flat);
      var f := Factor(flat);
      if f.Err? {
        return Err(f.error);
      }
      SameAnyTransitive(fold, subs, flat, f.value);
      if |f.value| == 1 {
        SingleAnswers(fold, subs, f.value);
        assert f.value == [f.value[0]];
        WeightOne(f.value[0]);
        return Ok(f.value[0]);
      }
      NodeOfAny(fold, subs, f.value);
      r := Ok(NodeOf(Alternate, f.value));
    }

    /** All four rounds. */
    method Factor(subs: seq<Regexp>) returns (r: Result<seq<Regexp>, ParseError>)
      requires Valid() && AllWellFormed(subs)
      modifies this
      ensures Valid() && numRunes == old(numRunes)
      ensures r.Err? ==> Caused(r.error, numRunes, WeightAll(subs))
      ensures r.Ok? ==> SameAny(fold, subs, r.value) && WeightAll(r.value) <= WeightAll(subs) && Tidy(r.value)
      decreases WeightAll(subs), 2
    {
      hide NewlineAlone, Match, MatchAny, WeightAll;
      if |subs| < 2 {
        return Ok(subs);
      }
      var one := FactorStrings(subs);
      if one.Err? {
        return one;
      }
      var two := FactorNodes(one.value);
      if two.Err? {
        return two;
      }
      SameAnyTransitive(fold, subs, one.value, two.value);
      var three := MergeClasses(fold, two.value);
      SameAnyTransitive(fold, subs, two.value, three);
      var four := DropEmpties(fold, three);
      SameAnyTransitive(fold, subs, three, four);
      r := Ok(four);
    }

    /** Builds `str(suffix|...)` from alternatives that start with `str`. */
    method FactorStringRun(items: seq<Regexp>, str: seq<int>, foldCase: bool) returns (r: Result<Regexp, ParseError>)
      requires Valid() && AllWellFormed(items) && |items| >= 2 && str != [] && StartWith(items, str, foldCase)
      modifies this
      ensures Valid() && numRunes == old(numRunes)
      ensures r.Err? ==> Caused(r.error, numRunes, WeightAll(items))
      ensures r.Ok? ==> IsAnyOf(fold, r.value, items) && Weight(r.value) <= WeightAll(items)
      ensures r.Ok? ==> LeadingString(r.value) == (str, foldCase)
      decreases WeightAll(items), 0
    {
      hide NewlineAlone, Weight, WeightAll, IsAnyOf, RemoveLeadingString, LeadingString, WellFormed;
      numRegexp := numRegexp + 1;
      var run := [];
      for k := 0 to |items|
        invariant Valid() && numRunes == old(numRunes)
        invariant |run| == k && forall m :: 0 <= m < k ==> run[m] == RemoveLeadingString(items[m], |str|)
      {
        var s := RemoveLeadingString(items[k], |str|);
        var err := CheckLimits(s);
        if err.Some? {
          RemovePrefix(Env(fold, []), items[k], str);
          RefusedPart(items, k, s, err.value, numRunes);
          return Err(err.value);
        }
        run := run + [s];
      }
      StrippedWeight(fold, items, run, str, foldCase);
      AtLeastTwice(|items|, 3 * |str|);
      var suffix := Collapse(run, Alternate);
      if suffix.Err? {
        return suffix;
      }
      numRegexp := numRegexp + 1;
      FactorString(fold, items, run, str, foldCase, suffix.value);
      FactoredStart(LiteralNode(str, foldCase), suffix.value);
      r := Ok(Factored(LiteralNode(str, foldCase), suffix.value));
    }

    /** Round 1: common literal prefixes. */
    method FactorStrings(subs: seq<Regexp>) returns (r: Result<seq<Regexp>, ParseError>)
      requires Valid() && AllWellFormed(subs)
      modifies this
      ensures Valid() && numRunes == old(numRunes)
      ensures r.Err? ==> Caused(r.error, numRunes, WeightAll(subs))
      ensures r.Ok? ==> SameAny(fold, subs, r.value) && WeightAll(r.value) <= WeightAll(subs) && NoSharedLiterals(r.value)
      decreases WeightAll(subs), 1
    {
      hide NewlineAlone, WellFormed, Pending, SameAny, IsAnyOf, Weight, WeightAll, LeadingString, NoSharedLiterals;
      PendingStart(fold, subs);
      var out, start, str, strFold := [], 0, [], false;
      NothingShared();
      for i := 0 to |subs| + 1
        invariant Valid() && numRunes == old(numRunes) && 0 <= start <= i && start <= |subs| && (i == |subs| + 1 ==> start == |subs|)
        invariant Pending(fold, subs, out, start)
        invariant i <= |subs| ==> StartWith(subs[start..i], str, strFold) && (i - start >= 2 ==> str != [])
        invariant i == start + 1 && start < |subs| ==> LeadingString(subs[start]) == (str, strFold)
        invariant NoSharedLiterals(out) && (out != [] && i <= |subs| ==> !SameStart(LeadingString(out[|out| - 1]), (str, strFold)))
        invariant i == start && i <= |subs| ==> out == [] && str == []
      {
        var istr, iFold := [], false;
        if i < |subs| {
          istr, iFold := LeadingString(subs[i]).0, LeadingString(subs[i]).1;
          if iFold == strFold {
            var same := CommonPrefix(str, istr);
            if same > 0 {
              assert subs[start..i + 1] == subs[start..i] + [subs[i]];
              ShorterStart(subs[start..i], str, same, strFold);
              str := str[..same];
              continue;
            }
          }
        }
        if i == start {
        } else if i == start + 1 {
          PendingKeep(fold, subs, out, start);
          if out != [] {
            ShareLiteralMeaning(out[|out| - 1], subs[start]);
          }
          LiteralsSnoc(out, subs[start]);
          out := out + [subs[start]];
        } else {
          SliceWeight(subs, start, i);
          var re := FactorStringRun(subs[start..i], str, strFold);
          if re.Err? {
            return Err(re.error);
          }
          PendingPush(fold, subs, out, start, i, re.value);
          if out != [] {
            ShareLiteralMeaning(out[|out| - 1], re.value);
          }
          LiteralsSnoc(out, re.value);
          out := out + [re.value];
        }
        start, str, strFold := i, istr, iFold;
        if i < |subs| {
          assert subs[i..i + 1] == [subs[i]];
        }
      }
      PendingEnd(fold, subs, out);
      r := Ok(out);
    }

    /** Builds `first(rest|...)` from alternatives that start with nodes equal to `first`. */
    method FactorNodeRun(items: seq<Regexp>, first: Regexp) returns (r: Result<Regexp, ParseError>)
      requires Valid() && AllWellFormed(items) && |items| >= 2 && WellFormed(first) && Simple(first) && LedBy(items, first)
      modifies this
      ensures Valid() && numRunes == old(numRunes)
      ensures r.Err? ==> Caused(r.error, numRunes, WeightAll(items))
      ensures r.Ok? ==> IsAnyOf(fold, r.value, items) && Weight(r.value) <= WeightAll(items)
      ensures r.Ok? ==> LeadingRegexp(r.value) == Some(first)
      ensures r.Ok? && first.op != Literal ==> LeadingString(r.value) == ([], false)
      decreases WeightAll(items), 0
    {
      hide NewlineAlone, Weight, WeightAll, IsAnyOf, RemoveLeadingRegexp, LeadingRegexp, WellFormed, Equal, Simple;
      var run := [];
      for k := 0 to |items|
        invariant Valid() && numRunes == old(numRunes)
        invariant |run| == k && forall m :: 0 <= m < k ==> run[m] == RemoveLeadingRegexp(items[m]).1
      {
        var rest := RemoveLeadingRegexp(items[k]).1;
        var err := CheckLimits(rest);
        if err.Some? {
          RemoveNode(Env(fold, []), items[k]);
          RefusedPart(items, k, rest, err.value, numRunes);
          return Err(err.value);
        }
        run := run + [rest];
      }
      EqualItself(first);
      SimpleWeight(first, first);
      BeheadedWeight(fold, items, run, first);
      AtLeastTwice(|items|, Weight(first) - 1);
      var suffix := Collapse(run, Alternate);
      if suffix.Err? {
        return suffix;
      }
      numRegexp := numRegexp + 1;
      FactorNode(fold, items, run, first, suffix.value);
      FactoredStart(first, suffix.value);
      SimpleNotEmpty(first);
      r := Ok(Factored(first, suffix.value));
    }

    /** Round 2: common leading nodes that are classes or fixed repeats of classes. */
    method FactorNodes(subs: seq<Regexp>) returns (r: Result<seq<Regexp>, ParseError>)
      requires Valid() && AllWellFormed(subs)
      modifies this
      ensures Valid() && numRunes == old(numRunes)
      ensures r.Err? ==> Caused(r.error, numRunes, WeightAll(subs))
      ensures r.Ok? ==> SameAny(fold, subs, r.value) && WeightAll(r.value) <= WeightAll(subs) && NoSharedNodes(r.value)
      ensures r.Ok? && NoSharedLiterals(subs) ==> NoSharedLiterals(r.value)
      decreases WeightAll(subs), 1
    {
      hide NewlineAlone, WellFormed, Pending, SameAny, IsAnyOf, Weight, WeightAll, LeadingRegexp, Equal, Simple;
      hide NoSharedNodes, NoSharedLiterals, NodesApart, LiteralsApart, LeadingString;
      PendingStart(fold, subs);
      ApartStart(subs);
      var out, start := [], 0;
      var first: Option<Regexp> := None;
      for i := 0 to |subs| + 1
        invariant Valid() && numRunes == old(numRunes) && 0 <= start <= i && start <= |subs| && (i == |subs| + 1 ==> start == |subs|)
        invariant Pending(fold, subs, out, start)
        invariant i <= |subs| && start < i ==> first == LeadingRegexp(subs[start])
        invariant i <= |subs| && i - start >= 2 ==> first.Some? && Simple(first.value) && LedBy(subs[start..i], first.value)
        invariant i == start ==> first == None && out == []
        invariant i <= |subs| ==> NodesApart(out, first) && LiteralsApart(subs, out, start)
        invariant NoSharedNodes(out) && (NoSharedLiterals(subs) ==> NoSharedLiterals(out))
      {
        var iFirst: Option<Regexp> := None;
        if i < |subs| {
          iFirst := LeadingRegexp(subs[i]);
          if first.Some? && iFirst.Some? && Equal(first.value, iFirst.value) && Simple(first.value) {
            ExtendRun(subs, start, i, first.value);
            continue;
          }
        }
        if i == start {
          ApartNone(subs, i, iFirst);
        } else if i == start + 1 {
          PendingKeep(fold, subs, out, start);
          ApartKeep(subs, out, start, first, iFirst);
          out := out + [subs[start]];
        } else {
          SliceWeight(subs, start, i);
          LeadWellFormed(subs[start]);
          var re := FactorNodeRun(subs[start..i], first.value);
          if re.Err? {
            return Err(re.error);
          }
          PendingPush(fold, subs, out, start, i, re.value);
          ApartPush(subs, out, start, i, first.value, iFirst, re.value);
          out := out + [re.value];
        }
        start, first := i, iFirst;
      }
      PendingEnd(fold, subs, out);
      r := Ok(out);
    }
  }

  // ----- what the second round keeps apart

  /** The last alternative put out does not start with the node of the run at hand. */
  ghost predicate NodesApart(out: seq<Regexp>, first: Option<Regexp>) {
    out != [] && first.Some? ==>
      var last := LeadingRegexp(out[|out| - 1]);
      !(last.Some? && Equal(last.value, first.value) && Simple(last.value))
  }

  /** Nor with the literal of the alternative at hand, if no neighbours shared one. */
  ghost predicate LiteralsApart(subs: seq<Regexp>, out: seq<Regexp>, start: nat) {
    NoSharedLiterals(subs) && out != [] && start < |subs| ==> !ShareLiteral(out[|out| - 1], subs[start])
  }

  lemma ApartStart(subs: seq<Regexp>)
    ensures NodesApart([], None) && LiteralsApart(subs, [], 0) && NoSharedNodes([]) && NoSharedLiterals([])
  {
  }

  lemma ApartNone(subs: seq<Regexp>, i: nat, next: Option<Regexp>)
    ensures NodesApart([], next) && LiteralsApart(subs, [], i)
  {
  }

  lemma ApartKeep(subs: seq<Regexp>, out: seq<Regexp>, start: nat, first: Option<Regexp>, next: Option<Regexp>)
    requires start < |subs| && first == LeadingRegexp(subs[start]) && NodesApart(out, first) && LiteralsApart(subs, out, start)
    requires NoSharedNodes(out) && (NoSharedLiterals(subs) ==> NoSharedLiterals(out))
    requires !(first.Some? && next.Some? && Equal(first.value, next.value) && Simple(first.value))
    ensures var more := out + [subs[start]];
            && NodesApart(more, next) && LiteralsApart(subs, more, start + 1)
            && NoSharedNodes(more) && (NoSharedLiterals(subs) ==> NoSharedLiterals(more))
  {
    hide LeadingRegexp, Equal, Simple, LeadingString, ShareNode, ShareLiteral;
    if out != [] {
      ShareNodeMeaning(out[|out| - 1], subs[start]);
    }
    NodesSnoc(out, subs[start]);
    if NoSharedLiterals(subs) {
      LiteralsSnoc(out, subs[start]);
      assert start + 1 < |subs| ==> !ShareLiteral(subs[start], subs[start + 1]);
    }
  }

  lemma ApartPush(subs: seq<Regexp>, out: seq<Regexp>, start: nat, i: nat, first: Regexp, next: Option<Regexp>, re: Regexp)
    requires start + 2 <= i <= |subs| && LedBy(subs[start..i], first) && Simple(first)
    requires NodesApart(out, Some(first)) && LiteralsApart(subs, out, start)
    requires NoSharedNodes(out) && (NoSharedLiterals(subs) ==> NoSharedLiterals(out))
    requires !(next.Some? && Equal(first, next.value) && Simple(first))
    requires LeadingRegexp(re) == Some(first) && (first.op != Literal ==> LeadingString(re) == ([], false))
    ensures var more := out + [re];
            && NodesApart(more, next) && LiteralsApart(subs, more, i)
            && NoSharedNodes(more) && (NoSharedLiterals(subs) ==> NoSharedLiterals(more))
  {
    hide LeadingRegexp, Equal, LeadingString, LedBy, Simple, ShareNode, ShareLiteral;
    if out != [] {
      ShareNodeMeaning(out[|out| - 1], re);
      ShareLiteralMeaning(out[|out| - 1], re);
    }
    if i < |subs| {
      ShareLiteralMeaning(re, subs[i]);
    }
    NodesSnoc(out, re);
    if NoSharedLiterals(subs) {
      RunNotLiteral(subs, start, i, first);
      LiteralsSnoc(out, re);
    }
  }

  lemma SimpleNotEmpty(f: Regexp)
    requires Simple(f)
    ensures f.op != EmptyMatch
  {
  }

  lemma NothingShared()
    ensures NoSharedLiterals([]) && NoSharedNodes([])
  {
  }

  lemma GrowsPositive(a: int, b: int)
    requires a >= 1 && b >= 1
    ensures a * b >= 1
  {
  }

  method CommonPrefix(a: seq<int>, b: seq<int>) returns (same: nat)
    ensures same <= |a| && same <= |b| && a[..same] == b[..same]
    ensures same < |a| && same < |b| ==> a[same] != b[same]
  {
    same := 0;
    while same < |a| && same < |b| && a[same] == b[same]
      invariant same <= |a| && same <= |b| && a[..same] == b[..same]
    {
      same := same + 1;
    }
  }

  lemma ShorterStart(items: seq<Regexp>, str: seq<int>, same: nat, foldCase: bool)
    requires StartWith(items, str, foldCase) && same <= |str|
    ensures StartWith(items, str[..same], foldCase)
  {
  }

  lemma SliceWeight(subs: seq<Regexp>, start: nat, i: nat)
    requires start <= i <= |subs|
    ensures WeightAll(subs[start..i]) <= WeightAll(subs)
  {
    assert subs == subs[..start] + subs[start..];
    assert subs[start..] == subs[start..i] + subs[i..];
    WeightConcat(subs[..start], subs[start..]);
    WeightConcat(subs[start..i], subs[i..]);
  }

  lemma LeadWellFormed(re: Regexp)
    requires WellFormed(re) && LeadingRegexp(re).Some?
    ensures WellFormed(LeadingRegexp(re).value)
  {
  }

  /** A further alternative with an equal leading node joins the run. */
  lemma ExtendRun(subs: seq<Regexp>, start: nat, i: nat, first: Regexp)
    requires start < i < |subs| && LeadingRegexp(subs[start]) == Some(first)
    requires i - start >= 2 ==> LedBy(subs[start..i], first)
    requires LeadingRegexp(subs[i]).Some? && Equal(first, LeadingRegexp(subs[i]).value)
    ensures LedBy(subs[start..i + 1], first)
  {
    hide LeadingRegexp, Equal;
    EqualItself(first);
    var run := subs[start..i + 1];
    forall k | 0 <= k < |run| ensures LeadingRegexp(run[k]).Some? && Equal(first, LeadingRegexp(run[k]).value) {
      assert run[k] == subs[start + k];
      if i - start >= 2 && k < i - start {
        assert subs[start..i][k] == run[k];
      }
    }
  }
}
