/** What the size and the height that the parser limits say about a tree and its expansion. */
module RegexSize {
  import opened Spans
  import opened RuneClass
  import opened RegexTree
  import opened RegexSimplify
  import opened RegexFactor

  // ----- size

  /** The literal runes and single-rune nodes of a tree. */
  function Units(re: Regexp): nat
    decreases re
  {
    match re.op
    case Literal => |re.rune|
    case CharClass => 1
    case AnyChar => 1
    case AnyCharNotNL => 1
    case _ => UnitsAll(re.sub)
  }

  function UnitsAll(subs: seq<Regexp>): nat
    decreases subs
  {
    if subs == [] then 0 else Units(subs[0]) + UnitsAll(subs[1..])
  }

  lemma {:induction false} UnitsConcat(a: seq<Regexp>, b: seq<Regexp>)
    ensures UnitsAll(a + b) == UnitsAll(a) + UnitsAll(b)
  {
    hide Units;
    if a == [] {
      assert a + b == b;
    } else {
      UnitsConcat(a[1..], b);
      assert (a + b)[0] == a[0] && (a + b)[1..] == a[1..] + b;
    }
  }

  lemma UnitsOne(x: Regexp)
    ensures UnitsAll([x]) == Units(x)
  {
    hide Units;
    assert [x][1..] == [];
  }

  lemma {:induction false} UnitsCopies(x: Regexp, n: nat)
    ensures UnitsAll(Copies(x, n)) == n * Units(x)
  {
    hide Units;
    if n > 0 {
      UnitsCopies(x, n - 1);
      assert Copies(x, n)[1..] == Copies(x, n - 1);
      assert n * Units(x) == Units(x) + (n - 1) * Units(x);
    }
  }

  lemma UnitsSimplify1(op: Op, flags: Flags, x: Regexp)
    requires op in {Star, Plus, Quest}
    ensures Units(Simplify1(op, flags, x)) == Units(x)
  {
    UnitsOne(x);
  }

  lemma {:induction false} UnitsNested(x: Regexp, flags: Flags, m: nat)
    requires m >= 1
    ensures Units(NestedQuest(x, flags, m)) == m * Units(x)
  {
    hide Units, Simplify1;
    if m == 1 {
      UnitsSimplify1(Quest, flags, x);
    } else {
      var inner := NestedQuest(x, flags, m - 1);
      UnitsNested(x, flags, m - 1);
      UnitsPair(x, inner);
      UnitsSimplify1(Quest, flags, NodeWith(Concat, NO_FLAGS, [x, inner]));
      assert m * Units(x) == Units(x) + (m - 1) * Units(x);
    }
  }

  lemma UnitsPair(x: Regexp, y: Regexp)
    ensures Units(NodeWith(Concat, NO_FLAGS, [x, y])) == Units(x) + Units(y)
  {
    UnitsNode([x, y]);
    hide Units;
    assert [x, y] == [x] + [y];
    UnitsConcat([x], [y]);
    UnitsOne(x);
    UnitsOne(y);
  }

  /** The expansion of a counted repeat has as many copies as the repeat allows, or asks for when it has no end. */
  lemma UnitsExpand(flags: Flags, min: nat, max: int, x: Regexp)
    requires (max == -1 || min <= max) && !(min == 0 && max == 0)
    ensures Units(Expand(flags, min, max, x)) == if max == -1 then (if min == 0 then 1 else min) * Units(x) else max * Units(x)
  {
    hide Units, Simplify1, NestedQuest;
    UnitsNode(Copies(x, min));
    UnitsCopies(x, min);
    if max == -1 {
      if min <= 1 {
        UnitsSimplify1(Star, flags, x);
        UnitsSimplify1(Plus, flags, x);
      } else {
        var last := Simplify1(Plus, flags, x);
        UnitsSimplify1(Plus, flags, x);
        UnitsCopies(x, min - 1);
        UnitsConcat(Copies(x, min - 1), [last]);
        UnitsOne(last);
        UnitsNode(Copies(x, min - 1) + [last]);
        assert min * Units(x) == (min - 1) * Units(x) + Units(x);
      }
    } else if max > min {
      var last := NestedQuest(x, flags, max - min);
      UnitsNested(x, flags, max - min);
      UnitsConcat(Copies(x, min), [last]);
      UnitsOne(last);
      UnitsNode(Copies(x, min) + [last]);
      assert max * Units(x) == min * Units(x) + (max - min) * Units(x);
    }
  }

  lemma UnitsNode(subs: seq<Regexp>)
    ensures Units(NodeWith(Concat, NO_FLAGS, subs)) == UnitsAll(subs)
  {
  }

  /** The size the parser computes is at least the number of units after expansion. */
  lemma {:induction false} SizeBoundsExpansion(re: Regexp)
    requires WellFormed(re)
    ensures Shaped(re) && Units(Simplify(re)) <= CalcSize(re)
    decreases re
  {
    WellFormedIsShaped(re);
    if re.op in {Concat, Alternate, Capture} {
      SizeBoundsAll(re.sub);
    } else if HasOneSub(re.op) {
      SizeBoundsExpansion(re.sub[0]);
      SumOne(re.sub);
      OneSubExpansion(re, Simplify(re.sub[0]));
    }
  }

  lemma SumOne(subs: seq<Regexp>)
    requires |subs| == 1
    ensures SumSize(subs) == CalcSize(subs[0])
  {
    hide CalcSize;
    assert subs[1..] == [];
  }

  lemma OneSubExpansion(re: Regexp, x: Regexp)
    requires WellFormed(re) && Shaped(re) && HasOneSub(re.op) && x == Simplify(re.sub[0]) && Units(x) <= SumSize(re.sub)
    ensures Units(Simplify(re)) <= CalcSize(re)
  {
    hide Units, SumSize, Expand, Simplify1;
    if re.op == Repeat {
      if !(re.min == 0 && re.max == 0) {
        UnitsExpand(re.flags, re.min, re.max, x);
        Times(re.min, Units(x), SumSize(re.sub));
        Times(re.max, Units(x), SumSize(re.sub));
      } else {
        NoUnits();
      }
    } else if re.op != Capture {
      UnitsSimplify1(re.op, re.flags, x);
    } else {
      CaptureUnits(re, x);
    }
  }

  lemma CaptureUnits(re: Regexp, x: Regexp)
    requires Shaped(re) && re.op == Capture && |re.sub| == 1 && x == Simplify(re.sub[0])
    ensures Units(Simplify(re)) == Units(x)
  {
    assert SimplifyAll(re.sub) == [x];
    UnitsOne(x);
  }

  lemma NoUnits()
    ensures Units(NewRegexp(EmptyMatch)) == 0
  {
  }

  lemma Times(n: int, a: nat, b: int)
    requires a <= b
    ensures n >= 0 ==> n * a <= n * b
  {
  }

  lemma {:induction false} SizeBoundsAll(subs: seq<Regexp>)
    requires AllWellFormed(subs)
    ensures ShapedAll(subs) && UnitsAll(SimplifyAll(subs)) <= SumSize(subs)
    decreases subs
  {
    if subs != [] {
      SizeBoundsExpansion(subs[0]);
      SizeBoundsAll(subs[1..]);
      hide Units, CalcSize, Simplify;
      assert SimplifyAll(subs)[1..] == SimplifyAll(subs[1..]);
    }
  }

  // ----- height

  /** A way down from the root, by the numbers of the children. */
  ghost predicate WayDown(re: Regexp, way: seq<nat>)
    decreases |way|
  {
    way == [] || (way[0] < |re.sub| && WayDown(re.sub[way[0]], way[1..]))
  }

  /** The height the parser computes is the length of the longest way down, with the root. */
  lemma {:induction false} HeightIsLongestWay(re: Regexp) returns (longest: seq<nat>)
    ensures WayDown(re, longest) && |longest| + 1 == CalcHeight(re)
    ensures forall way :: WayDown(re, way) ==> |way| < CalcHeight(re)
    decreases re
  {
    longest := [];
    if re.sub != [] {
      var k := HighestChild(re.sub);
      var rest := HeightIsLongestWay(re.sub[k]);
      longest := [k] + rest;
      assert longest[1..] == rest;
    }
    forall way | WayDown(re, way) ensures |way| < CalcHeight(re) {
      if way != [] {
        ChildHeight(re.sub, way[0]);
        var other := HeightIsLongestWay(re.sub[way[0]]);
        assert WayDown(re.sub[way[0]], way[1..]);
        assert |way[1..]| < CalcHeight(re.sub[way[0]]);
      }
    }
  }

  lemma {:induction false} HighestChild(subs: seq<Regexp>) returns (k: nat)
    requires subs != []
    ensures k < |subs| && CalcHeight(subs[k]) == MaxHeight(subs)
    decreases subs
  {
    hide CalcHeight;
    if |subs| == 1 || CalcHeight(subs[0]) > MaxHeight(subs[1..]) {
      k := 0;
      HeightPositive(subs[0]);
    } else {
      k := HighestChild(subs[1..]);
      k := k + 1;
    }
  }

  lemma HeightPositive(re: Regexp)
    ensures CalcHeight(re) >= 1
  {
  }

  lemma {:induction false} ChildHeight(subs: seq<Regexp>, k: nat)
    requires k < |subs|
    ensures CalcHeight(subs[k]) <= MaxHeight(subs)
    decreases subs
  {
    hide CalcHeight;
    if k > 0 {
      ChildHeight(subs[1..], k - 1);
    }
  }
}
