/** Extraction of the finite list of strings a tree matches. */
module RegexOrValues {
  import opened Spans
  import opened RuneClass
  import opened RegexTree
  import opened Options

  const MAX_OR_VALUES := 100
  const REPLACEMENT := 0xFFFD

  type Str = seq<int>

  /** A rune that a string can hold: in range and not a surrogate. */
  predicate IsScalar(r: int) {
    IsRune(r) && !(0xD800 <= r <= 0xDFFF)
  }

  /** The conversion of runes to characters: invalid runes become U+FFFD. */
  function Sanitize(r: int): int {
    if IsScalar(r) then r else REPLACEMENT
  }

  function Keep(r: int): int {
    r
  }

  function Convert(conv: int -> int, s: Str): (t: Str)
    ensures |t| == |s| && forall i :: 0 <= i < |s| ==> t[i] == conv(s[i])
  {
    seq(|s|, i requires 0 <= i < |s| => conv(s[i]))
  }

  function ConvertAll(conv: int -> int, a: seq<Str>): (b: seq<Str>)
    ensures |b| == |a| && forall i :: 0 <= i < |a| ==> b[i] == Convert(conv, a[i])
  {
    seq(|a|, i requires 0 <= i < |a| => Convert(conv, a[i]))
  }

  /** Every prefix with every suffix, prefixes outermost. */
  function Products(ps: seq<Str>, ss: seq<Str>): (r: seq<Str>)
    ensures |r| == |ps| * |ss|
  {
    if ps == [] then [] else PrefixAll(ps[0], ss) + Products(ps[1..], ss)
  }

  function PrefixAll(p: Str, ss: seq<Str>): (r: seq<Str>)
    ensures |r| == |ss| && forall i :: 0 <= i < |ss| ==> r[i] == p + ss[i]
  {
    seq(|ss|, i requires 0 <= i < |ss| => p + ss[i])
  }

  /** Appends the runes of `start..=end` and of the ranges after it, giving up past the limit. */
  function RangeValues(conv: int -> int, start: int, end: int, rest: seq<Range>, acc: seq<Str>): Option<seq<Str>>
    decreases |rest|, if start <= end then end - start + 1 else 0
  {
    if start <= end then
      if |acc| + 1 > MAX_OR_VALUES then None
      else RangeValues(conv, start + 1, end, rest, acc + [[conv(start)]])
    else if rest == [] then Some(acc)
    else RangeValues(conv, rest[0].lo, rest[0].hi, rest[1..], acc)
  }

  /** The `get_or_values` recursion, for a given conversion of runes. */
  function OrValues(conv: int -> int, re: Regexp): Option<seq<Str>>
    requires WellFormed(re)
    decreases re
  {
    match re.op
    case Capture => OrValues(conv, re.sub[0])
    case Literal => if re.flags.foldCase then None else Some([Convert(conv, re.rune)])
    case EmptyMatch => Some([[]])
    case Alternate => AnyValues(conv, re.sub, [])
    case CharClass => RangeValues(conv, 0, -1, re.ranges, [])
    case Concat => AllValues(conv, re.sub)
    case _ => None
  }

  function AnyValues(conv: int -> int, subs: seq<Regexp>, acc: seq<Str>): Option<seq<Str>>
    requires AllWellFormed(subs)
    decreases subs
  {
    if subs == [] then Some(acc)
    else
      match OrValues(conv, subs[0])
      case None => None
      case Some(ca) =>
        if ca == [] || |acc + ca| > MAX_OR_VALUES then None else AnyValues(conv, subs[1..], acc + ca)
  }

  function AllValues(conv: int -> int, subs: seq<Regexp>): Option<seq<Str>>
    requires AllWellFormed(subs)
    decreases subs
  {
    if subs == [] then Some([[]])
    else
      match OrValues(conv, subs[0])
      case None => None
      case Some(ps) =>
        if ps == [] then None
        else if |subs| == 1 then Some(ps)
        else
          match AllValues(conv, subs[1..])
          case None => None
          case Some(ss) =>
            if ss == [] || |ps| * |ss| > MAX_OR_VALUES then None else Some(Products(ps, ss))
  }

  /** The list the source returns. */
  function GetOrValues(re: Regexp): Option<seq<Str>>
    requires WellFormed(re)
  {
    OrValues(Sanitize, re)
  }

  // ----- when a list is produced, and how long it is

  /** How many strings the tree spells out, counted without any limit. */
  function Number(re: Regexp): nat
    decreases re
  {
    match re.op
    case Capture => if |re.sub| == 1 then Number(re.sub[0]) else 0
    case Literal => 1
    case EmptyMatch => 1
    case CharClass => RunesIn(re.ranges)
    case Alternate => SumOf(re.sub)
    case Concat => ProductOf(re.sub)
    case _ => 0
  }

  function SumOf(subs: seq<Regexp>): nat
    decreases subs
  {
    if subs == [] then 0 else Number(subs[0]) + SumOf(subs[1..])
  }

  function ProductOf(subs: seq<Regexp>): nat
    decreases subs
  {
    if subs == [] then 1 else Number(subs[0]) * ProductOf(subs[1..])
  }

  function RunesIn(ranges: seq<Range>): nat {
    if ranges == [] then 0 else RunesIn(ranges[1..]) + Width(ranges[0].lo, ranges[0].hi)
  }

  function Width(lo: int, hi: int): nat {
    if lo <= hi then hi - lo + 1 else 0
  }

  /**
   * A tree of literals that do not fold case, empty matches, classes, captures, concatenations and
   * alternations, in which every part of a concatenation or alternation spells out something.
   */
  predicate Finite(re: Regexp)
    decreases re
  {
    match re.op
    case Literal => !re.flags.foldCase
    case EmptyMatch => true
    case CharClass => true
    case Capture => |re.sub| == 1 && Finite(re.sub[0])
    case Alternate => forall k :: 0 <= k < |re.sub| ==> Finite(re.sub[k]) && Number(re.sub[k]) > 0
    case Concat => forall k :: 0 <= k < |re.sub| ==> Finite(re.sub[k]) && Number(re.sub[k]) > 0
    case _ => false
  }

  predicate FiniteParts(subs: seq<Regexp>) {
    forall k :: 0 <= k < |subs| ==> Finite(subs[k]) && Number(subs[k]) > 0
  }

  /** The list is produced exactly when it stays within the limit, and then it has `n` entries. */
  ghost predicate Sized(r: Option<seq<Str>>, fine: bool, n: nat) {
    && (r.Some? <==> fine && n <= MAX_OR_VALUES)
    && (r.Some? ==> |r.value| == n)
  }

  lemma {:induction false} RangesSized(conv: int -> int, start: int, end: int, rest: seq<Range>, acc: seq<Str>)
    requires |acc| <= MAX_OR_VALUES
    ensures Sized(RangeValues(conv, start, end, rest, acc), true, |acc| + Width(start, end) + RunesIn(rest))
    decreases |rest|, if start <= end then end - start + 1 else 0
  {
    if start <= end {
      if |acc| + 1 <= MAX_OR_VALUES {
        RangesSized(conv, start + 1, end, rest, acc + [[conv(start)]]);
      }
    } else if rest != [] {
      RangesSized(conv, rest[0].lo, rest[0].hi, rest[1..], acc);
    }
  }

  lemma {:induction false} ValuesSized(conv: int -> int, re: Regexp)
    requires WellFormed(re)
    ensures Sized(OrValues(conv, re), Finite(re), Number(re))
    decreases re
  {
    match re.op
    case Capture => ValuesSized(conv, re.sub[0]);
    case Alternate =>
      AnySized(conv, re.sub, []);
      assert Finite(re) == FiniteParts(re.sub);
    case CharClass => RangesSized(conv, 0, -1, re.ranges, []);
    case Concat =>
      AllSized(conv, re.sub);
      assert Finite(re) == FiniteParts(re.sub);
    case _ =>
  }

  lemma {:induction false} AnySized(conv: int -> int, subs: seq<Regexp>, acc: seq<Str>)
    requires AllWellFormed(subs) && |acc| <= MAX_OR_VALUES
    ensures Sized(AnyValues(conv, subs, acc), FiniteParts(subs), |acc| + SumOf(subs))
    decreases subs
  {
    if subs != [] {
      ValuesSized(conv, subs[0]);
      PartsSplit(subs);
      hide OrValues, Finite, Number;
      if OrValues(conv, subs[0]).Some? {
        var ca := OrValues(conv, subs[0]).value;
        if ca != [] && |acc + ca| <= MAX_OR_VALUES {
          AnySized(conv, subs[1..], acc + ca);
        }
      }
    }
  }

  lemma PartsSplit(subs: seq<Regexp>)
    requires subs != []
    ensures FiniteParts(subs) <==> Finite(subs[0]) && Number(subs[0]) > 0 && FiniteParts(subs[1..])
  {
    hide Finite, Number;
    assert subs == [subs[0]] + subs[1..];
  }

  lemma {:induction false} ProductPositive(subs: seq<Regexp>)
    requires FiniteParts(subs)
    ensures ProductOf(subs) > 0
  {
    hide Finite, Number;
    if subs != [] {
      PartsSplit(subs);
      ProductPositive(subs[1..]);
      AtLeastEach(Number(subs[0]), ProductOf(subs[1..]));
    }
  }

  lemma AtLeastEach(a: nat, b: nat)
    requires a > 0 && b > 0
    ensures a * b >= a && a * b >= b
  {
  }

  lemma {:induction false} AllSized(conv: int -> int, subs: seq<Regexp>)
    requires AllWellFormed(subs)
    ensures Sized(AllValues(conv, subs), FiniteParts(subs), ProductOf(subs))
    decreases subs
  {
    if subs != [] {
      ValuesSized(conv, subs[0]);
      PartsSplit(subs);
      var n, m := Number(subs[0]), ProductOf(subs[1..]);
      AllSized(conv, subs[1..]);
      hide OrValues, Finite, Number;
      if FiniteParts(subs) {
        ProductPositive(subs[1..]);
        AtLeastEach(n, m);
      }
      if |subs| == 1 {
        assert subs[1..] == [];
      }
    }
  }

  /**
   * The source gives a list exactly for trees that spell out finitely many strings, at most a hundred in all;
   * the list has one entry for each.
   */
  lemma ListProduced(re: Regexp)
    requires WellFormed(re)
    ensures GetOrValues(re).Some? <==> Finite(re) && Number(re) <= MAX_OR_VALUES
    ensures GetOrValues(re).Some? ==> |GetOrValues(re).value| == Number(re)
  {
    ValuesSized(Sanitize, re);
  }

  // ----- the raw list is exactly what the tree matches

  /** The text of span `p` is listed. */
  ghost predicate Listed(e: Env, vs: seq<Str>, p: (int, int)) {
    0 <= p.0 <= p.1 <= |e.text| && e.text[p.0..p.1] in vs
  }

  ghost function ListRel(e: Env, vs: seq<Str>): Rel {
    iset p: (int, int) | Listed(e, vs, p)
  }

  lemma ListConcat(e: Env, a: seq<Str>, b: seq<Str>)
    ensures ListRel(e, a + b) == ListRel(e, a) + ListRel(e, b)
  {
  }

  lemma ListEmptyString(e: Env)
    ensures ListRel(e, [[]]) == Id(|e.text|)
  {
    forall i, j ensures Listed(e, [[]], (i, j)) <==> (i, j) in Id(|e.text|) {
      if Listed(e, [[]], (i, j)) {
        assert |e.text[i..j]| == 0;
      }
      if (i, j) in Id(|e.text|) {
        assert e.text[i..j] == [];
      }
    }
    assert forall p: (int, int) :: Listed(e, [[]], p) <==> (p.0, p.1) in Id(|e.text|);
  }

  lemma {:induction false} ProductsMember(ps: seq<Str>, ss: seq<Str>, w: Str)
    ensures w in Products(ps, ss) <==> exists p, s :: p in ps && s in ss && w == p + s
  {
    if ps != [] {
      ProductsMember(ps[1..], ss, w);
      var first := PrefixAll(ps[0], ss);
      assert ps == [ps[0]] + ps[1..];
      if w in first {
        var i :| 0 <= i < |first| && first[i] == w;
        var p, s := ps[0], ss[i];
        assert p in ps && s in ss && w == p + s;
      }
      if p, s :| p in ps && s in ss && w == p + s {
        if p == ps[0] {
          var i :| 0 <= i < |ss| && ss[i] == s;
          assert first[i] == w;
        } else {
          assert p in ps[1..];
        }
      }
    }
  }

  lemma SliceParts(text: Str, i: int, k: int, j: int, p: Str, s: Str)
    requires 0 <= i <= j <= |text| && text[i..j] == p + s && k == i + |p|
    ensures i <= k <= j && text[i..k] == p && text[k..j] == s
  {
    var w := text[i..j];
    assert |w| == |p| + |s|;
    assert w[..|p|] == p && w[|p|..] == s;
    assert text[i..k] == w[..|p|];
    assert text[k..j] == w[|p|..];
  }

  lemma ProductSplits(e: Env, ps: seq<Str>, ss: seq<Str>, i: int, j: int)
    requires Listed(e, Products(ps, ss), (i, j))
    ensures exists k :: Joins(ListRel(e, ps), ListRel(e, ss), i, k, j)
  {
    hide Products, Then;
    var w := e.text[i..j];
    ProductsMember(ps, ss, w);
    var p, s :| p in ps && s in ss && w == p + s;
    var k := i + |p|;
    SliceParts(e.text, i, k, j, p, s);
    assert Listed(e, ps, (i, k)) && Listed(e, ss, (k, j));
    assert Joins(ListRel(e, ps), ListRel(e, ss), i, k, j);
  }

  lemma ProductJoins(e: Env, ps: seq<Str>, ss: seq<Str>, i: int, k: int, j: int)
    requires Listed(e, ps, (i, k)) && Listed(e, ss, (k, j))
    ensures Listed(e, Products(ps, ss), (i, j))
  {
    hide Products;
    var p, s := e.text[i..k], e.text[k..j];
    assert e.text[i..j] == p + s;
    ProductsMember(ps, ss, p + s);
  }

  lemma ListProducts(e: Env, ps: seq<Str>, ss: seq<Str>)
    ensures ListRel(e, Products(ps, ss)) == Then(ListRel(e, ps), ListRel(e, ss))
  {
    hide Products;
    forall i, j ensures Listed(e, Products(ps, ss), (i, j)) <==> exists k :: Joins(ListRel(e, ps), ListRel(e, ss), i, k, j) {
      if Listed(e, Products(ps, ss), (i, j)) {
        ProductSplits(e, ps, ss, i, j);
      }
      if k :| Joins(ListRel(e, ps), ListRel(e, ss), i, k, j) {
        ProductJoins(e, ps, ss, i, k, j);
      }
    }
    hide Listed, Joins;
    assert forall p: (int, int) :: Listed(e, Products(ps, ss), p) <==> exists k :: Joins(ListRel(e, ps), ListRel(e, ss), p.0, k, p.1) by {
      assert forall p: (int, int) :: p == (p.0, p.1);
    }
  }

  lemma LiteralListed(e: Env, rune: Str)
    ensures LitMatch(e, rune, false) == ListRel(e, [rune])
  {
    forall i, j ensures LitAt(e, rune, false, i, j) <==> Listed(e, [rune], (i, j)) {
      if LitAt(e, rune, false, i, j) {
        forall t | 0 <= t < |rune| ensures e.text[i..j][t] == rune[t] {
          assert RuneFits(e.fold, rune[t], false, e.text[i + t]);
        }
        assert e.text[i..j] == rune;
      }
      if Listed(e, [rune], (i, j)) {
        assert e.text[i..j] == rune;
        forall t | 0 <= t < |rune| ensures RuneFits(e.fold, rune[t], false, e.text[i + t]) {
          assert e.text[i..j][t] == e.text[i + t];
        }
      }
    }
    assert forall p: (int, int) :: LitAt(e, rune, false, p.0, p.1) <==> Listed(e, [rune], (p.0, p.1));
  }

  lemma SingleListed(e: Env, c: int)
    ensures ListRel(e, [[c]]) == OneRune(e, iset{c})
  {
    forall i, j ensures Listed(e, [[c]], (i, j)) <==> OneAt(e, iset{c}, (i, j)) {
      if Listed(e, [[c]], (i, j)) {
        assert e.text[i..j] == [c];
        assert e.text[i..j][0] == e.text[i];
      }
      if OneAt(e, iset{c}, (i, j)) {
        assert e.text[i..j] == [c];
      }
    }
    assert forall p: (int, int) :: Listed(e, [[c]], p) <==> OneAt(e, iset{c}, (p.0, p.1));
  }

  lemma OneRuneJoin(e: Env, s: iset<int>, t: iset<int>)
    ensures OneRune(e, s + t) == OneRune(e, s) + OneRune(e, t)
  {
  }

  lemma ListEmpty(e: Env)
    ensures ListRel(e, []) == iset{}
  {
  }

  /** The listed ranges add exactly their members. */
  lemma {:induction false} RangeValuesListed(e: Env, start: int, end: int, rest: seq<Range>, acc: seq<Str>)
    requires RangeValues(Keep, start, end, rest, acc).Some?
    ensures ListRel(e, RangeValues(Keep, start, end, rest, acc).value)
         == ListRel(e, acc) + OneRune(e, Interval(start, end) + Members(rest))
    decreases |rest|, if start <= end then end - start + 1 else 0
  {
    if start <= end {
      RangeValuesListed(e, start + 1, end, rest, acc + [[start]]);
      ListConcat(e, acc, [[start]]);
      SingleListed(e, start);
      assert Interval(start, end) == iset{start} + Interval(start + 1, end);
      RangeStep(e, ListRel(e, acc), start, Interval(start + 1, end), Members(rest), Interval(start, end));
    } else if rest == [] {
      assert Interval(start, end) + Members(rest) == iset{};
      assert OneRune(e, iset{}) == iset{};
      assert ListRel(e, acc) + iset{} == ListRel(e, acc);
    } else {
      RangeValuesListed(e, rest[0].lo, rest[0].hi, rest[1..], acc);
      assert rest == [rest[0]] + rest[1..];
      MembersConcat([rest[0]], rest[1..]);
      MembersOne(rest[0]);
      assert Interval(start, end) + Members(rest) == Interval(rest[0].lo, rest[0].hi) + Members(rest[1..]);
    }
  }

  lemma RangeStep(e: Env, acc: Rel, c: int, more: iset<int>, rest: iset<int>, all: iset<int>)
    requires all == iset{c} + more
    ensures acc + OneRune(e, iset{c}) + OneRune(e, more + rest) == acc + OneRune(e, all + rest)
  {
    OneRuneJoin(e, iset{c}, more + rest);
    assert all + rest == iset{c} + (more + rest);
    RelAssociative(acc, OneRune(e, iset{c}), OneRune(e, more + rest));
  }

  lemma ClassListed(e: Env, re: Regexp)
    requires WellFormed(re) && re.op == CharClass && OrValues(Keep, re).Some?
    ensures Match(e, re) == ListRel(e, OrValues(Keep, re).value)
  {
    RangeValuesListed(e, 0, -1, re.ranges, []);
    ListEmpty(e);
    assert Interval(0, -1) + Members(re.ranges) == Members(re.ranges);
    var r := OneRune(e, Members(re.ranges));
    assert iset{} + r == r;
  }

  /** Whenever a list is produced, a span matches exactly when its text is in the raw list. */
  lemma {:induction false} RawValuesExact(e: Env, re: Regexp)
    requires WellFormed(re) && OrValues(Keep, re).Some?
    ensures Match(e, re) == ListRel(e, OrValues(Keep, re).value)
    decreases re
  {
    match re.op
    case Capture => RawValuesExact(e, re.sub[0]);
    case Literal =>
      assert Convert(Keep, re.rune) == re.rune;
      LiteralListed(e, re.rune);
    case EmptyMatch => ListEmptyString(e);
    case Alternate =>
      AnyValuesExact(e, re.sub, []);
      ListEmpty(e);
      assert iset{} + MatchAny(e, re.sub) == MatchAny(e, re.sub);
    case CharClass => ClassListed(e, re);
    case Concat => AllValuesExact(e, re.sub);
    case _ =>
  }

  lemma {:induction false} AnyValuesExact(e: Env, subs: seq<Regexp>, acc: seq<Str>)
    requires AllWellFormed(subs) && AnyValues(Keep, subs, acc).Some?
    ensures ListRel(e, AnyValues(Keep, subs, acc).value) == ListRel(e, acc) + MatchAny(e, subs)
    decreases subs
  {
    if subs == [] {
      assert ListRel(e, acc) + iset{} == ListRel(e, acc);
    } else {
      RawValuesExact(e, subs[0]);
      var ca := OrValues(Keep, subs[0]).value;
      AnyValuesExact(e, subs[1..], acc + ca);
      ListConcat(e, acc, ca);
      hide Match, ListRel;
      RelAssociative(ListRel(e, acc), ListRel(e, ca), MatchAny(e, subs[1..]));
    }
  }

  lemma {:induction false} AllValuesExact(e: Env, subs: seq<Regexp>)
    requires AllWellFormed(subs) && AllValues(Keep, subs).Some?
    ensures ListRel(e, AllValues(Keep, subs).value) == MatchAll(e, subs)
    decreases subs
  {
    if subs == [] {
      ListEmptyString(e);
    } else {
      RawValuesExact(e, subs[0]);
      if |subs| == 1 {
        assert subs == [subs[0]];
        MatchAllOne(e, subs[0]);
      } else {
        AllValuesExact(e, subs[1..]);
        ListProducts(e, OrValues(Keep, subs[0]).value, AllValues(Keep, subs[1..]).value);
      }
    }
  }

  // ----- the conversion of runes

  lemma ConvertConcat(conv: int -> int, a: Str, b: Str)
    ensures Convert(conv, a + b) == Convert(conv, a) + Convert(conv, b)
  {
  }

  lemma ConvertAllConcat(conv: int -> int, a: seq<Str>, b: seq<Str>)
    ensures ConvertAll(conv, a + b) == ConvertAll(conv, a) + ConvertAll(conv, b)
  {
  }

  lemma ConvertPrefixed(conv: int -> int, p: Str, ss: seq<Str>)
    ensures ConvertAll(conv, PrefixAll(p, ss)) == PrefixAll(Convert(conv, p), ConvertAll(conv, ss))
  {
    forall i | 0 <= i < |ss| ensures Convert(conv, p + ss[i]) == Convert(conv, p) + Convert(conv, ss[i]) {
      ConvertConcat(conv, p, ss[i]);
    }
  }

  lemma {:induction false} ConvertProducts(conv: int -> int, ps: seq<Str>, ss: seq<Str>)
    ensures ConvertAll(conv, Products(ps, ss)) == Products(ConvertAll(conv, ps), ConvertAll(conv, ss))
  {
    if ps != [] {
      ConvertProducts(conv, ps[1..], ss);
      ConvertPrefixed(conv, ps[0], ss);
      ConvertAllConcat(conv, PrefixAll(ps[0], ss), Products(ps[1..], ss));
      assert ConvertAll(conv, ps)[1..] == ConvertAll(conv, ps[1..]);
    }
  }

  /** The list for a conversion is the raw list converted; giving up does not depend on it. */
  ghost predicate Converted(conv: int -> int, raw: Option<seq<Str>>, out: Option<seq<Str>>) {
    match raw
    case None => out == None
    case Some(vs) => out == Some(ConvertAll(conv, vs))
  }

  lemma {:induction false} RangeValuesConverted(conv: int -> int, start: int, end: int, rest: seq<Range>, acc: seq<Str>)
    ensures Converted(conv, RangeValues(Keep, start, end, rest, acc), RangeValues(conv, start, end, rest, ConvertAll(conv, acc)))
    decreases |rest|, if start <= end then end - start + 1 else 0
  {
    if start <= end {
      if |acc| + 1 <= MAX_OR_VALUES {
        RangeValuesConverted(conv, start + 1, end, rest, acc + [[start]]);
        ConvertAllConcat(conv, acc, [[start]]);
        assert Convert(conv, [start]) == [conv(start)];
        assert ConvertAll(conv, [[start]]) == [[conv(start)]];
      }
    } else if rest != [] {
      RangeValuesConverted(conv, rest[0].lo, rest[0].hi, rest[1..], acc);
    }
  }

  lemma {:induction false} OrValuesConverted(conv: int -> int, re: Regexp)
    requires WellFormed(re)
    ensures Converted(conv, OrValues(Keep, re), OrValues(conv, re))
    decreases re
  {
    match re.op
    case Capture => OrValuesConverted(conv, re.sub[0]);
    case Literal =>
      if !re.flags.foldCase {
        assert Convert(Keep, re.rune) == re.rune;
        assert ConvertAll(conv, [re.rune]) == [Convert(conv, re.rune)];
      }
    case EmptyMatch => assert ConvertAll(conv, [[]]) == [[]];
    case Alternate =>
      assert ConvertAll(conv, []) == [];
      AnyValuesConverted(conv, re.sub, []);
    case CharClass =>
      assert ConvertAll(conv, []) == [];
      RangeValuesConverted(conv, 0, -1, re.ranges, []);
    case Concat => AllValuesConverted(conv, re.sub);
    case _ =>
  }

  lemma {:induction false} AnyValuesConverted(conv: int -> int, subs: seq<Regexp>, acc: seq<Str>)
    requires AllWellFormed(subs)
    ensures Converted(conv, AnyValues(Keep, subs, acc), AnyValues(conv, subs, ConvertAll(conv, acc)))
    decreases subs
  {
    if subs != [] {
      OrValuesConverted(conv, subs[0]);
      if OrValues(Keep, subs[0]).Some? {
        var ca := OrValues(Keep, subs[0]).value;
        ConvertAllConcat(conv, acc, ca);
        AnyValuesConverted(conv, subs[1..], acc + ca);
      }
    }
  }

  lemma {:induction false} AllValuesConverted(conv: int -> int, subs: seq<Regexp>)
    requires AllWellFormed(subs)
    ensures Converted(conv, AllValues(Keep, subs), AllValues(conv, subs))
    decreases subs
  {
    if subs == [] {
      assert ConvertAll(conv, [[]]) == [[]];
    } else {
      OrValuesConverted(conv, subs[0]);
      if |subs| > 1 {
        AllValuesConverted(conv, subs[1..]);
        if OrValues(Keep, subs[0]).Some? && AllValues(Keep, subs[1..]).Some? {
          ConvertProducts(conv, OrValues(Keep, subs[0]).value, AllValues(Keep, subs[1..]).value);
        }
      }
    }
  }

  // ----- when the returned list is exact

  ghost predicate ScalarString(s: Str) {
    forall i :: 0 <= i < |s| ==> IsScalar(s[i])
  }

  /** On every text a string can hold, a span matches exactly when its text is listed. */
  ghost predicate ExactList(re: Regexp, vs: seq<Str>)
    requires WellFormed(re)
  {
    forall fold, text, i, j :: ScalarString(text) && 0 <= i <= j <= |text| ==>
      ((i, j) in Match(Env(fold, text), re) <==> Listed(Env(fold, text), vs, (i, j)))
  }

  /** No string with an invalid rune is replaced by one the tree does not match. */
  ghost predicate ReplacementsMatch(raw: seq<Str>) {
    forall k :: 0 <= k < |raw| ==> ScalarString(raw[k]) || Convert(Sanitize, raw[k]) in raw
  }

  lemma SanitizeScalar(s: Str)
    ensures ScalarString(Convert(Sanitize, s)) && (ScalarString(s) ==> Convert(Sanitize, s) == s)
  {
  }

  lemma ListedEither(raw: seq<Str>, w: Str)
    requires ReplacementsMatch(raw) && ScalarString(w)
    ensures w in ConvertAll(Sanitize, raw) <==> w in raw
  {
    var out := ConvertAll(Sanitize, raw);
    if w in out {
      var k :| 0 <= k < |out| && out[k] == w;
      SanitizeScalar(raw[k]);
    }
    if w in raw {
      var k :| 0 <= k < |raw| && raw[k] == w;
      SanitizeScalar(w);
      assert out[k] == w;
    }
  }

  /**
   * The returned list has at most 100 entries, and it is exact if and only if every string with an
   * invalid rune is replaced by one the tree matches anyway.
   */
  lemma OrValuesExact(re: Regexp)
    requires WellFormed(re) && GetOrValues(re).Some?
    ensures OrValues(Keep, re).Some? && |GetOrValues(re).value| <= MAX_OR_VALUES
    ensures ExactList(re, GetOrValues(re).value) <==> ReplacementsMatch(OrValues(Keep, re).value)
  {
    OrValuesConverted(Sanitize, re);
    ValuesSized(Sanitize, re);
    var raw, vs := OrValues(Keep, re).value, GetOrValues(re).value;
    if ReplacementsMatch(raw) {
      forall fold, text, i, j | ScalarString(text) && 0 <= i <= j <= |text|
        ensures (i, j) in Match(Env(fold, text), re) <==> Listed(Env(fold, text), vs, (i, j))
      {
        RawValuesExact(Env(fold, text), re);
        assert ScalarString(text[i..j]);
        ListedEither(raw, text[i..j]);
      }
    }
    if ExactList(re, vs) {
      forall k | 0 <= k < |raw| && !ScalarString(raw[k]) ensures Convert(Sanitize, raw[k]) in raw {
        var text := Convert(Sanitize, raw[k]);
        var e := Env(map[], text);
        SanitizeScalar(raw[k]);
        assert text[0..|text|] == text && vs[k] == text;
        assert Listed(e, vs, (0, |text|));
        RawValuesExact(e, re);
        assert (0, |text|) in Match(e, re);
        assert Listed(e, raw, (0, |text|));
      }
    }
  }

  // ----- a condition on the tree

  /** Every rune of the range can stand in a string. */
  predicate ScalarRange(r: Range) {
    r.lo > r.hi || (IsScalar(r.lo) && IsScalar(r.hi) && (r.hi < 0xD800 || r.lo > 0xDFFF))
  }

  /** No literal rune and no class range of the tree is a surrogate or out of range: no rune gets replaced. */
  ghost predicate ScalarTree(re: Regexp)
    decreases re
  {
    && (re.op == Literal ==> ScalarString(re.rune))
    && (re.op == CharClass ==> forall k :: 0 <= k < |re.ranges| ==> ScalarRange(re.ranges[k]))
    && forall k :: 0 <= k < |re.sub| ==> ScalarTree(re.sub[k])
  }

  ghost predicate ScalarStrings(vs: seq<Str>) {
    forall k :: 0 <= k < |vs| ==> ScalarString(vs[k])
  }

  lemma {:induction false} ScalarRangeValues(start: int, end: int, rest: seq<Range>, acc: seq<Str>)
    requires ScalarStrings(acc) && ScalarRange(Range(start, end)) && forall k :: 0 <= k < |rest| ==> ScalarRange(rest[k])
    ensures RangeValues(Keep, start, end, rest, acc).Some? ==> ScalarStrings(RangeValues(Keep, start, end, rest, acc).value)
    decreases |rest|, if start <= end then end - start + 1 else 0
  {
    if start <= end {
      if |acc| + 1 <= MAX_OR_VALUES {
        assert IsScalar(start);
        ScalarRangeValues(start + 1, end, rest, acc + [[start]]);
      }
    } else if rest != [] {
      assert rest[0] == Range(rest[0].lo, rest[0].hi);
      ScalarRangeValues(rest[0].lo, rest[0].hi, rest[1..], acc);
    }
  }

  lemma {:induction false} ScalarProducts(ps: seq<Str>, ss: seq<Str>)
    requires ScalarStrings(ps) && ScalarStrings(ss)
    ensures ScalarStrings(Products(ps, ss))
  {
    if ps != [] {
      ScalarProducts(ps[1..], ss);
      var first := PrefixAll(ps[0], ss);
      assert forall i :: 0 <= i < |first| ==> ScalarString(first[i]);
    }
  }

  lemma {:induction false} ScalarValues(re: Regexp)
    requires WellFormed(re) && ScalarTree(re)
    ensures OrValues(Keep, re).Some? ==> ScalarStrings(OrValues(Keep, re).value)
    decreases re
  {
    match re.op
    case Capture => ScalarValues(re.sub[0]);
    case Literal => assert Convert(Keep, re.rune) == re.rune;
    case EmptyMatch =>
    case Alternate => ScalarAny(re.sub, []);
    case CharClass => ScalarRangeValues(0, -1, re.ranges, []);
    case Concat => ScalarAll(re.sub);
    case _ =>
  }

  lemma {:induction false} ScalarAny(subs: seq<Regexp>, acc: seq<Str>)
    requires AllWellFormed(subs) && ScalarStrings(acc) && forall k :: 0 <= k < |subs| ==> ScalarTree(subs[k])
    ensures AnyValues(Keep, subs, acc).Some? ==> ScalarStrings(AnyValues(Keep, subs, acc).value)
    decreases subs
  {
    if subs != [] {
      ScalarValues(subs[0]);
      if OrValues(Keep, subs[0]).Some? {
        ScalarAny(subs[1..], acc + OrValues(Keep, subs[0]).value);
      }
    }
  }

  lemma {:induction false} ScalarAll(subs: seq<Regexp>)
    requires AllWellFormed(subs) && forall k :: 0 <= k < |subs| ==> ScalarTree(subs[k])
    ensures AllValues(Keep, subs).Some? ==> ScalarStrings(AllValues(Keep, subs).value)
    decreases subs
  {
    if subs != [] {
      ScalarValues(subs[0]);
      ScalarAll(subs[1..]);
      if OrValues(Keep, subs[0]).Some? && AllValues(Keep, subs[1..]).Some? {
        ScalarProducts(OrValues(Keep, subs[0]).value, AllValues(Keep, subs[1..]).value);
      }
    }
  }

  /** When no rune of the tree gets replaced, a span matches exactly when its text is in the returned list. */
  lemma OrValuesOfScalarTree(re: Regexp)
    requires WellFormed(re) && ScalarTree(re)
    ensures GetOrValues(re).Some? <==> Finite(re) && Number(re) <= MAX_OR_VALUES
    ensures GetOrValues(re).Some? ==> |GetOrValues(re).value| == Number(re) && ExactList(re, GetOrValues(re).value)
  {
    hide OrValues, ExactList, WellFormed, Finite, Number, ScalarTree;
    ListProduced(re);
    if GetOrValues(re).None? {
      return;
    }
    OrValuesExact(re);
    ScalarValues(re);
  }

  /** A class of one surrogate is listed as U+FFFD, which it does not match. */
  lemma SurrogateListedWrongly()
    ensures var re := NewRegexp(CharClass).(ranges := [Range(0xD800, 0xD800)]);
            WellFormed(re) && GetOrValues(re) == Some([[REPLACEMENT]]) && !ExactList(re, [[REPLACEMENT]])
  {
    var re := NewRegexp(CharClass).(ranges := [Range(0xD800, 0xD800)]);
    var rs := re.ranges;
    assert rs[1..] == [];
    assert RangeValues(Sanitize, 0xD801, 0xD800, [], [[REPLACEMENT]]) == Some([[REPLACEMENT]]);
    assert RangeValues(Sanitize, 0xD800, 0xD800, [], []) == Some([[REPLACEMENT]]) by {
      assert [] + [[Sanitize(0xD800)]] == [[REPLACEMENT]];
    }
    assert RangeValues(Sanitize, 0, -1, rs, []) == RangeValues(Sanitize, 0xD800, 0xD800, rs[1..], []);
    var text := [REPLACEMENT];
    var e := Env(map[], text);
    MembersOne(rs[0]);
    assert rs == [rs[0]];
    assert text[0..1] == text;
    assert Listed(e, [[REPLACEMENT]], (0, 1));
    assert (0, 1) !in Match(e, re);
  }
}
