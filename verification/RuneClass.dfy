/** Character classes as lists of rune ranges, and case folding of single runes. */
module RuneClass {

  const MAX_RUNE := 0x10FFFF
  const MIN_FOLD := 0x0041
  const MAX_FOLD := 0x1e943
  const MAX_FOLD_ORBIT := 8
  const NEWLINE := 10

  datatype Range = Range(lo: int, hi: int)

  ghost predicate InRange(r: seq<Range>, k: int, c: int) {
    0 <= k < |r| && r[k].lo <= c <= r[k].hi
  }

  ghost predicate InClass(r: seq<Range>, c: int) {
    exists k :: InRange(r, k, c)
  }

  ghost function Members(r: seq<Range>): iset<int> {
    iset c: int | InClass(r, c)
  }

  ghost predicate Between(lo: int, hi: int, c: int) {
    lo <= c <= hi
  }

  ghost function Interval(lo: int, hi: int): iset<int> {
    iset c: int | Between(lo, hi, c)
  }

  /** No range is backwards. */
  ghost predicate Proper(r: seq<Range>) {
    forall k :: 0 <= k < |r| ==> r[k].lo <= r[k].hi
  }

  /** Proper, ascending, and no two ranges touch. */
  ghost predicate Clean(r: seq<Range>) {
    Proper(r) && forall k, m :: 0 <= k < m < |r| ==> r[k].hi + 1 < r[m].lo
  }

  lemma MembersConcat(p: seq<Range>, q: seq<Range>)
    ensures Members(p + q) == Members(p) + Members(q)
  {
    forall c ensures InClass(p + q, c) <==> InClass(p, c) || InClass(q, c) {
      if InClass(p + q, c) {
        var k :| InRange(p + q, k, c);
        assert if k < |p| then InRange(p, k, c) else InRange(q, k - |p|, c);
      }
      if InClass(p, c) {
        var k :| InRange(p, k, c);
        assert InRange(p + q, k, c);
      }
      if InClass(q, c) {
        var k :| InRange(q, k, c);
        assert InRange(p + q, |p| + k, c);
      }
    }
  }

  lemma MembersOne(x: Range)
    ensures Members([x]) == Interval(x.lo, x.hi)
  {
    forall c ensures InClass([x], c) <==> x.lo <= c <= x.hi {
      assert x.lo <= c <= x.hi ==> InRange([x], 0, c);
    }
  }

  lemma MembersReplace(r: seq<Range>, k: nat, x: Range)
    requires k < |r|
    ensures Members(r[k := x]) == Members(r[..k]) + Interval(x.lo, x.hi) + Members(r[k + 1..])
    ensures Members(r) == Members(r[..k]) + Interval(r[k].lo, r[k].hi) + Members(r[k + 1..])
  {
    assert r[k := x] == r[..k] + [x] + r[k + 1..];
    assert r == r[..k] + [r[k]] + r[k + 1..];
    MembersConcat(r[..k] + [x], r[k + 1..]);
    MembersConcat(r[..k], [x]);
    MembersConcat(r[..k] + [r[k]], r[k + 1..]);
    MembersConcat(r[..k], [r[k]]);
    MembersOne(x);
    MembersOne(r[k]);
  }

  /** Ranges that overlap or abut join into one. */
  lemma JoinIntervals(a: Range, b: Range)
    requires a.lo <= a.hi && b.lo <= b.hi && a.lo <= b.hi + 1 && b.lo <= a.hi + 1
    ensures var j := Range(if a.lo < b.lo then a.lo else b.lo, if a.hi > b.hi then a.hi else b.hi);
            Interval(j.lo, j.hi) == Interval(a.lo, a.hi) + Interval(b.lo, b.hi)
  {
  }

  lemma Widen(r: seq<Range>, k: nat, lo: int, hi: int)
    requires Proper(r) && k < |r| && lo <= hi && lo <= r[k].hi + 1 && r[k].lo <= hi + 1
    ensures var j := Range(if lo < r[k].lo then lo else r[k].lo, if hi > r[k].hi then hi else r[k].hi);
            Proper(r[k := j]) && Members(r[k := j]) == Members(r) + Interval(lo, hi)
  {
    var j := Range(if lo < r[k].lo then lo else r[k].lo, if hi > r[k].hi then hi else r[k].hi);
    JoinIntervals(Range(lo, hi), r[k]);
    MembersReplace(r, k, j);
  }

  /** Adds a range, widening one of the last two ranges when it touches them. */
  method AppendRange(r: seq<Range>, lo: int, hi: int) returns (out: seq<Range>)
    requires Proper(r) && lo <= hi
    ensures Proper(out) && Members(out) == Members(r) + Interval(lo, hi)
  {
    for back := 1 to 3 {
      if |r| >= back {
        var k := |r| - back;
        if lo <= r[k].hi + 1 && r[k].lo <= hi + 1 {
          Widen(r, k, lo, hi);
          out := r[k := Range(if lo < r[k].lo then lo else r[k].lo, if hi > r[k].hi then hi else r[k].hi)];
          return;
        }
      }
    }
    MembersConcat(r, [Range(lo, hi)]);
    MembersOne(Range(lo, hi));
    out := r + [Range(lo, hi)];
  }

  lemma MembersTake(r: seq<Range>, k: nat)
    requires k < |r|
    ensures Members(r[..k + 1]) == Members(r[..k]) + Interval(r[k].lo, r[k].hi)
  {
    assert r[..k + 1] == r[..k] + [r[k]];
    MembersConcat(r[..k], [r[k]]);
    MembersOne(r[k]);
  }

  method AppendClass(r: seq<Range>, x: seq<Range>) returns (out: seq<Range>)
    requires Proper(r) && Proper(x)
    ensures Proper(out) && Members(out) == Members(r) + Members(x)
  {
    hide Members, Interval;
    out := r;
    MembersEmpty(x[..0]);
    UnionNothing(Members(r), Members(x[..0]));
    for k := 0 to |x|
      invariant Proper(out) && Members(out) == Members(r) + Members(x[..k])
    {
      MembersTake(x, k);
      UnionAssociative(Members(r), Members(x[..k]), Interval(x[k].lo, x[k].hi));
      out := AppendRange(out, x[k].lo, x[k].hi);
    }
    assert x[..|x|] == x;
  }

  lemma MembersEmpty(r: seq<Range>)
    requires r == []
    ensures Members(r) == iset{}
  {
  }

  lemma UnionNothing(s: iset<int>, t: iset<int>)
    requires t == iset{}
    ensures s + t == s
  {
  }

  lemma UnionAssociative(s: iset<int>, t: iset<int>, u: iset<int>)
    ensures s + t + u == s + (t + u)
  {
  }

  // ----- normal form

  /** The order by low end, wider ranges first. */
  predicate Before(x: Range, y: Range) {
    x.lo < y.lo || (x.lo == y.lo && x.hi >= y.hi)
  }

  function InsertRange(q: seq<Range>, x: Range): (r: seq<Range>)
    ensures multiset(r) == multiset(q) + multiset{x}
  {
    if q == [] then [x]
    else if Before(x, q[0]) then [x] + q
    else
      assert q == [q[0]] + q[1..];
      [q[0]] + InsertRange(q[1..], x)
  }

  function SortRanges(q: seq<Range>): (r: seq<Range>)
    ensures multiset(r) == multiset(q)
  {
    if q == [] then []
    else
      assert q == [q[0]] + q[1..];
      InsertRange(SortRanges(q[1..]), q[0])
  }

  ghost predicate SortedLow(q: seq<Range>) {
    forall i, j :: 0 <= i < j < |q| ==> q[i].lo <= q[j].lo
  }

  lemma InsertMember(q: seq<Range>, x: Range, v: Range)
    ensures v in InsertRange(q, x) <==> v == x || v in q
  {
    assert v in InsertRange(q, x) <==> v in multiset(InsertRange(q, x));
    assert v in q <==> v in multiset(q);
  }

  lemma {:induction false} InsertSorted(q: seq<Range>, x: Range)
    requires SortedLow(q)
    ensures SortedLow(InsertRange(q, x))
  {
    if q != [] && !Before(x, q[0]) {
      InsertSorted(q[1..], x);
      var r := InsertRange(q[1..], x);
      forall k | 0 <= k < |r| ensures q[0].lo <= r[k].lo {
        InsertMember(q[1..], x, r[k]);
      }
    }
  }

  lemma {:induction false} SortSorts(q: seq<Range>)
    ensures SortedLow(SortRanges(q))
  {
    if q != [] {
      SortSorts(q[1..]);
      InsertSorted(SortRanges(q[1..]), q[0]);
    }
  }

  lemma SameRanges(p: seq<Range>, q: seq<Range>)
    requires multiset(p) == multiset(q)
    ensures Members(p) == Members(q) && (Proper(p) ==> Proper(q))
  {
    RangesIncluded(p, q);
    RangesIncluded(q, p);
    if Proper(p) {
      forall k | 0 <= k < |q| ensures q[k].lo <= q[k].hi {
        assert q[k] in multiset(q);
        assert q[k] in p;
      }
    }
  }

  lemma RangesIncluded(p: seq<Range>, q: seq<Range>)
    requires multiset(p) == multiset(q)
    ensures Members(p) <= Members(q)
  {
    forall c | InClass(p, c) ensures InClass(q, c) {
      var k :| InRange(p, k, c);
      assert p[k] in multiset(p);
      assert p[k] in q;
      var m :| 0 <= m < |q| && q[m] == p[k];
      assert InRange(q, m, c);
    }
  }

  /** What the merging loop keeps: a clean prefix `r[..w]` and the unread ranges `q[i..]`. */
  ghost predicate MergeState(q: seq<Range>, r: seq<Range>, w: nat, i: nat) {
    && 1 <= w <= i <= |q| == |r| && Proper(q) && SortedLow(q)
    && r[i..] == q[i..] && Clean(r[..w])
    && (forall m :: i <= m < |q| ==> r[w - 1].lo <= q[m].lo)
    && Members(r[..w]) + Members(q[i..]) == Members(q)
  }

  lemma MergeStart(q: seq<Range>)
    requires Proper(q) && SortedLow(q) && |q| >= 1
    ensures MergeState(q, q, 1, 1)
  {
    assert q == q[..1] + q[1..];
    MembersConcat(q[..1], q[1..]);
  }

  lemma MergeShift(q: seq<Range>, r: seq<Range>, r2: seq<Range>, w: nat, v: nat, i: nat)
    requires 1 <= w <= i < |q| == |r| == |r2| && 1 <= v <= i + 1
    requires Members(r[..w]) + Members(q[i..]) == Members(q)
    requires Members(r2[..v]) == Members(r[..w]) + Interval(q[i].lo, q[i].hi)
    ensures Members(r2[..v]) + Members(q[i + 1..]) == Members(q)
  {
    assert q[i..] == [q[i]] + q[i + 1..];
    MembersConcat([q[i]], q[i + 1..]);
    MembersOne(q[i]);
    hide Members, Interval;
    UnionAssociative(Members(r[..w]), Interval(q[i].lo, q[i].hi), Members(q[i + 1..]));
  }

  lemma MergeJoin(q: seq<Range>, r: seq<Range>, w: nat, i: nat)
    requires MergeState(q, r, w, i) && i < |q| && q[i].lo <= r[w - 1].hi + 1
    ensures var hi := if q[i].hi > r[w - 1].hi then q[i].hi else r[w - 1].hi;
            MergeState(q, r[w - 1 := Range(r[w - 1].lo, hi)], w, i + 1)
  {
    var hi := if q[i].hi > r[w - 1].hi then q[i].hi else r[w - 1].hi;
    var last := Range(r[w - 1].lo, hi);
    var r2 := r[w - 1 := last];
    assert r2[..w] == r[..w][w - 1 := last];
    assert r[..w][w - 1] == r[w - 1];
    Widen(r[..w], w - 1, q[i].lo, q[i].hi);
    hide Members, Interval;
    MergeShift(q, r, r2, w, w, i);
    assert r2[i + 1..] == q[i + 1..] by {
      assert r2[i + 1..] == r[i..][1..];
      assert q[i + 1..] == q[i..][1..];
    }
    assert forall k, m :: 0 <= k < m < w ==> r[..w][k].hi + 1 < r[..w][m].lo;
  }

  lemma MergeKeep(q: seq<Range>, r: seq<Range>, w: nat, i: nat)
    requires MergeState(q, r, w, i) && i < |q| && r[w - 1].hi + 1 < q[i].lo
    ensures MergeState(q, r[w := q[i]], w + 1, i + 1)
  {
    var r2 := r[w := q[i]];
    assert r2[..w + 1] == r[..w] + [q[i]];
    MembersConcat(r[..w], [q[i]]);
    MembersOne(q[i]);
    hide Members, Interval;
    MergeShift(q, r, r2, w, w + 1, i);
    assert r2[i + 1..] == q[i + 1..] by {
      assert r2[i + 1..] == r[i..][1..];
      assert q[i + 1..] == q[i..][1..];
    }
    forall k | 0 <= k < w ensures r[k].hi + 1 < q[i].lo {
      assert k < w - 1 ==> r[..w][k].hi + 1 < r[..w][w - 1].lo <= r[..w][w - 1].hi;
    }
  }

  /** One step: the range at `i` either extends the last merged range or starts a new one. */
  method MergeOne(ghost q: seq<Range>, r: seq<Range>, w: nat, i: nat) returns (out: seq<Range>, v: nat)
    requires 1 <= w <= i < |q| == |r| && MergeState(q, r, w, i)
    ensures 1 <= v <= i + 1 && |out| == |q| && MergeState(q, out, v, i + 1)
  {
    MergeNext(q, r, w, i);
    hide MergeState;
    out, v := r, w;
    if r[i].lo <= r[w - 1].hi + 1 {
      MergeJoin(q, r, w, i);
      SameUpdate(r, w - 1);
      if r[i].hi > r[w - 1].hi {
        out := r[w - 1 := Range(r[w - 1].lo, r[i].hi)];
      }
    } else {
      MergeKeep(q, r, w, i);
      out, v := r[w := r[i]], w + 1;
    }
  }

  /** Merges sorted ranges in place: the result is the prefix of length `w`. */
  method MergeRanges(q: seq<Range>) returns (r: seq<Range>, w: nat)
    requires Proper(q) && SortedLow(q) && |q| >= 2
    ensures w <= |r| && MergeState(q, r, w, |q|)
  {
    MergeStart(q);
    hide MergeState;
    r, w := q, 1;
    var i := 1;
    while i < |q|
      invariant 1 <= w <= i <= |q| == |r| && MergeState(q, r, w, i)
    {
      r, w := MergeOne(q, r, w, i);
      i := i + 1;
    }
  }

  lemma SameUpdate(r: seq<Range>, k: nat)
    requires k < |r|
    ensures r[k := Range(r[k].lo, r[k].hi)] == r
  {
  }

  /** Sorts the ranges and merges those that overlap or abut. */
  method CleanClass(ranges: seq<Range>) returns (out: seq<Range>)
    requires Proper(ranges)
    ensures Clean(out) && Members(out) == Members(ranges)
  {
    var q := SortRanges(ranges);
    SortSorts(ranges);
    SameRanges(ranges, q);
    hide Members;
    if |q| < 2 {
      return q;
    }
    var r, w := MergeRanges(q);
    MergeEnd(q, r, w);
    out := r[..w];
  }

  lemma MergeNext(q: seq<Range>, r: seq<Range>, w: nat, i: nat)
    requires MergeState(q, r, w, i) && i < |q|
    ensures r[i] == q[i]
  {
    assert r[i..][0] == q[i..][0];
  }

  lemma MergeEnd(q: seq<Range>, r: seq<Range>, w: nat)
    requires MergeState(q, r, w, |q|)
    ensures Clean(r[..w]) && Members(r[..w]) == Members(q)
  {
    MembersEmpty(q[|q|..]);
    hide Members;
    UnionNothing(Members(r[..w]), Members(q[|q|..]));
  }

  lemma FirstMember(p: seq<Range>)
    requires Clean(p) && p != []
    ensures InClass(p, p[0].lo) && forall c :: InClass(p, c) ==> p[0].lo <= c
    ensures forall c :: p[0].lo <= c <= p[0].hi ==> InClass(p, c)
    ensures !InClass(p, p[0].hi + 1)
  {
    forall c | p[0].lo <= c <= p[0].hi ensures InClass(p, c) {
      assert InRange(p, 0, c);
    }
    forall c | InClass(p, c) ensures p[0].lo <= c {
      var k :| InRange(p, k, c);
    }
  }

  lemma TailMembers(p: seq<Range>, c: int)
    requires Clean(p) && p != []
    ensures InClass(p[1..], c) <==> InClass(p, c) && p[0].hi < c
  {
    if InClass(p[1..], c) {
      var k :| InRange(p[1..], k, c);
      assert InRange(p, k + 1, c);
    }
    if InClass(p, c) && p[0].hi < c {
      var k :| InRange(p, k, c);
      assert InRange(p[1..], k - 1, c);
    }
  }

  /** A set of runes has one clean list of ranges: equal sets give equal vectors. */
  lemma {:induction false} CleanUnique(p: seq<Range>, q: seq<Range>)
    requires Clean(p) && Clean(q) && forall c :: InClass(p, c) <==> InClass(q, c)
    ensures p == q
  {
    if p == [] {
      if q != [] {
        FirstMember(q);
      }
    } else if q == [] {
      FirstMember(p);
    } else {
      FirstMember(p);
      FirstMember(q);
      assert p[0].lo == q[0].lo;
      assert p[0].hi == q[0].hi;
      forall c ensures InClass(p[1..], c) <==> InClass(q[1..], c) {
        TailMembers(p, c);
        TailMembers(q, c);
      }
      CleanUnique(p[1..], q[1..]);
    }
  }

  // ----- complement

  ghost predicate WithinRunes(r: seq<Range>) {
    forall k :: 0 <= k < |r| ==> 0 <= r[k].lo && r[k].hi <= MAX_RUNE
  }

  ghost predicate IsComplement(r: seq<Range>, out: seq<Range>) {
    Clean(out) && WithinRunes(out) && forall c :: 0 <= c <= MAX_RUNE ==> (InClass(out, c) <==> !InClass(r, c))
  }

  /** `out` complements the first `k` ranges of `r` below `nextLo`. */
  ghost predicate NegateState(r: seq<Range>, k: nat, out: seq<Range>, nextLo: int) {
    && k <= |r| && 0 <= nextLo <= MAX_RUNE + 1
    && nextLo == (if k == 0 then 0 else r[k - 1].hi + 1)
    && Clean(out) && WithinRunes(out)
    && (forall m :: 0 <= m < |out| ==> out[m].hi + 1 < nextLo)
    && (forall c :: 0 <= c < nextLo ==> (InClass(out, c) <==> !InClass(r, c)))
  }

  lemma PushComplement(out: seq<Range>, x: Range, c: int)
    ensures InClass(out + [x], c) <==> InClass(out, c) || x.lo <= c <= x.hi
  {
    MembersConcat(out, [x]);
    MembersOne(x);
    assert c in Members(out + [x]) <==> c in Members(out) + Interval(x.lo, x.hi);
  }

  lemma GapOrRange(r: seq<Range>, k: nat, nextLo: int, c: int)
    requires Clean(r) && k < |r| && nextLo == (if k == 0 then 0 else r[k - 1].hi + 1)
    requires nextLo <= c <= r[k].hi
    ensures InClass(r, c) <==> r[k].lo <= c
  {
    if r[k].lo <= c {
      assert InRange(r, k, c);
    }
    if InClass(r, c) {
      var m :| InRange(r, m, c);
    }
  }

  lemma NegateStep(r: seq<Range>, k: nat, out: seq<Range>, nextLo: int, out2: seq<Range>)
    requires Clean(r) && WithinRunes(r) && k < |r| && NegateState(r, k, out, nextLo)
    requires out2 == if nextLo < r[k].lo then out + [Range(nextLo, r[k].lo - 1)] else out
    ensures NegateState(r, k + 1, out2, r[k].hi + 1)
  {
    forall c | 0 <= c < r[k].hi + 1 ensures InClass(out2, c) <==> !InClass(r, c) {
      PushComplement(out, Range(nextLo, r[k].lo - 1), c);
      if nextLo <= c {
        GapOrRange(r, k, nextLo, c);
        assert !InClass(out, c);
      }
    }
  }

  lemma NegateLast(r: seq<Range>, out: seq<Range>, nextLo: int, out2: seq<Range>)
    requires Clean(r) && WithinRunes(r) && NegateState(r, |r|, out, nextLo)
    requires out2 == if nextLo <= MAX_RUNE then out + [Range(nextLo, MAX_RUNE)] else out
    ensures IsComplement(r, out2)
  {
    forall c | 0 <= c <= MAX_RUNE ensures InClass(out2, c) <==> !InClass(r, c) {
      PushComplement(out, Range(nextLo, MAX_RUNE), c);
      if InClass(r, c) {
        var m :| InRange(r, m, c);
        assert r[m].hi <= r[|r| - 1].hi;
      }
    }
  }

  /** The complement of a clean class within the runes, itself clean. */
  method NegateClass(r: seq<Range>) returns (out: seq<Range>)
    requires Clean(r) && WithinRunes(r)
    ensures IsComplement(r, out)
  {
    out := [];
    var nextLo := 0;
    for k := 0 to |r|
      invariant NegateState(r, k, out, nextLo)
    {
      ghost var before := out;
      var lo, hi := r[k].lo, r[k].hi;
      ghost var next := nextLo;
      if nextLo < lo {
        out := out + [Range(nextLo, lo - 1)];
      }
      nextLo := hi + 1;
      NegateStep(r, k, before, next, out);
    }
    NegateLast(r, out, nextLo, if nextLo <= MAX_RUNE then out + [Range(nextLo, MAX_RUNE)] else out);
    if nextLo <= MAX_RUNE {
      out := out + [Range(nextLo, MAX_RUNE)];
    }
  }

  /** Negating twice gives the class back. */
  lemma ComplementInvolution(r: seq<Range>, a: seq<Range>, b: seq<Range>)
    requires Clean(r) && WithinRunes(r) && IsComplement(r, a) && IsComplement(a, b)
    ensures b == r
  {
    forall c ensures InClass(b, c) <==> InClass(r, c) {
      if InClass(b, c) {
        var k :| InRange(b, k, c);
      }
      if InClass(r, c) {
        var k :| InRange(r, k, c);
      }
    }
    CleanUnique(b, r);
  }

  // ----- case folding

  /** The next rune of each folding orbit; runes outside the table fold to themselves. */
  type FoldTable = map<int, int>

  function SimpleFold(fold: FoldTable, r: int): int {
    if r in fold then fold[r] else r
  }

  /** The runes a bounded walk from `f` meets before returning to `r`. */
  ghost function FoldWalk(fold: FoldTable, r: int, f: int, steps: nat): iset<int>
    requires steps <= MAX_FOLD_ORBIT
    decreases MAX_FOLD_ORBIT - steps
  {
    if f == r || steps == MAX_FOLD_ORBIT then iset{}
    else iset{f} + FoldWalk(fold, r, SimpleFold(fold, f), steps + 1)
  }

  /** The runes that match `r` without regard to case. */
  ghost function Folded(fold: FoldTable, r: int): iset<int> {
    if MIN_FOLD <= r <= MAX_FOLD then iset{r} + FoldWalk(fold, r, SimpleFold(fold, r), 0) else iset{r}
  }

  /** Newline has no case variant. */
  ghost predicate NewlineAlone(fold: FoldTable) {
    forall r :: r in fold && r != NEWLINE ==> fold[r] != NEWLINE
  }

  lemma {:induction false} WalkAvoidsNewline(fold: FoldTable, r: int, f: int, steps: nat)
    requires NewlineAlone(fold) && f != NEWLINE && steps <= MAX_FOLD_ORBIT
    ensures NEWLINE !in FoldWalk(fold, r, f, steps)
    decreases MAX_FOLD_ORBIT - steps
  {
    if f != r && steps < MAX_FOLD_ORBIT {
      WalkAvoidsNewline(fold, r, SimpleFold(fold, f), steps + 1);
    }
  }

  lemma FoldedNewline(fold: FoldTable, r: int)
    requires NewlineAlone(fold)
    ensures NEWLINE in Folded(fold, r) <==> r == NEWLINE
  {
    if MIN_FOLD <= r <= MAX_FOLD {
      WalkAvoidsNewline(fold, r, SimpleFold(fold, r), 0);
    }
  }

  lemma PointInterval(c: int)
    ensures Interval(c, c) == iset{c}
  {
  }

  lemma WalkStart(fold: FoldTable, m: iset<int>, x: int)
    requires MIN_FOLD <= x <= MAX_FOLD
    ensures m + Folded(fold, x) == m + iset{x} + FoldWalk(fold, x, SimpleFold(fold, x), 0)
  {
    hide FoldWalk;
    UnionAssociative(m, iset{x}, FoldWalk(fold, x, SimpleFold(fold, x), 0));
  }

  lemma WalkStep(fold: FoldTable, m: iset<int>, x: int, f: int, steps: nat)
    requires f != x && steps < MAX_FOLD_ORBIT
    ensures m + FoldWalk(fold, x, f, steps) == m + iset{f} + FoldWalk(fold, x, SimpleFold(fold, f), steps + 1)
  {
    UnionAssociative(m, iset{f}, FoldWalk(fold, x, SimpleFold(fold, f), steps + 1));
  }

  lemma WalkEnd(fold: FoldTable, m: iset<int>, x: int, f: int, steps: nat)
    requires steps <= MAX_FOLD_ORBIT && (f == x || steps == MAX_FOLD_ORBIT)
    ensures m + FoldWalk(fold, x, f, steps) == m
  {
    UnionNothing(m, FoldWalk(fold, x, f, steps));
  }

  /** Adds a rune and the rest of its folding orbit. */
  method AppendFoldedRune(fold: FoldTable, r: seq<Range>, x: int) returns (out: seq<Range>)
    requires Proper(r)
    ensures Proper(out) && Members(out) == Members(r) + Folded(fold, x)
  {
    hide Members, Interval, FoldWalk, SimpleFold;
    out := AppendRange(r, x, x);
    PointInterval(x);
    if x < MIN_FOLD || x > MAX_FOLD {
      return;
    }
    hide Folded;
    var f, steps := SimpleFold(fold, x), 0;
    WalkStart(fold, Members(r), x);
    ghost var whole := Members(r) + Folded(fold, x);
    while f != x && steps < MAX_FOLD_ORBIT
      invariant steps <= MAX_FOLD_ORBIT && Proper(out)
      invariant whole == Members(out) + FoldWalk(fold, x, f, steps)
      decreases MAX_FOLD_ORBIT - steps
    {
      PointInterval(f);
      WalkStep(fold, Members(out), x, f, steps);
      out := AppendRange(out, f, f);
      f := SimpleFold(fold, f);
      steps := steps + 1;
    }
    WalkEnd(fold, Members(out), x, f, steps);
  }

  /** The runes that match some rune from `lo` to `hi` without regard to case. */
  ghost function FoldedRange(fold: FoldTable, lo: int, hi: int): iset<int> {
    iset c, x | lo <= x <= hi && c in Folded(fold, x) :: c
  }

  /** Orbits that start between the least and the greatest folding rune stay there. */
  ghost predicate FoldWithin(fold: FoldTable) {
    forall x :: x in fold && MIN_FOLD <= x <= MAX_FOLD ==> MIN_FOLD <= fold[x] <= MAX_FOLD
  }

  lemma FoldedMember(fold: FoldTable, lo: int, hi: int, c: int)
    ensures c in FoldedRange(fold, lo, hi) <==> exists x :: lo <= x <= hi && c in Folded(fold, x)
  {
  }

  lemma FoldedSplit(fold: FoldTable, lo: int, m: int, hi: int)
    requires lo <= m + 1 <= hi + 1
    ensures FoldedRange(fold, lo, hi) == FoldedRange(fold, lo, m) + FoldedRange(fold, m + 1, hi)
  {
    hide Folded;
  }

  lemma FoldedOne(fold: FoldTable, x: int)
    ensures FoldedRange(fold, x, x) == Folded(fold, x)
  {
    hide Folded;
    forall c ensures c in FoldedRange(fold, x, x) <==> c in Folded(fold, x) {
      FoldedMember(fold, x, x, c);
      assert x <= x <= x;
    }
  }

  /** Runes outside the folding ones stand for themselves. */
  lemma FoldedPlain(fold: FoldTable, lo: int, hi: int)
    requires hi < MIN_FOLD || lo > MAX_FOLD
    ensures FoldedRange(fold, lo, hi) == Interval(lo, hi)
  {
    hide FoldWalk;
    forall c ensures c in FoldedRange(fold, lo, hi) <==> c in Interval(lo, hi) {
      FoldedMember(fold, lo, hi, c);
      if lo <= c <= hi {
        assert c in Folded(fold, c);
      }
    }
  }

  lemma {:induction false} WalkWithin(fold: FoldTable, r: int, f: int, steps: nat)
    requires FoldWithin(fold) && MIN_FOLD <= f <= MAX_FOLD && steps <= MAX_FOLD_ORBIT
    ensures forall c :: c in FoldWalk(fold, r, f, steps) ==> MIN_FOLD <= c <= MAX_FOLD
    decreases MAX_FOLD_ORBIT - steps
  {
    if f != r && steps < MAX_FOLD_ORBIT {
      WalkWithin(fold, r, SimpleFold(fold, f), steps + 1);
    }
  }

  /** A range that holds all folding runes is closed under folding. */
  lemma FoldedWhole(fold: FoldTable, lo: int, hi: int)
    requires FoldWithin(fold) && lo <= MIN_FOLD && hi >= MAX_FOLD
    ensures FoldedRange(fold, lo, hi) == Interval(lo, hi)
  {
    forall c ensures c in FoldedRange(fold, lo, hi) <==> c in Interval(lo, hi) {
      FoldedMember(fold, lo, hi, c);
      if c in FoldedRange(fold, lo, hi) {
        var x :| lo <= x <= hi && c in Folded(fold, x);
        if MIN_FOLD <= x <= MAX_FOLD {
          WalkWithin(fold, x, SimpleFold(fold, x), 0);
        }
      }
      if lo <= c <= hi {
        assert c in Folded(fold, c);
      }
    }
  }

  /** Adds a range and the folding orbits of its runes; a range with all folding runes is added as it is. */
  method AppendFoldedRange(fold: FoldTable, r: seq<Range>, lo0: int, hi0: int) returns (out: seq<Range>)
    requires Proper(r) && lo0 <= hi0
    ensures Proper(out)
    ensures lo0 <= MIN_FOLD && hi0 >= MAX_FOLD ==> Members(out) == Members(r) + Interval(lo0, hi0)
    ensures lo0 > MIN_FOLD || hi0 < MAX_FOLD || FoldWithin(fold) ==> Members(out) == Members(r) + FoldedRange(fold, lo0, hi0)
  {
    hide Members, Interval, FoldedRange, Folded, FoldWithin;
    var lo, hi := lo0, hi0;
    if lo <= MIN_FOLD && hi >= MAX_FOLD {
      out := AppendRange(r, lo, hi);
      if FoldWithin(fold) {
        FoldedWhole(fold, lo, hi);
      }
      return;
    }
    if hi < MIN_FOLD || lo > MAX_FOLD {
      out := AppendRange(r, lo, hi);
      FoldedPlain(fold, lo, hi);
      return;
    }
    out := r;
    ghost var all := Members(r) + FoldedRange(fold, lo, hi);
    if lo < MIN_FOLD {
      FoldedSplit(fold, lo, MIN_FOLD - 1, hi);
      FoldedPlain(fold, lo, MIN_FOLD - 1);
      UnionAssociative(Members(r), Interval(lo, MIN_FOLD - 1), FoldedRange(fold, MIN_FOLD, hi));
      out := AppendRange(out, lo, MIN_FOLD - 1);
      lo := MIN_FOLD;
    }
    assert all == Members(out) + FoldedRange(fold, lo, hi);
    if hi > MAX_FOLD {
      FoldedSplit(fold, lo, MAX_FOLD, hi);
      FoldedPlain(fold, MAX_FOLD + 1, hi);
      UnionSwapped(Members(out), FoldedRange(fold, lo, MAX_FOLD), Interval(MAX_FOLD + 1, hi));
      out := AppendRange(out, MAX_FOLD + 1, hi);
      hi := MAX_FOLD;
    }
    out := AppendFoldedRunes(fold, out, lo, hi);
  }

  lemma UnionSwapped(s: iset<int>, t: iset<int>, u: iset<int>)
    ensures s + (t + u) == s + u + t
  {
  }

  method AppendFoldedRunes(fold: FoldTable, r: seq<Range>, lo: int, hi: int) returns (out: seq<Range>)
    requires Proper(r) && MIN_FOLD <= lo <= hi <= MAX_FOLD
    ensures Proper(out) && Members(out) == Members(r) + FoldedRange(fold, lo, hi)
  {
    hide Members, FoldedRange, Folded;
    out := r;
    ghost var all := Members(r) + FoldedRange(fold, lo, hi);
    var c := lo;
    while c <= hi
      invariant lo <= c <= hi + 1 && Proper(out) && all == Members(out) + FoldedRange(fold, c, hi)
    {
      FoldedSplit(fold, c, c, hi);
      FoldedOne(fold, c);
      UnionAssociative(Members(out), Folded(fold, c), FoldedRange(fold, c + 1, hi));
      out := AppendFoldedRune(fold, out, c);
      c := c + 1;
    }
    NothingFolded(fold, c, hi);
    UnionNothing(Members(out), FoldedRange(fold, c, hi));
  }

  lemma NothingFolded(fold: FoldTable, lo: int, hi: int)
    requires lo > hi
    ensures FoldedRange(fold, lo, hi) == iset{}
  {
  }
}
