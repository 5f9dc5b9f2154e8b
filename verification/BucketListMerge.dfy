/** Two-cursor merges of sorted bucket lists whose keys may repeat. */
module BucketListMerge {
  import opened Listing
  import opened Slots
  import opened BucketList
  import B32 = Bucket32Level
  import Merge = Bucket32Merge

  /** An operand of a merge: sorted, valid, and with items only in first buckets. */
  ghost predicate Operand(bs: seq<Bucket>) {
    AllValid(bs) && FirstHolds(bs) && SortedByHi(bs)
  }

  // ----- union

  /** What the union loop keeps. A key met again on the `a` side can only carry an empty bucket. */
  ghost predicate UnionState(s: seq<Bucket>, a: seq<Bucket>, bs: seq<Bucket>, i: nat, j: nat)
    requires Operand(s) && Operand(a)
  {
    && i <= |s| <= |bs| && j <= |a| && AllValid(bs) && FirstHolds(bs)
    && (forall k :: 0 <= k < |s| ==> bs[k].hi == s[k].hi)
    && (forall k, m :: (0 <= k < i || |s| <= k < |bs|) && j <= m < |a| ==> bs[k].hi < a[m].hi || Empty(a[m]))
    && ListItems(bs) == ListItems(s) + ListItems(a[..j])
  }

  lemma UnionStart(s: seq<Bucket>, a: seq<Bucket>)
    requires Operand(s) && Operand(a)
    ensures UnionState(s, a, s, 0, 0)
  {
    EmptyList(a[..0]);
    assert ListItems(s) + {} == ListItems(s);
  }

  lemma UnionSkip(s: seq<Bucket>, a: seq<Bucket>, bs: seq<Bucket>, i: nat, j: nat)
    requires Operand(s) && Operand(a) && UnionState(s, a, bs, i, j)
    requires i < |s| && j < |a| && bs[i].hi < a[j].hi
    ensures UnionState(s, a, bs, i + 1, j)
  {
    hide B32.Valid, B32.Items, ListItems;
    forall m | j <= m < |a| ensures bs[i].hi < a[m].hi {
      assert a[j].hi <= a[m].hi;
    }
  }

  lemma PushFirstHolds(s: seq<Bucket>, a: seq<Bucket>, bs: seq<Bucket>, i: nat, j: nat)
    requires Operand(s) && Operand(a) && UnionState(s, a, bs, i, j)
    requires j < |a| && (i < |s| ==> a[j].hi < bs[i].hi)
    ensures AllValid(bs + [a[j]]) && FirstHolds(bs + [a[j]])
  {
    hide B32.Valid, B32.Items, ListItems;
    forall k | i <= k < |s| ensures a[j].hi < bs[k].hi {
      assert s[i].hi <= s[k].hi;
    }
  }

  lemma UnionPush(s: seq<Bucket>, a: seq<Bucket>, bs: seq<Bucket>, i: nat, j: nat)
    requires Operand(s) && Operand(a) && UnionState(s, a, bs, i, j)
    requires j < |a| && (i < |s| ==> a[j].hi < bs[i].hi)
    ensures UnionState(s, a, bs + [a[j]], i, j + 1)
  {
    hide B32.Valid, B32.Items, ListItems;
    var r := bs + [a[j]];
    PushFirstHolds(s, a, bs, i, j);
    ListPush(bs, a[j]);
    ListTake(a, j);
    UnionAssociative(ListItems(s), ListItems(a[..j]), Shift(U32_SIZE * a[j].hi, B32.Items(a[j])));
    forall k, m | (0 <= k < i || |s| <= k < |r|) && j + 1 <= m < |a| ensures r[k].hi < a[m].hi || Empty(a[m]) {
      assert a[j].hi <= a[m].hi;
      assert k == |bs| || r[k] == bs[k];
    }
  }

  lemma MatchFirstHolds(s: seq<Bucket>, a: seq<Bucket>, bs: seq<Bucket>, i: nat, j: nat, v: Bucket)
    requires Operand(s) && Operand(a) && UnionState(s, a, bs, i, j)
    requires i < |s| && j < |a| && bs[i].hi == a[j].hi == v.hi
    requires B32.Valid(v) && B32.Items(v) == B32.Items(bs[i]) + B32.Items(a[j])
    ensures AllValid(bs[i := v]) && FirstHolds(bs[i := v])
  {
    hide B32.Valid, B32.Items, ListItems;
    forall k | 0 <= k < i && bs[k].hi == v.hi ensures Empty(v) {
      assert Empty(bs[i]) && Empty(a[j]);
    }
  }

  lemma UnionMatch(s: seq<Bucket>, a: seq<Bucket>, bs: seq<Bucket>, i: nat, j: nat, v: Bucket)
    requires Operand(s) && Operand(a) && UnionState(s, a, bs, i, j)
    requires i < |s| && j < |a| && bs[i].hi == a[j].hi == v.hi
    requires B32.Valid(v) && B32.Items(v) == B32.Items(bs[i]) + B32.Items(a[j])
    ensures UnionState(s, a, bs[i := v], i + 1, j + 1)
  {
    hide B32.Valid, B32.Items, ListItems;
    MatchFirstHolds(s, a, bs, i, j, v);
    ListGrow(bs, i, v, B32.Items(a[j]));
    ListTake(a, j);
    UnionAssociative(ListItems(s), ListItems(a[..j]), Shift(U32_SIZE * a[j].hi, B32.Items(a[j])));
    forall m | j + 1 <= m < |a| ensures v.hi < a[m].hi || Empty(a[m]) {
      assert a[j].hi <= a[m].hi;
    }
  }

  method SkipSmaller(ghost s: seq<Bucket>, a: seq<Bucket>, bs: seq<Bucket>, n: nat, i0: nat, j: nat) returns (i: nat)
    requires Operand(s) && Operand(a) && n == |s| <= |bs| && i0 <= n && UnionState(s, a, bs, i0, j)
    ensures i0 <= i <= n && UnionState(s, a, bs, i, j)
    ensures i < n && j < |a| ==> a[j].hi <= bs[i].hi
  {
    hide UnionState, Operand;
    i := i0;
    while i < n && j < |a| && bs[i].hi < a[j].hi
      invariant i0 <= i <= n && UnionState(s, a, bs, i, j)
    {
      UnionSkip(s, a, bs, i, j);
      i := i + 1;
    }
  }

  method PushSmaller(ghost s: seq<Bucket>, a: seq<Bucket>, bs0: seq<Bucket>, n: nat, i: nat, j0: nat)
    returns (bs: seq<Bucket>, j: nat)
    requires Operand(s) && Operand(a) && n == |s| <= |bs0| && j0 <= |a| && UnionState(s, a, bs0, i, j0)
    ensures j0 <= j <= |a| && UnionState(s, a, bs, i, j) && |bs0| <= |bs|
    ensures j < |a| ==> i < n && bs[i].hi <= a[j].hi && bs[i] == bs0[i]
  {
    hide UnionState, Operand;
    bs, j := bs0, j0;
    while j < |a| && (i >= n || a[j].hi < bs[i].hi)
      invariant j0 <= j <= |a| && UnionState(s, a, bs, i, j) && bs0 <= bs
    {
      UnionPush(s, a, bs, i, j);
      bs, j := bs + [a[j]], j + 1;
    }
  }

  method UnionStep(ghost s: seq<Bucket>, a: seq<Bucket>, bs: seq<Bucket>, i: nat, j: nat) returns (r: seq<Bucket>)
    requires Operand(s) && Operand(a) && UnionState(s, a, bs, i, j)
    requires i < |s| && j < |a| && bs[i].hi == a[j].hi
    ensures UnionState(s, a, r, i + 1, j + 1) && |r| == |bs|
  {
    hide B32.Valid, B32.Items, ListItems;
    var v := Merge.Union(bs[i], a[j]);
    UnionMatch(s, a, bs, i, j, v);
    r := bs[i := v];
  }

  method MergeUnion(s: seq<Bucket>, a: seq<Bucket>) returns (bs: seq<Bucket>, ghost i: nat)
    requires Operand(s) && Operand(a)
    ensures UnionState(s, a, bs, i, |a|)
  {
    hide UnionState, Operand;
    bs := s;
    var p, j, n := 0, 0, |s|;
    UnionStart(s, a);
    while true
      invariant p <= n <= |bs| && j <= |a| && UnionState(s, a, bs, p, j)
      decreases n - p + |a| - j
    {
      p := SkipSmaller(s, a, bs, n, p, j);
      bs, j := PushSmaller(s, a, bs, n, p, j);
      if j >= |a| {
        break;
      }
      if bs[p].hi == a[j].hi {
        bs := UnionStep(s, a, bs, p, j);
        p, j := p + 1, j + 1;
      }
    }
    i := p;
  }

  /** The union of two sorted lists, again with items only in first buckets. */
  method Union(s: seq<Bucket>, a: seq<Bucket>) returns (bs: seq<Bucket>)
    requires Operand(s) && Operand(a)
    ensures AllValid(bs) && FirstHolds(bs) && ListItems(bs) == ListItems(s) + ListItems(a)
  {
    hide B32.Valid, B32.Items, ListItems;
    ghost var i;
    bs, i := MergeUnion(s, a);
    assert a[..|a|] == a;
  }

  // ----- intersection

  /** Bucket `k` is that of `s` restricted to `a`, either in place or as the default bucket. */
  ghost predicate Restricted(s: seq<Bucket>, a: seq<Bucket>, bs: seq<Bucket>, k: nat)
    requires AllValid(s) && AllValid(a) && AllValid(bs) && k < |s| && k < |bs|
  {
    && (bs[k].hi == s[k].hi || (bs[k].hi == 0 && Empty(bs[k])))
    && forall l :: l in B32.Items(bs[k]) <==> l in B32.Items(s[k]) && InList(a, s[k].hi, l)
  }

  ghost predicate IntersectState(s: seq<Bucket>, a: seq<Bucket>, bs: seq<Bucket>, i: nat, j: nat)
    requires Operand(s) && Operand(a)
  {
    && i <= |s| == |bs| && j <= |a| && AllValid(bs)
    && (forall k :: 0 <= k < i ==> Restricted(s, a, bs, k))
    && (forall k :: i <= k < |s| ==> bs[k] == s[k])
    && (forall m, k :: 0 <= m < j && i <= k < |s| ==> a[m].hi < s[k].hi || Empty(s[k]))
  }

  lemma EmptyDefault()
    ensures B32.Valid(B32.EMPTY_BUCKET) && Empty(B32.EMPTY_BUCKET)
  {
    B32.EmptySlots([], []);
  }

  lemma RestrictedElsewhere(s: seq<Bucket>, a: seq<Bucket>, bs: seq<Bucket>, i: nat, r: seq<Bucket>)
    requires AllValid(s) && AllValid(a) && AllValid(bs) && |bs| == |s| == |r| && i < |s|
    requires B32.Valid(r[i]) && forall k :: 0 <= k < |s| && k != i ==> r[k] == bs[k]
    requires forall k :: 0 <= k < i ==> Restricted(s, a, bs, k)
    ensures AllValid(r) && forall k :: 0 <= k < i ==> Restricted(s, a, r, k)
  {
    hide B32.Valid, B32.Items;
    forall k | 0 <= k < i ensures Restricted(s, a, r, k) {
      assert Restricted(s, a, bs, k);
    }
  }

  lemma IntersectDrop(s: seq<Bucket>, a: seq<Bucket>, bs: seq<Bucket>, i: nat, j: nat)
    requires Operand(s) && Operand(a) && IntersectState(s, a, bs, i, j)
    requires i < |s| && (j < |a| ==> s[i].hi < a[j].hi)
    ensures IntersectState(s, a, bs[i := B32.EMPTY_BUCKET], i + 1, j)
  {
    EmptyDefault();
    hide B32.Valid, B32.Items;
    RestrictedElsewhere(s, a, bs, i, bs[i := B32.EMPTY_BUCKET]);
    forall l | l in B32.Items(s[i]) ensures !InList(a, s[i].hi, l) {
      forall m | 0 <= m < |a| ensures a[m].hi != s[i].hi {
        assert m >= j ==> a[j].hi <= a[m].hi;
      }
    }
    assert Restricted(s, a, bs[i := B32.EMPTY_BUCKET], i);
  }

  lemma IntersectMatch(s: seq<Bucket>, a: seq<Bucket>, bs: seq<Bucket>, i: nat, j: nat, v: Bucket)
    requires Operand(s) && Operand(a) && IntersectState(s, a, bs, i, j)
    requires i < |s| && j < |a| && s[i].hi == a[j].hi == v.hi
    requires B32.Valid(v) && B32.Items(v) == B32.Items(s[i]) * B32.Items(a[j])
    ensures IntersectState(s, a, bs[i := v], i + 1, j + 1)
  {
    hide B32.Valid, B32.Items;
    RestrictedElsewhere(s, a, bs, i, bs[i := v]);
    forall l | l in B32.Items(s[i]) ensures InList(a, s[i].hi, l) <==> l in B32.Items(a[j]) {
      if InList(a, s[i].hi, l) {
        var m :| 0 <= m < |a| && a[m].hi == s[i].hi && l in B32.Items(a[m]);
        assert m == j;
      }
    }
    assert Restricted(s, a, bs[i := v], i);
    forall k | i + 1 <= k < |s| ensures a[j].hi < s[k].hi || Empty(s[k]) {
      assert s[i].hi <= s[k].hi;
    }
  }

  lemma IntersectFirstHolds(s: seq<Bucket>, a: seq<Bucket>, bs: seq<Bucket>, j: nat)
    requires Operand(s) && Operand(a) && IntersectState(s, a, bs, |s|, j)
    requires forall k :: 0 <= k < |s| ==> 0 <= s[k].hi
    ensures FirstHolds(bs)
  {
    hide B32.Valid, B32.Items;
    forall k, m | 0 <= k < m < |bs| && bs[k].hi == bs[m].hi ensures Empty(bs[m]) {
      assert Restricted(s, a, bs, k) && Restricted(s, a, bs, m);
      assert s[k].hi <= s[m].hi;
      if bs[m].hi == s[m].hi {
        assert s[k].hi == s[m].hi;
        assert Empty(s[m]);
        assert forall l :: l in B32.Items(bs[m]) ==> l in B32.Items(s[m]);
      }
    }
  }

  lemma IntersectItems(s: seq<Bucket>, a: seq<Bucket>, bs: seq<Bucket>, j: nat)
    requires Operand(s) && Operand(a) && IntersectState(s, a, bs, |s|, j)
    ensures ListItems(bs) == ListItems(s) * ListItems(a)
  {
    hide B32.Valid, B32.Items, ListItems;
    forall x ensures x in ListItems(bs) <==> x in ListItems(s) && x in ListItems(a) {
      var hi, lo := x / U32_SIZE, x % U32_SIZE;
      ListMember(bs, x);
      ListMember(s, x);
      ListMember(a, x);
      if InList(bs, hi, lo) {
        var k :| 0 <= k < |bs| && bs[k].hi == hi && lo in B32.Items(bs[k]);
        assert Restricted(s, a, bs, k);
      }
      if InList(s, hi, lo) && InList(a, hi, lo) {
        var k :| 0 <= k < |s| && s[k].hi == hi && lo in B32.Items(s[k]);
        assert Restricted(s, a, bs, k);
      }
    }
  }

  /** Drops buckets of `s` below the `a` cursor, or all remaining ones past its end. */
  method DropSmaller(s: seq<Bucket>, a: seq<Bucket>, bs0: seq<Bucket>, i0: nat, j: nat)
    returns (bs: seq<Bucket>, i: nat)
    requires Operand(s) && Operand(a) && |bs0| == |s| && i0 <= |s| && j <= |a| && IntersectState(s, a, bs0, i0, j)
    ensures i0 <= i <= |s| && |bs| == |s| && IntersectState(s, a, bs, i, j)
    ensures i < |s| ==> j < |a| && a[j].hi <= s[i].hi
  {
    hide IntersectState, Operand;
    bs, i := bs0, i0;
    while i < |s| && (j >= |a| || s[i].hi < a[j].hi)
      invariant i0 <= i <= |s| && |bs| == |s| && IntersectState(s, a, bs, i, j)
    {
      IntersectDrop(s, a, bs, i, j);
      bs, i := bs[i := B32.EMPTY_BUCKET], i + 1;
    }
  }

  lemma IntersectAdvance(s: seq<Bucket>, a: seq<Bucket>, bs: seq<Bucket>, i: nat, j: nat)
    requires Operand(s) && Operand(a) && IntersectState(s, a, bs, i, j)
    requires i < |s| && j < |a| && a[j].hi < s[i].hi
    ensures IntersectState(s, a, bs, i, j + 1)
  {
    hide B32.Valid, B32.Items;
    forall k | i <= k < |s| ensures a[j].hi < s[k].hi {
      assert s[i].hi <= s[k].hi;
    }
  }

  method SkipOther(s: seq<Bucket>, a: seq<Bucket>, ghost bs: seq<Bucket>, i: nat, j0: nat) returns (j: nat)
    requires Operand(s) && Operand(a) && i < |s| && j0 <= |a| && IntersectState(s, a, bs, i, j0)
    ensures j0 <= j <= |a| && IntersectState(s, a, bs, i, j)
    ensures j < |a| ==> s[i].hi <= a[j].hi
  {
    hide IntersectState, Operand;
    j := j0;
    while j < |a| && a[j].hi < s[i].hi
      invariant j0 <= j <= |a| && IntersectState(s, a, bs, i, j)
    {
      IntersectAdvance(s, a, bs, i, j);
      j := j + 1;
    }
  }

  method IntersectStep(s: seq<Bucket>, a: seq<Bucket>, bs: seq<Bucket>, i: nat, j: nat) returns (r: seq<Bucket>)
    requires Operand(s) && Operand(a) && IntersectState(s, a, bs, i, j)
    requires i < |s| && j < |a| && s[i].hi == a[j].hi
    ensures |r| == |s| && IntersectState(s, a, r, i + 1, j + 1)
  {
    hide B32.Valid, B32.Items;
    var v := Merge.Intersect(bs[i], a[j]);
    IntersectMatch(s, a, bs, i, j, v);
    r := bs[i := v];
  }

  method MergeIntersect(s: seq<Bucket>, a: seq<Bucket>) returns (bs: seq<Bucket>, ghost j: nat)
    requires Operand(s) && Operand(a)
    ensures IntersectState(s, a, bs, |s|, j)
  {
    assert IntersectState(s, a, s, 0, 0);
    hide IntersectState, Operand;
    bs := s;
    var i, q := 0, 0;
    while true
      invariant i <= |s| == |bs| && q <= |a| && IntersectState(s, a, bs, i, q)
      decreases |s| - i + |a| - q
    {
      bs, i := DropSmaller(s, a, bs, i, q);
      if i >= |s| {
        break;
      }
      q := SkipOther(s, a, bs, i, q);
      if q < |a| && s[i].hi == a[q].hi {
        bs := IntersectStep(s, a, bs, i, q);
        i, q := i + 1, q + 1;
      }
    }
    j := q;
  }

  lemma KeysNonNegative(s: seq<Bucket>)
    requires AllValid(s)
    ensures forall k :: 0 <= k < |s| ==> 0 <= s[k].hi
  {
  }

  /** The intersection; dropped buckets become default ones, whose key 0 may repeat. */
  method Intersect(s: seq<Bucket>, a: seq<Bucket>) returns (bs: seq<Bucket>)
    requires Operand(s) && Operand(a)
    ensures AllValid(bs) && FirstHolds(bs) && ListItems(bs) == ListItems(s) * ListItems(a)
  {
    KeysNonNegative(s);
    hide B32.Valid, B32.Items, ListItems;
    ghost var j;
    bs, j := MergeIntersect(s, a);
    IntersectFirstHolds(s, a, bs, j);
    IntersectItems(s, a, bs, j);
  }
}
