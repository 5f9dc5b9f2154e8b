/** Two-cursor merges of 32-bit buckets: union and intersection. */
module Bucket32Merge {
  import opened Listing
  import opened Slots
  import opened Bucket32Level
  import B16 = Bucket16Level

  // ----- union

  /** What the union loop keeps: `i` and `j` are its cursors, `his` and `bs` the lists it grows. */
  ghost predicate UnionState(b: Bucket32, a: Bucket32, his: seq<int>, bs: seq<B16.Bucket16>, i: nat, j: nat)
    requires Valid(b) && Valid(a)
  {
    var n := |b.b16his|;
    && i <= n <= |his| && j <= |a.b16his|
    && ValidSlots(his, bs) && Distinct(his)
    && his[..n] == b.b16his
    && (forall k, m :: 0 <= k < i && j <= m < |a.b16his| ==> his[k] < a.b16his[m])
    && (forall k, m :: n <= k < |his| && j <= m < |a.b16his| ==> his[k] < a.b16his[m])
    && SlotItems(his, bs) == Items(b) + SlotItems(a.b16his[..j], a.buckets[..j])
  }

  lemma UnionStart(b: Bucket32, a: Bucket32)
    requires Valid(b) && Valid(a)
    ensures UnionState(b, a, b.b16his, b.buckets, 0, 0)
  {
    EmptySlots(a.b16his[..0], a.buckets[..0]);
    assert Items(b) + {} == Items(b);
  }

  lemma UnionSkip(b: Bucket32, a: Bucket32, his: seq<int>, bs: seq<B16.Bucket16>, i: nat, j: nat)
    requires Valid(b) && Valid(a) && UnionState(b, a, his, bs, i, j)
    requires i < |b.b16his| && j < |a.b16his| && his[i] < a.b16his[j]
    ensures UnionState(b, a, his, bs, i + 1, j)
  {
  }

  lemma UnionPush(b: Bucket32, a: Bucket32, his: seq<int>, bs: seq<B16.Bucket16>, i: nat, j: nat)
    requires Valid(b) && Valid(a) && UnionState(b, a, his, bs, i, j)
    requires j < |a.b16his| && (i < |b.b16his| ==> a.b16his[j] < his[i])
    ensures UnionState(b, a, his + [a.b16his[j]], bs + [a.buckets[j]], i, j + 1)
  {
    hide B16.Valid, B16.Items, SlotItems;
    var n, key := |b.b16his|, a.b16his[j];
    SlotPush(his, bs, key, a.buckets[j]);
    SlotTake(a.b16his, a.buckets, j);
    UnionAssociative(Items(b), SlotItems(a.b16his[..j], a.buckets[..j]), Shift(U16_SIZE * key, B16.Items(a.buckets[j])));
    var h2 := his + [key];
    assert h2[..n] == his[..n];
    forall k | 0 <= k < |his| ensures his[k] != key {
      if i <= k < n {
        assert his[..n][i] <= his[..n][k];
      }
    }
  }

  lemma UnionMatch(b: Bucket32, a: Bucket32, his: seq<int>, bs: seq<B16.Bucket16>, i: nat, j: nat, v: B16.Bucket16)
    requires Valid(b) && Valid(a) && UnionState(b, a, his, bs, i, j)
    requires i < |b.b16his| && j < |a.b16his| && his[i] == a.b16his[j]
    requires B16.Valid(v) && B16.Items(v) == B16.Items(bs[i]) + B16.Items(a.buckets[j])
    ensures UnionState(b, a, his, bs[i := v], i + 1, j + 1)
  {
    hide B16.Valid, B16.Items, SlotItems;
    SlotGrow(his, bs, i, v, B16.Items(a.buckets[j]));
    SlotTake(a.b16his, a.buckets, j);
    UnionAssociative(Items(b), SlotItems(a.b16his[..j], a.buckets[..j]), Shift(U16_SIZE * his[i], B16.Items(a.buckets[j])));
  }

  /** Moves the first cursor past keys below the second one's. */
  method SkipSmaller(ghost b: Bucket32, a: Bucket32, his: seq<int>, ghost bs: seq<B16.Bucket16>, n: nat, i0: nat, j: nat)
    returns (i: nat)
    requires Valid(b) && Valid(a) && n == |b.b16his| && UnionState(b, a, his, bs, i0, j)
    requires i0 <= n <= |his|
    ensures i0 <= i <= n && UnionState(b, a, his, bs, i, j)
    ensures i < n && j < |a.b16his| ==> a.b16his[j] <= his[i]
  {
    hide UnionState, Valid;
    i := i0;
    while i < n && j < |a.b16his| && his[i] < a.b16his[j]
      invariant i0 <= i <= n && UnionState(b, a, his, bs, i, j)
    {
      UnionSkip(b, a, his, bs, i, j);
      i := i + 1;
    }
  }

  /** Copies buckets of `a` whose keys are below the first cursor's, or all of them past its end. */
  method PushSmaller(ghost b: Bucket32, a: Bucket32, h0: seq<int>, bs0: seq<B16.Bucket16>, n: nat, i: nat, j0: nat)
    returns (his: seq<int>, bs: seq<B16.Bucket16>, j: nat)
    requires Valid(b) && Valid(a) && n == |b.b16his| && UnionState(b, a, h0, bs0, i, j0)
    requires n <= |h0| && j0 <= |a.b16his| == |a.buckets|
    ensures j0 <= j <= |a.b16his| && UnionState(b, a, his, bs, i, j) && |h0| <= |his|
    ensures j < |a.b16his| ==> i < n && his[i] <= a.b16his[j] && his[i] == h0[i]
  {
    hide UnionState, Valid;
    his, bs, j := h0, bs0, j0;
    while j < |a.b16his| && (i >= n || a.b16his[j] < his[i])
      invariant j0 <= j <= |a.b16his| && UnionState(b, a, his, bs, i, j)
      invariant h0 <= his
    {
      UnionPush(b, a, his, bs, i, j);
      his, bs, j := his + [a.b16his[j]], bs + [a.buckets[j]], j + 1;
    }
  }

  /** Merges two buckets with one key. */
  method UnionStep(ghost b: Bucket32, a: Bucket32, ghost his: seq<int>, bs: seq<B16.Bucket16>, i: nat, j: nat)
    returns (r: seq<B16.Bucket16>)
    requires Valid(b) && Valid(a) && UnionState(b, a, his, bs, i, j)
    requires i < |b.b16his| && j < |a.b16his| && his[i] == a.b16his[j]
    ensures UnionState(b, a, his, r, i + 1, j + 1)
  {
    var v := B16.Union(bs[i], a.buckets[j]);
    UnionMatch(b, a, his, bs, i, j, v);
    r := bs[i := v];
  }

  lemma UnionFinish(b: Bucket32, a: Bucket32, his: seq<int>, bs: seq<B16.Bucket16>, i: nat)
    requires Valid(b) && Valid(a) && UnionState(b, a, his, bs, i, |a.b16his|)
    ensures ValidSlots(his, bs) && Distinct(his) && SlotItems(his, bs) == Items(b) + Items(a)
  {
    assert a.b16his[..|a.b16his|] == a.b16his && a.buckets[..|a.b16his|] == a.buckets;
  }

  /** One round of the two-cursor merge: skip smaller keys, push missing ones, merge an equal one. */
  method UnionRound(ghost b: Bucket32, a: Bucket32, h0: seq<int>, bs0: seq<B16.Bucket16>, n: nat, i0: nat, j0: nat)
    returns (his: seq<int>, bs: seq<B16.Bucket16>, i: nat, j: nat)
    requires Valid(b) && Valid(a) && n == |b.b16his| && UnionState(b, a, h0, bs0, i0, j0)
    requires i0 <= n <= |h0| && j0 <= |a.b16his| == |a.buckets|
    ensures UnionState(b, a, his, bs, i, j) && i0 <= i <= n <= |his| && j0 <= j <= |a.b16his|
    ensures j < |a.b16his| ==> i0 + j0 < i + j
  {
    hide UnionState, Valid;
    i := SkipSmaller(b, a, h0, bs0, n, i0, j0);
    his, bs, j := PushSmaller(b, a, h0, bs0, n, i, j0);
    if j < |a.b16his| && his[i] == a.b16his[j] {
      bs := UnionStep(b, a, his, bs, i, j);
      i, j := i + 1, j + 1;
    }
  }

  method MergeUnion(b: Bucket32, a: Bucket32) returns (his: seq<int>, bs: seq<B16.Bucket16>, ghost i: nat)
    requires Valid(b) && Valid(a)
    ensures UnionState(b, a, his, bs, i, |a.b16his|)
  {
    his, bs := b.b16his, b.buckets;
    UnionStart(b, a);
    var k, j, n := 0, 0, |b.buckets|;
    while true
      invariant k <= n <= |his| && j <= |a.b16his| && UnionState(b, a, his, bs, k, j)
      decreases n - k + |a.b16his| - j
    {
      hide UnionState;
      his, bs, k, j := UnionRound(b, a, his, bs, n, k, j);
      if j >= |a.b16his| {
        break;
      }
    }
    i := k;
  }

  function Zip(his: seq<int>, bs: seq<B16.Bucket16>): (q: seq<(int, B16.Bucket16)>)
    requires |his| == |bs|
    ensures |q| == |his| && forall i :: 0 <= i < |q| ==> q[i] == (his[i], bs[i])
  {
    seq(|his|, i requires 0 <= i < |his| => (his[i], bs[i]))
  }

  function Keys(q: seq<(int, B16.Bucket16)>): (his: seq<int>)
    ensures |his| == |q| && forall i :: 0 <= i < |q| ==> his[i] == q[i].0
  {
    seq(|q|, i requires 0 <= i < |q| => q[i].0)
  }

  function Vals(q: seq<(int, B16.Bucket16)>): (bs: seq<B16.Bucket16>)
    ensures |bs| == |q| && forall i :: 0 <= i < |q| ==> bs[i] == q[i].1
  {
    seq(|q|, i requires 0 <= i < |q| => q[i].1)
  }

  lemma SlotIncluded(his: seq<int>, bs: seq<B16.Bucket16>, h2: seq<int>, b2: seq<B16.Bucket16>)
    requires ValidSlots(his, bs) && ValidSlots(h2, b2)
    requires forall i :: 0 <= i < |his| ==> (his[i], bs[i]) in Zip(h2, b2)
    ensures SlotItems(his, bs) <= SlotItems(h2, b2)
  {
    forall x | x in SlotItems(his, bs) ensures x in SlotItems(h2, b2) {
      SlotMember(his, bs, x);
      SlotMember(h2, b2, x);
      var i :| 0 <= i < |his| && his[i] == x / U16_SIZE && x % U16_SIZE in B16.Items(bs[i]);
      var z := Zip(h2, b2);
      assert (his[i], bs[i]) in z;
      var k :| 0 <= k < |z| && z[k] == (his[i], bs[i]);
      assert h2[k] == x / U16_SIZE && b2[k] == bs[i];
    }
  }

  lemma SortValid(his: seq<int>, bs: seq<B16.Bucket16>)
    requires ValidSlots(his, bs) && Distinct(his)
    ensures var q := StableSort(Zip(his, bs));
            && ValidSlots(Keys(q), Vals(q)) && Ascending(Keys(q))
            && forall i :: 0 <= i < |q| ==> q[i] in Zip(his, bs)
  {
    var z := Zip(his, bs);
    var q := StableSort(z);
    StableSortSorts(z);
    StableSortKeepsFirst(z, iset{});
    forall i | 0 <= i < |q| ensures q[i] in z && B16.IsU16(q[i].0) && B16.Valid(q[i].1) {
      StableSortMember(z, q[i]);
      var k :| 0 <= k < |z| && z[k] == q[i];
    }
    forall i, j | 0 <= i < j < |q| ensures q[i].0 < q[j].0 {
      assert q[i].0 <= q[j].0;
    }
  }

  /** Sorting the pairs by key restores a valid bucket with the same items. */
  lemma SortRestores(his: seq<int>, bs: seq<B16.Bucket16>)
    requires ValidSlots(his, bs) && Distinct(his)
    ensures var q := StableSort(Zip(his, bs));
            && ValidSlots(Keys(q), Vals(q)) && Ascending(Keys(q))
            && SlotItems(Keys(q), Vals(q)) == SlotItems(his, bs)
  {
    var z := Zip(his, bs);
    var q := StableSort(z);
    SortValid(his, bs);
    SlotIncluded(Keys(q), Vals(q), his, bs);
    assert Zip(Keys(q), Vals(q)) == q;
    forall i | 0 <= i < |his| ensures (his[i], bs[i]) in q {
      StableSortMember(z, (his[i], bs[i]));
      assert z[i] == (his[i], bs[i]);
    }
    SlotIncluded(his, bs, Keys(q), Vals(q));
  }

  predicate IsSorted(his: seq<int>) {
    forall i :: 0 < i < |his| ==> his[i - 1] <= his[i]
  }

  lemma {:induction false} SortedPairs(his: seq<int>, i: nat, j: nat)
    requires IsSorted(his) && i <= j < |his|
    ensures his[i] <= his[j]
    decreases j - i
  {
    if i < j {
      SortedPairs(his, i, j - 1);
    }
  }

  method Union(b: Bucket32, a: Bucket32) returns (r: Bucket32)
    requires Valid(b) && Valid(a)
    ensures Valid(r) && Items(r) == Items(b) + Items(a) && r.hi == b.hi
  {
    var his, bs, i := MergeUnion(b, a);
    UnionFinish(b, a, his, bs, i);
    if !IsSorted(his) {
      var q := StableSort(Zip(his, bs));
      SortRestores(his, bs);
      return Bucket32(b.hi, b.hint, Keys(q), Vals(q));
    }
    forall i, j | 0 <= i < j < |his| ensures his[i] < his[j] {
      SortedPairs(his, i, j);
    }
    r := Bucket32(b.hi, b.hint, his, bs);
  }

  // ----- intersection

  /** Some slot of `a` has key `h` and holds `l`. */
  ghost predicate InKey(a: Bucket32, h: int, l: int)
    requires Valid(a)
  {
    exists m :: 0 <= m < |a.b16his| && a.b16his[m] == h && l in B16.Items(a.buckets[m])
  }

  /** Slot `k` of `bs` is slot `k` of `b` restricted to `a`. */
  ghost predicate Restricted(b: Bucket32, a: Bucket32, bs: seq<B16.Bucket16>, k: nat)
    requires Valid(b) && Valid(a) && ValidSlots(b.b16his, bs) && k < |bs|
  {
    forall l :: l in B16.Items(bs[k]) <==> l in B16.Items(b.buckets[k]) && InKey(a, b.b16his[k], l)
  }

  ghost predicate IntersectState(b: Bucket32, a: Bucket32, bs: seq<B16.Bucket16>, i: nat, j: nat)
    requires Valid(b) && Valid(a)
  {
    && i <= |b.b16his| && j <= |a.b16his| && ValidSlots(b.b16his, bs)
    && (forall k :: 0 <= k < i ==> Restricted(b, a, bs, k))
    && (forall k :: i <= k < |bs| ==> bs[k] == b.buckets[k])
    && (forall m, k :: 0 <= m < j && i <= k < |bs| ==> a.b16his[m] < b.b16his[k])
  }

  lemma IntersectDrop(b: Bucket32, a: Bucket32, bs: seq<B16.Bucket16>, i: nat, j: nat)
    requires Valid(b) && Valid(a) && IntersectState(b, a, bs, i, j)
    requires i < |b.b16his| && (j < |a.b16his| ==> b.b16his[i] < a.b16his[j])
    ensures IntersectState(b, a, bs[i := B16.EmptyBucket()], i + 1, j)
  {
    B16.EmptyBucketIsEmpty();
    forall l ensures !InKey(a, b.b16his[i], l) {
      forall m | 0 <= m < |a.b16his| ensures a.b16his[m] != b.b16his[i] {
        assert m >= j ==> a.b16his[j] <= a.b16his[m];
      }
    }
    var b2 := bs[i := B16.EmptyBucket()];
    forall k | 0 <= k < i ensures Restricted(b, a, b2, k) {
      assert Restricted(b, a, bs, k);
    }
  }

  lemma IntersectMatch(b: Bucket32, a: Bucket32, bs: seq<B16.Bucket16>, i: nat, j: nat, v: B16.Bucket16)
    requires Valid(b) && Valid(a) && IntersectState(b, a, bs, i, j)
    requires i < |b.b16his| && j < |a.b16his| && b.b16his[i] == a.b16his[j]
    requires B16.Valid(v) && B16.Items(v) == B16.Items(bs[i]) * B16.Items(a.buckets[j])
    ensures IntersectState(b, a, bs[i := v], i + 1, j + 1)
  {
    var b2 := bs[i := v];
    forall l ensures InKey(a, b.b16his[i], l) <==> l in B16.Items(a.buckets[j]) {
    }
    assert Restricted(b, a, b2, i);
    forall k | 0 <= k < i ensures Restricted(b, a, b2, k) {
      assert Restricted(b, a, bs, k);
    }
  }

  lemma IntersectDone(b: Bucket32, a: Bucket32, bs: seq<B16.Bucket16>, j: nat)
    requires Valid(b) && Valid(a) && IntersectState(b, a, bs, |b.b16his|, j)
    ensures SlotItems(b.b16his, bs) == Items(b) * Items(a)
  {
    forall x ensures x in SlotItems(b.b16his, bs) <==> x in Items(b) && x in Items(a) {
      SlotMember(b.b16his, bs, x);
      SlotMember(b.b16his, b.buckets, x);
      SlotMember(a.b16his, a.buckets, x);
      assert InSlot(a.b16his, a.buckets, x) <==> InKey(a, x / U16_SIZE, x % U16_SIZE);
      if InSlot(b.b16his, bs, x) {
        var k :| 0 <= k < |bs| && b.b16his[k] == x / U16_SIZE && x % U16_SIZE in B16.Items(bs[k]);
        assert Restricted(b, a, bs, k);
      }
      if InSlot(b.b16his, b.buckets, x) && InKey(a, x / U16_SIZE, x % U16_SIZE) {
        var k :| 0 <= k < |bs| && b.b16his[k] == x / U16_SIZE && x % U16_SIZE in B16.Items(b.buckets[k]);
        assert Restricted(b, a, bs, k);
      }
    }
  }

  method MergeIntersect(b: Bucket32, a: Bucket32) returns (bs: seq<B16.Bucket16>)
    requires Valid(b) && Valid(a)
    ensures ValidSlots(b.b16his, bs) && SlotItems(b.b16his, bs) == Items(b) * Items(a)
  {
    bs := b.buckets;
    var i, j, n := 0, 0, |b.b16his|;
    while true
      invariant IntersectState(b, a, bs, i, j)
      decreases n - i + |a.b16his| - j
    {
      ghost var left := n - i + |a.b16his| - j;
      while i < n && j < |a.b16his| && b.b16his[i] < a.b16his[j]
        invariant IntersectState(b, a, bs, i, j)
        invariant n - i + |a.b16his| - j <= left
      {
        IntersectDrop(b, a, bs, i, j);
        bs, i := bs[i := B16.EmptyBucket()], i + 1;
      }
      if i >= n {
        break;
      }
      while j < |a.b16his| && a.b16his[j] < b.b16his[i]
        invariant IntersectState(b, a, bs, i, j)
        invariant j == |a.b16his| || !(b.b16his[i] < a.b16his[j]) || n - i + |a.b16his| - j < left
        invariant n - i + |a.b16his| - j <= left
      {
        j := j + 1;
      }
      if j >= |a.b16his| {
        while i < n
          invariant IntersectState(b, a, bs, i, j)
        {
          IntersectDrop(b, a, bs, i, j);
          bs, i := bs[i := B16.EmptyBucket()], i + 1;
        }
        break;
      }
      if b.b16his[i] == a.b16his[j] {
        var v := B16.Intersect(bs[i], a.buckets[j]);
        IntersectMatch(b, a, bs, i, j, v);
        bs, i, j := bs[i := v], i + 1, j + 1;
      }
    }
    IntersectDone(b, a, bs, j);
  }

  /** Drops slots with neither a bitmap nor pooled items. */
  method RemoveZeroBuckets(his: seq<int>, bs: seq<B16.Bucket16>) returns (h2: seq<int>, b2: seq<B16.Bucket16>)
    requires ValidSlots(his, bs) && Ascending(his)
    ensures ValidSlots(h2, b2) && Ascending(h2) && SlotItems(h2, b2) == SlotItems(his, bs)
  {
    h2, b2 := [], [];
    EmptySlots(h2, b2);
    EmptySlots(his[..0], bs[..0]);
    for k := 0 to |his|
      invariant ValidSlots(h2, b2) && Ascending(h2)
      invariant forall m, t :: 0 <= m < |h2| && k <= t < |his| ==> h2[m] < his[t]
      invariant SlotItems(h2, b2) == SlotItems(his[..k], bs[..k])
    {
      SlotTake(his, bs, k);
      if B16.IsZero(bs[k]) {
        B16.ZeroBucketIsEmpty(bs[k]);
        assert Shift(U16_SIZE * his[k], {}) == {};
        continue;
      }
      SlotPush(h2, b2, his[k], bs[k]);
      h2, b2 := h2 + [his[k]], b2 + [bs[k]];
    }
    assert his[..|his|] == his && bs[..|his|] == bs;
  }

  method Intersect(b: Bucket32, a: Bucket32) returns (r: Bucket32)
    requires Valid(b) && Valid(a)
    ensures Valid(r) && Items(r) == Items(b) * Items(a) && r.hi == b.hi
  {
    var bs := MergeIntersect(b, a);
    var his;
    his, bs := RemoveZeroBuckets(b.b16his, bs);
    r := Bucket32(b.hi, 0, his, bs);
  }
}
