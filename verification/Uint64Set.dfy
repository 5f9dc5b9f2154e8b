/** The set of 64-bit integers: a list of 32-bit buckets updated in place. */
module Uint64Set {
  import opened Listing
  import opened Slots
  import opened BucketList
  import B32 = Bucket32Level
  import Bulk = Bucket32Bulk
  import Merge = BucketListMerge

  predicate IsU64(x: int) {
    0 <= x < U64_SIZE
  }

  /** The default bucket with its key filled in. */
  function FreshBucket(hi: int): Bucket {
    B32.Bucket32(hi, 0, [], [])
  }

  lemma FreshBucketEmpty(hi: int)
    requires 0 <= hi < U32_SIZE
    ensures B32.Valid(FreshBucket(hi)) && B32.Items(FreshBucket(hi)) == {}
  {
    B32.EmptySlots([], []);
  }

  /** A clone of a bucket forgets the hint and keeps the items. */
  function CloneBucket(b: Bucket): Bucket {
    b.(hint := 0)
  }

  function CloneBuckets(bs: seq<Bucket>): (r: seq<Bucket>)
    ensures |r| == |bs| && forall i :: 0 <= i < |bs| ==> r[i] == CloneBucket(bs[i])
  {
    seq(|bs|, i requires 0 <= i < |bs| => CloneBucket(bs[i]))
  }

  lemma CloneKeepsItems(bs: seq<Bucket>)
    requires AllValid(bs) && FirstHolds(bs)
    ensures AllValid(CloneBuckets(bs)) && FirstHolds(CloneBuckets(bs))
    ensures ListItems(CloneBuckets(bs)) == ListItems(bs)
  {
    var cs := CloneBuckets(bs);
    forall i | 0 <= i < |bs| ensures B32.Valid(cs[i]) && B32.Items(cs[i]) == B32.Items(bs[i]) && cs[i].hi == bs[i].hi {
      assert cs[i] == CloneBucket(bs[i]);
    }
    assert Bases(cs) == Bases(bs);
    assert Sets(cs) == Sets(bs);
    forall i, j | 0 <= i < j < |cs| && cs[i].hi == cs[j].hi ensures Empty(cs[j]) {
      assert Empty(bs[j]);
    }
  }

  /** The index of the first bucket with key `hi`, or the length. */
  method Position(bs: seq<Bucket>, hi: int) returns (i: nat)
    ensures IsFirst(bs, hi, i)
  {
    i := 0;
    while i < |bs| && bs[i].hi != hi
      invariant i <= |bs| && forall k :: 0 <= k < i ==> bs[k].hi != hi
    {
      i := i + 1;
    }
  }

  /** The bucket list extended by an empty bucket for `hi` when it has none. */
  method GetOrCreateBucket32(bs: seq<Bucket>, hi: int) returns (r: seq<Bucket>, i: nat)
    requires AllValid(bs) && FirstHolds(bs) && 0 <= hi < U32_SIZE
    ensures AllValid(r) && FirstHolds(r) && ListItems(r) == ListItems(bs)
    ensures i < |r| && IsFirst(r, hi, i)
  {
    i := Position(bs, hi);
    r := bs;
    if i == |bs| {
      FreshBucketEmpty(hi);
      ListPush(bs, FreshBucket(hi));
      assert Shift(U32_SIZE * hi, {}) == {};
      r := bs + [FreshBucket(hi)];
    }
  }

  /** The cardinality of a list grows with that of the replaced first bucket. */
  lemma FirstGrowth(bs: seq<Bucket>, i: nat, v: Bucket)
    requires AllValid(bs) && FirstHolds(bs) && i < |bs| && IsFirst(bs, bs[i].hi, i)
    requires B32.Valid(v) && v.hi == bs[i].hi
    ensures AllValid(bs[i := v]) && FirstHolds(bs[i := v])
    ensures |ListItems(bs[i := v])| == |ListItems(bs)| - |B32.Items(bs[i])| + |B32.Items(v)|
  {
    hide B32.Items, B32.Valid, ListItems;
    UpdateFirst(bs, i, v);
    ListCardinality(bs);
    ListCardinality(bs[i := v]);
    assert Sets(bs[i := v]) == Sets(bs)[i := B32.Items(v)];
    SumSizesUpdate(Sets(bs), i, B32.Items(v));
  }

  lemma {:induction false} GroupElements(g: seq<int>, hi: int)
    requires forall k :: 0 <= k < |g| ==> g[k] / U32_SIZE == hi
    ensures Shift(U32_SIZE * hi, Bulk.Low32(g)) == Elements(g)
  {
    if g == [] {
      assert Shift(U32_SIZE * hi, {}) == {};
    } else {
      var n := |g| - 1;
      GroupElements(g[..n], hi);
      ShiftUnion(U32_SIZE * hi, Bulk.Low32(g[..n]), {g[n] % U32_SIZE});
      RecombineSet(hi, {g[n] % U32_SIZE}, g[n]);
      assert g == g[..n] + [g[n]];
      assert Elements(g) == Elements(g[..n]) + {g[n]};
    }
  }

  /** Adds a run of items that share their high 32 bits. */
  method AddGroup(bs: seq<Bucket>, hi: int, g: seq<int>) returns (r: seq<Bucket>, count: nat)
    requires AllValid(bs) && FirstHolds(bs) && 0 <= hi < U32_SIZE
    requires forall k :: 0 <= k < |g| ==> g[k] / U32_SIZE == hi
    ensures AllValid(r) && FirstHolds(r) && ListItems(r) == ListItems(bs) + Elements(g)
    ensures count == |ListItems(r)| - |ListItems(bs)|
  {
    hide B32.Items, B32.Valid, ListItems;
    var cs, i := GetOrCreateBucket32(bs, hi);
    var v;
    v, count := Bulk.AddMulti(cs[i], g);
    ListGrow(cs, i, v, Bulk.Low32(g));
    GroupElements(g, hi);
    FirstGrowth(cs, i, v);
    r := cs[i := v];
  }

  lemma ElementsSplit(start: set<int>, a: seq<int>, i: nat, j: nat)
    requires i <= j <= |a|
    ensures start + Elements(a[..i]) + Elements(a[i..j]) == start + Elements(a[..j])
  {
    assert a[..j] == a[..i] + a[i..j];
  }

  /** `r` is a well-formed list holding `start` and the first `i` items of `a`. */
  ghost predicate Loaded(r: seq<Bucket>, start: set<int>, a: seq<int>, i: nat) {
    i <= |a| && AllValid(r) && FirstHolds(r) && ListItems(r) == start + Elements(a[..i])
  }

  /** How many items the first `i` of `a` add to `start`. */
  ghost function Gained(start: set<int>, a: seq<int>, i: nat): int
    requires i <= |a|
  {
    |start + Elements(a[..i])| - |start|
  }

  method AddRun(r0: seq<Bucket>, ghost start: set<int>, a: seq<int>, i: nat, j: nat, hi: int)
    returns (r: seq<Bucket>, added: nat)
    requires Loaded(r0, start, a, i) && i <= j <= |a| && 0 <= hi < U32_SIZE
    requires forall k :: i <= k < j ==> a[k] / U32_SIZE == hi
    ensures Loaded(r, start, a, j) && added == Gained(start, a, j) - Gained(start, a, i)
  {
    hide AllValid, FirstHolds, ListItems;
    ElementsSplit(start, a, i, j);
    r, added := AddGroup(r0, hi, a[i..j]);
  }

  lemma NothingLoaded(bs: seq<Bucket>, a: seq<int>)
    requires AllValid(bs) && FirstHolds(bs)
    ensures Loaded(bs, ListItems(bs), a, 0) && Gained(ListItems(bs), a, 0) == 0
  {
    hide ListItems;
    assert a[..0] == [];
    assert ListItems(bs) + {} == ListItems(bs);
  }

  method AddAll(bs: seq<Bucket>, a: seq<int>) returns (r: seq<Bucket>, count: nat)
    requires AllValid(bs) && FirstHolds(bs) && forall k :: 0 <= k < |a| ==> IsU64(a[k])
    ensures Loaded(r, ListItems(bs), a, |a|)
    ensures count == Gained(ListItems(bs), a, |a|)
  {
    r, count := bs, 0;
    ghost var start := ListItems(bs);
    NothingLoaded(bs, a);
    hide Loaded, AllValid, FirstHolds, ListItems, Gained;
    if a == [] {
      return;
    }
    var hiPrev, i, added := a[0] / U32_SIZE, 0, 0;
    for j := 0 to |a|
      invariant 0 <= i <= j && 0 <= hiPrev < U32_SIZE && Loaded(r, start, a, i)
      invariant forall k :: i <= k < j ==> a[k] / U32_SIZE == hiPrev
      invariant count == Gained(start, a, i)
    {
      var hi := a[j] / U32_SIZE;
      if hi == hiPrev {
        continue;
      }
      r, added := AddRun(r, start, a, i, j, hiPrev);
      count := count + added;
      hiPrev, i := hi, j;
    }
    r, added := AddRun(r, start, a, i, |a|, hiPrev);
    count := count + added;
  }

  // ----- listing

  lemma BucketsApart(bs: seq<Bucket>, i: nat)
    requires AllValid(bs) && FirstHolds(bs) && i < |bs|
    ensures AllValid(bs[..i]) && ListItems(bs[..i]) !! Shift(U32_SIZE * bs[i].hi, B32.Items(bs[i]))
  {
    var part := Shift(U32_SIZE * bs[i].hi, B32.Items(bs[i]));
    forall x | x in ListItems(bs[..i]) ensures x !in part {
      ListMember(bs[..i], x);
      ShiftMember(U32_SIZE * bs[i].hi, B32.Items(bs[i]), x);
      B32.ItemsAreU32(bs[i]);
      var k :| 0 <= k < i && bs[..i][k].hi == x / U32_SIZE && x % U32_SIZE in B32.Items(bs[..i][k]);
      assert bs[k].hi == bs[i].hi ==> Empty(bs[i]);
    }
  }

  lemma ListedElements(p: seq<int>, base: int, s: set<int>)
    requires ListsFrom(p, base, s)
    ensures Lists(p, Shift(base, s))
  {
    forall v ensures v in Elements(p) <==> v in Shift(base, s) {
      ShiftMember(base, s, v);
    }
  }

  lemma ListsAppend(q: seq<int>, s: set<int>, p: seq<int>, t: set<int>)
    requires Lists(q, s) && Lists(p, t) && s !! t
    ensures Lists(q + p, s + t)
  {
    var r := q + p;
    forall i, j | 0 <= i < j < |r| ensures r[i] != r[j] {
      if i < |q| <= j {
        assert r[i] in Elements(q) && r[j] in Elements(p);
      }
    }
  }

  lemma ShiftWithin(c: int, s: set<int>, t: set<int>)
    requires s <= t
    ensures Shift(c, s) <= Shift(c, t)
  {
  }

  /** Buckets before the i-th hold items of the list. */
  lemma FirstBuckets(bs: seq<Bucket>, i: nat)
    requires AllValid(bs) && i <= |bs| && AllValid(bs[..i])
    ensures ListItems(bs[..i]) <= ListItems(bs)
  {
    hide B32.Items, B32.Valid, ListItems;
    forall x | x in ListItems(bs[..i]) ensures x in ListItems(bs) {
      ListMember(bs[..i], x);
      ListMember(bs, x);
      var k :| 0 <= k < i && bs[..i][k].hi == x / U32_SIZE && x % U32_SIZE in B32.Items(bs[..i][k]);
      assert bs[k].hi == x / U32_SIZE;
    }
  }

  /** One more bucket handed out, as far as `done` of its items. */
  lemma HandedOut(bs: seq<Bucket>, i: nat, seen: seq<int>, p: seq<int>, done: set<int>)
    requires AllValid(bs) && FirstHolds(bs) && i < |bs| && AllValid(bs[..i]) && Lists(seen, ListItems(bs[..i]))
    requires ListsFrom(p, U32_SIZE * bs[i].hi, done) && done <= B32.Items(bs[i])
    ensures AllValid(bs[..i + 1]) && Distinct(seen + p) && Elements(seen + p) <= ListItems(bs[..i + 1]) <= ListItems(bs)
    ensures done == B32.Items(bs[i]) ==> Lists(seen + p, ListItems(bs[..i + 1]))
  {
    hide B32.Items, B32.Valid, ListItems, ListsFrom, FirstHolds;
    var base := U32_SIZE * bs[i].hi;
    ListedElements(p, base, done);
    BucketsApart(bs, i);
    ListTake(bs, i);
    FirstBuckets(bs, i + 1);
    ShiftWithin(base, done, B32.Items(bs[i]));
    hide Shift;
    ListsAppend(seen, ListItems(bs[..i]), p, Shift(base, done));
  }

  /**
   * `for_each`: hands out the items in parts, each at most once, and asks after every part whether to go on.
   * Without a stop every item is handed out.
   */
  method ForEach(bs: seq<Bucket>, go: seq<seq<int>> -> bool) returns (parts: seq<seq<int>>, on: bool)
    requires AllValid(bs) && FirstHolds(bs)
    ensures Distinct(Bulk.Flat(parts)) && Elements(Bulk.Flat(parts)) <= ListItems(bs)
    ensures on ==> Lists(Bulk.Flat(parts), ListItems(bs))
    ensures Bulk.Asked(go, 0, parts, on)
  {
    parts, on := [], true;
    EmptyList(bs[..0]);
    for i := 0 to |bs|
      invariant on && AllValid(bs[..i]) && Lists(Bulk.Flat(parts), ListItems(bs[..i])) && Bulk.Asked(go, 0, parts, true)
    {
      hide B32.Items, B32.Valid, ListItems, FirstHolds, Bulk.Flat, Bulk.Asked;
      ghost var before := parts;
      ghost var p, done;
      parts, on, p, done := Bulk.ForEach(bs[i], parts, go);
      HandedOut(bs, i, Bulk.Flat(before), p, done);
      AskedOn(go, before, parts, on);
      if !on {
        return;
      }
    }
    assert bs[..|bs|] == bs;
  }

  lemma AskedOn(go: seq<seq<int>> -> bool, before: seq<seq<int>>, parts: seq<seq<int>>, on: bool)
    requires Bulk.Asked(go, 0, before, true) && before <= parts && Bulk.Asked(go, |before|, parts, on)
    ensures Bulk.Asked(go, 0, parts, on)
  {
    forall k | 0 < k < |parts| ensures go(parts[..k]) {
      if k < |before| {
        assert parts[..k] == before[..k];
      } else if k == |before| {
        assert parts[..k] == before;
      }
    }
    if |parts| == |before| {
      assert parts == before;
    }
  }

  /** Visits every item once: the parts `for_each` hands out to a callback that never stops it. */
  method Visit(bs: seq<Bucket>) returns (q: seq<int>)
    requires AllValid(bs) && FirstHolds(bs)
    ensures Lists(q, ListItems(bs))
  {
    hide Lists, ListItems, AllValid, FirstHolds;
    var parts, on := ForEach(bs, Always);
    q := Bulk.Flat(parts);
  }

  function Always(parts: seq<seq<int>>): bool {
    true
  }

  lemma BucketsBelow(bs: seq<Bucket>, i: nat)
    requires AllValid(bs) && FirstHolds(bs) && SortedByHi(bs) && i < |bs|
    ensures AllValid(bs[..i])
    ensures forall x, y :: x in ListItems(bs[..i]) && y in B32.Items(bs[i]) ==> x < U32_SIZE * bs[i].hi + y
  {
    forall x, y | x in ListItems(bs[..i]) && y in B32.Items(bs[i]) ensures x < U32_SIZE * bs[i].hi + y {
      ListMember(bs[..i], x);
      B32.ItemsAreU32(bs[i]);
      var k :| 0 <= k < i && bs[..i][k].hi == x / U32_SIZE && x % U32_SIZE in B32.Items(bs[..i][k]);
      assert bs[k].hi <= bs[i].hi && !Empty(bs[i]);
    }
  }

  /** Appends the items of a sorted bucket list in ascending order. */
  method AppendSorted(bs: seq<Bucket>, dst: seq<int>) returns (out: seq<int>, ghost q: seq<int>)
    requires AllValid(bs) && FirstHolds(bs) && SortedByHi(bs)
    ensures out == dst + q && Ascending(q) && Elements(q) == ListItems(bs)
  {
    hide B32.Items, B32.Valid, ListItems;
    out, q := dst, [];
    ghost var done := {};
    EmptyList(bs[..0]);
    for i := 0 to |bs|
      invariant AllValid(bs[..i]) && done == ListItems(bs[..i])
      invariant out == dst + q && ListsFrom(q, 0, done)
    {
      ghost var p;
      out, p := Bulk.AppendTo(bs[i], out);
      BucketsBelow(bs, i);
      ListTake(bs, i);
      ListsConcat(q, 0, done, p, U32_SIZE * bs[i].hi, B32.Items(bs[i]));
      assert dst + q + p == dst + (q + p);
      q, done := q + p, done + Shift(U32_SIZE * bs[i].hi, B32.Items(bs[i]));
    }
    assert bs[..|bs|] == bs;
    ListsFromZero(q, done);
  }

  // ----- the set object

  class Set {
    var itemsCount: nat
    var buckets: seq<Bucket>

    ghost predicate Valid()
      reads this
    {
      AllValid(buckets) && FirstHolds(buckets) && itemsCount == |ListItems(buckets)|
    }

    /** The mathematical set this object stands for. */
    ghost function Items(): set<int>
      requires Valid()
      reads this
    {
      ListItems(buckets)
    }

    constructor ()
      ensures Valid() && Items() == {}
    {
      itemsCount, buckets := 0, [];
      EmptyList([]);
    }

    method Len() returns (n: nat)
      requires Valid()
      ensures n == |Items()|
    {
      n := itemsCount;
    }

    method Clone() returns (r: Set)
      requires Valid()
      ensures fresh(r) && r.Valid() && r.Items() == Items()
    {
      r := new Set();
      if itemsCount == 0 {
        return;
      }
      CloneKeepsItems(buckets);
      r.itemsCount, r.buckets := itemsCount, CloneBuckets(buckets);
    }

    method Has(x: int) returns (found: bool)
      requires Valid() && IsU64(x)
      ensures found <==> x in Items()
    {
      var i := Position(buckets, x / U32_SIZE);
      FirstDecides(buckets, i, x);
      found := false;
      if i < |buckets| {
        found := B32.Has(buckets[i], x % U32_SIZE);
      }
    }

    method Add(x: int)
      requires Valid() && IsU64(x)
      modifies this
      ensures Valid() && Items() == old(Items()) + {x}
    {
      hide B32.Items, B32.Valid, ListItems;
      var bs, i := GetOrCreateBucket32(buckets, x / U32_SIZE);
      FirstDecides(bs, i, x);
      var v, added := B32.Add(bs[i], x % U32_SIZE);
      ListGrow(bs, i, v, {x % U32_SIZE});
      UpdateFirst(bs, i, v);
      RecombineSet(v.hi, {x % U32_SIZE}, x);
      buckets := bs[i := v];
      if added {
        itemsCount := itemsCount + 1;
      }
    }

    method AddMulti(a: seq<int>)
      requires Valid() && forall x :: x in a ==> IsU64(x)
      modifies this
      ensures Valid() && Items() == old(Items()) + Elements(a)
    {
      hide AllValid, FirstHolds, ListItems;
      var bs, count := AddAll(buckets, a);
      assert a[..|a|] == a;
      buckets, itemsCount := bs, itemsCount + count;
    }

    method Del(x: int)
      requires Valid() && IsU64(x)
      modifies this
      ensures Valid() && Items() == old(Items()) - {x}
    {
      hide B32.Items, B32.Valid, ListItems;
      var i := Position(buckets, x / U32_SIZE);
      FirstDecides(buckets, i, x);
      if i < |buckets| {
        var v, removed := B32.Del(buckets[i], x % U32_SIZE);
        ShrinkFirst(buckets, i, v, x);
        UpdateFirst(buckets, i, v);
        buckets := buckets[i := v];
        if removed {
          itemsCount := itemsCount - 1;
        }
      }
    }

    method AppendTo(dst: seq<int>) returns (out: seq<int>, ghost q: seq<int>)
      requires Valid()
      modifies this
      ensures Valid() && Items() == old(Items())
      ensures out == dst + q && Ascending(q) && Elements(q) == Items()
    {
      SortedCorrect(buckets);
      buckets := Sorted(buckets);
      out, q := AppendSorted(buckets, dst);
    }

    method Union(a: Set)
      requires Valid() && a.Valid() && a != this
      modifies this
      ensures Valid() && Items() == old(Items()) + a.Items()
    {
      hide B32.Items, B32.Valid, ListItems, Sorted;
      if a.itemsCount == 0 {
        return;
      }
      if itemsCount == 0 {
        CloneKeepsItems(a.buckets);
        itemsCount, buckets := a.itemsCount, CloneBuckets(a.buckets);
        return;
      }
      SortedCorrect(a.buckets);
      SortedCorrect(buckets);
      buckets := Merge.Union(Sorted(buckets), Sorted(a.buckets));
      itemsCount := CountItems(buckets);
    }

    method Intersect(a: Set)
      requires Valid() && a.Valid() && a != this
      modifies this
      ensures Valid() && Items() == old(Items()) * a.Items()
    {
      hide B32.Items, B32.Valid, ListItems, Sorted;
      if itemsCount == 0 || a.itemsCount == 0 {
        EmptyList([]);
        itemsCount, buckets := 0, [];
        return;
      }
      SortedCorrect(a.buckets);
      SortedCorrect(buckets);
      buckets := Merge.Intersect(Sorted(buckets), Sorted(a.buckets));
      itemsCount := CountItems(buckets);
    }

    method DelAll(xs: seq<int>)
      requires Valid() && forall x :: x in xs ==> IsU64(x)
      modifies this
      ensures Valid() && Items() == old(Items()) - Elements(xs)
    {
      for k := 0 to |xs|
        invariant Valid() && Items() == old(Items()) - Elements(xs[..k])
      {
        assert xs[..k + 1] == xs[..k] + [xs[k]];
        Del(xs[k]);
      }
      assert xs[..|xs|] == xs;
    }

    method Shared(a: Set, xs: seq<int>) returns (ys: seq<int>)
      requires a.Valid() && forall x :: x in xs ==> IsU64(x)
      ensures Elements(ys) == Elements(xs) * a.Items()
    {
      ys := [];
      for k := 0 to |xs|
        invariant Elements(ys) == Elements(xs[..k]) * a.Items()
      {
        assert xs[..k + 1] == xs[..k] + [xs[k]];
        var found := a.Has(xs[k]);
        SharedStep(ys, xs[..k], a.Items(), xs[k]);
        if found {
          ys := ys + [xs[k]];
        }
      }
      assert xs[..|xs|] == xs;
    }

    method Subtract(a: Set)
      requires Valid() && a.Valid() && a != this
      modifies this
      ensures Valid() && Items() == old(Items()) - a.Items()
    {
      if itemsCount == 0 || a.itemsCount == 0 {
        return;
      }
      ListItemsAreU64(a.buckets);
      ListItemsAreU64(buckets);
      if itemsCount >= a.itemsCount {
        var xs := Visit(a.buckets);
        assert forall x :: x in xs ==> x in Elements(xs);
        DelAll(xs);
      } else {
        var xs := Visit(buckets);
        assert forall x :: x in xs ==> x in Elements(xs);
        var doomed := Shared(a, xs);
        assert forall x :: x in doomed ==> x in Elements(doomed);
        DelAll(doomed);
      }
    }

    /** Equal sizes and one-way inclusion decide equality. */
    method Equal(a: Set) returns (same: bool)
      requires Valid() && a.Valid()
      ensures same <==> Items() == a.Items()
    {
      if itemsCount != a.itemsCount {
        return false;
      }
      ListItemsAreU64(a.buckets);
      var xs := Visit(a.buckets);
      ghost var mine := Items();
      for k := 0 to |xs|
        invariant forall m :: 0 <= m < k ==> xs[m] in mine
      {
        assert xs[k] in Elements(xs);
        var found := Has(xs[k]);
        if !found {
          return false;
        }
      }
      IncludedAndEqualSize(a.Items(), Items());
      same := true;
    }
  }

  lemma SharedStep(ys: seq<int>, xs: seq<int>, s: set<int>, x: int)
    requires Elements(ys) == Elements(xs) * s
    ensures x in s ==> Elements(ys + [x]) == Elements(xs + [x]) * s
    ensures x !in s ==> Elements(ys) == Elements(xs + [x]) * s
  {
    assert Elements(xs + [x]) == Elements(xs) + {x};
    assert Elements(ys + [x]) == Elements(ys) + {x};
  }

  lemma IncludedAndEqualSize(s: set<int>, t: set<int>)
    requires s <= t && |s| == |t|
    ensures s == t
  {
    assert |t - s| == |t| - |s|;
    assert t - s == {};
  }
}
