/** Lists of 32-bit buckets in which keys may repeat but only the first bucket of a key holds items. */
module BucketList {
  import opened Listing
  import opened Slots
  import B32 = Bucket32Level

  const U32_SIZE := 0x1_0000_0000
  const U64_SIZE := 0x1_0000_0000_0000_0000

  type Bucket = B32.Bucket32

  ghost predicate AllValid(bs: seq<Bucket>) {
    forall i :: 0 <= i < |bs| ==> B32.Valid(bs[i])
  }

  ghost predicate Empty(b: Bucket)
    requires B32.Valid(b)
  {
    B32.Items(b) == {}
  }

  /** Keys may repeat, yet a bucket whose key occurs earlier is empty. */
  ghost predicate FirstHolds(bs: seq<Bucket>)
    requires AllValid(bs)
  {
    forall i, j :: 0 <= i < j < |bs| && bs[i].hi == bs[j].hi ==> Empty(bs[j])
  }

  predicate SortedByHi(bs: seq<Bucket>) {
    forall i, j :: 0 <= i < j < |bs| ==> bs[i].hi <= bs[j].hi
  }

  ghost function Bases(bs: seq<Bucket>): seq<int> {
    seq(|bs|, i requires 0 <= i < |bs| => U32_SIZE * bs[i].hi)
  }

  ghost function Sets(bs: seq<Bucket>): seq<set<int>>
    requires AllValid(bs)
  {
    seq(|bs|, i requires 0 <= i < |bs| => B32.Items(bs[i]))
  }

  /** The set of 64-bit values a bucket list stands for. */
  ghost function ListItems(bs: seq<Bucket>): set<int>
    requires AllValid(bs)
  {
    Total(Bases(bs), Sets(bs))
  }

  ghost predicate InList(bs: seq<Bucket>, hi: int, lo: int)
    requires AllValid(bs)
  {
    exists i :: 0 <= i < |bs| && bs[i].hi == hi && lo in B32.Items(bs[i])
  }

  lemma ListMember(bs: seq<Bucket>, x: int)
    requires AllValid(bs)
    ensures x in ListItems(bs) <==> InList(bs, x / U32_SIZE, x % U32_SIZE)
  {
    hide B32.Items, B32.Valid, Total;
    TotalMember(Bases(bs), Sets(bs), x);
    if InList(bs, x / U32_SIZE, x % U32_SIZE) {
      var i :| 0 <= i < |bs| && bs[i].hi == x / U32_SIZE && x % U32_SIZE in B32.Items(bs[i]);
      assert x - Bases(bs)[i] in Sets(bs)[i];
    }
    if Stored(Bases(bs), Sets(bs), x) {
      var i :| 0 <= i < |bs| && x - Bases(bs)[i] in Sets(bs)[i];
      B32.ItemsAreU32(bs[i]);
      assert bs[i].hi == x / U32_SIZE;
    }
  }

  lemma ListItemsAreU64(bs: seq<Bucket>)
    requires AllValid(bs)
    ensures forall x :: x in ListItems(bs) ==> 0 <= x < U64_SIZE
  {
    forall x | x in ListItems(bs) ensures 0 <= x < U64_SIZE {
      ListMember(bs, x);
    }
  }

  lemma EmptyList(bs: seq<Bucket>)
    requires bs == []
    ensures ListItems(bs) == {}
  {
    EmptyTotal(Bases(bs), Sets(bs));
  }

  lemma ListPush(bs: seq<Bucket>, b: Bucket)
    requires AllValid(bs) && B32.Valid(b)
    ensures AllValid(bs + [b])
    ensures ListItems(bs + [b]) == ListItems(bs) + Shift(U32_SIZE * b.hi, B32.Items(b))
  {
    hide B32.Items, B32.Valid, Total;
    assert Bases(bs + [b]) == Bases(bs) + [U32_SIZE * b.hi];
    assert Sets(bs + [b]) == Sets(bs) + [B32.Items(b)];
    TotalPush(Bases(bs), Sets(bs), U32_SIZE * b.hi, B32.Items(b));
  }

  lemma ListTake(bs: seq<Bucket>, j: nat)
    requires AllValid(bs) && j < |bs|
    ensures AllValid(bs[..j]) && AllValid(bs[..j + 1])
    ensures ListItems(bs[..j + 1]) == ListItems(bs[..j]) + Shift(U32_SIZE * bs[j].hi, B32.Items(bs[j]))
  {
    assert bs[..j + 1] == bs[..j] + [bs[j]];
    ListPush(bs[..j], bs[j]);
  }

  lemma ListGrow(bs: seq<Bucket>, i: nat, v: Bucket, extra: set<int>)
    requires AllValid(bs) && i < |bs| && B32.Valid(v) && v.hi == bs[i].hi
    requires B32.Items(v) == B32.Items(bs[i]) + extra
    ensures AllValid(bs[i := v])
    ensures ListItems(bs[i := v]) == ListItems(bs) + Shift(U32_SIZE * v.hi, extra)
  {
    hide B32.Items, B32.Valid, Total;
    assert Bases(bs[i := v]) == Bases(bs);
    assert Sets(bs[i := v]) == Sets(bs)[i := Sets(bs)[i] + extra];
    TotalGrow(Bases(bs), Sets(bs), i, extra);
  }

  /** `i` is the first bucket with key `hi`, or the length when there is none. */
  ghost predicate IsFirst(bs: seq<Bucket>, hi: int, i: nat) {
    && i <= |bs|
    && (i < |bs| ==> bs[i].hi == hi)
    && forall k :: 0 <= k < i ==> bs[k].hi != hi
  }

  /** Membership is decided by the first bucket with the item's key. */
  lemma FirstDecides(bs: seq<Bucket>, i: nat, x: int)
    requires AllValid(bs) && FirstHolds(bs) && IsFirst(bs, x / U32_SIZE, i)
    ensures x in ListItems(bs) <==> i < |bs| && x % U32_SIZE in B32.Items(bs[i])
  {
    ListMember(bs, x);
  }

  /** Replacing the first bucket of a key keeps the list well formed. */
  lemma UpdateFirst(bs: seq<Bucket>, i: nat, v: Bucket)
    requires AllValid(bs) && FirstHolds(bs) && i < |bs| && IsFirst(bs, bs[i].hi, i)
    requires B32.Valid(v) && v.hi == bs[i].hi
    ensures AllValid(bs[i := v]) && FirstHolds(bs[i := v])
  {
  }

  lemma ShrinkFirst(bs: seq<Bucket>, i: nat, v: Bucket, x: int)
    requires AllValid(bs) && FirstHolds(bs) && i < |bs| && IsFirst(bs, x / U32_SIZE, i)
    requires B32.Valid(v) && v.hi == bs[i].hi && B32.Items(v) == B32.Items(bs[i]) - {x % U32_SIZE}
    ensures AllValid(bs[i := v]) && ListItems(bs[i := v]) == ListItems(bs) - {x}
  {
    hide B32.Items, B32.Valid, ListItems;
    var r := bs[i := v];
    forall y ensures y in ListItems(r) <==> y in ListItems(bs) && y != x {
      ListMember(r, y);
      ListMember(bs, y);
      if InList(r, y / U32_SIZE, y % U32_SIZE) {
        var k :| 0 <= k < |r| && r[k].hi == y / U32_SIZE && y % U32_SIZE in B32.Items(r[k]);
        assert y % U32_SIZE in B32.Items(bs[k]) && bs[k].hi == y / U32_SIZE;
      }
      if InList(bs, y / U32_SIZE, y % U32_SIZE) && y != x {
        var k :| 0 <= k < |bs| && bs[k].hi == y / U32_SIZE && y % U32_SIZE in B32.Items(bs[k]);
        assert y % U32_SIZE in B32.Items(r[k]) && r[k].hi == y / U32_SIZE;
      }
    }
  }

  lemma RecombineSet(hi: int, lo: set<int>, x: int)
    requires lo == {x % U32_SIZE} && hi == x / U32_SIZE
    ensures Shift(U32_SIZE * hi, lo) == {x}
  {
    forall v ensures v in Shift(U32_SIZE * hi, lo) <==> v in {x} {
      ShiftMember(U32_SIZE * hi, lo, v);
    }
  }

  // ----- counting

  ghost function ListSizes(bs: seq<Bucket>): nat
    requires AllValid(bs)
  {
    SumSizes(Sets(bs))
  }

  lemma ListCardinality(bs: seq<Bucket>)
    requires AllValid(bs) && FirstHolds(bs)
    ensures |ListItems(bs)| == ListSizes(bs)
  {
    var bases, sets := Bases(bs), Sets(bs);
    forall i, j, x, y | 0 <= i < j < |bases| && x in sets[i] && y in sets[j] ensures bases[i] + x != bases[j] + y {
      B32.ItemsAreU32(bs[i]);
      B32.ItemsAreU32(bs[j]);
      assert !Empty(bs[j]);
    }
    TotalCardinality(bases, sets);
  }

  /** `fix_items_count`: the sum of the bucket sizes. */
  method CountItems(bs: seq<Bucket>) returns (n: nat)
    requires AllValid(bs) && FirstHolds(bs)
    ensures n == |ListItems(bs)|
  {
    n := 0;
    for i := 0 to |bs|
      invariant n == ListSizes(bs[..i])
    {
      assert Sets(bs[..i + 1])[..i] == Sets(bs[..i]);
      var len := B32.GetLen(bs[i]);
      n := n + len;
    }
    assert bs[..|bs|] == bs;
    ListCardinality(bs);
  }

  // ----- stable sorting

  function Keyed(bs: seq<Bucket>): (q: seq<(int, Bucket)>)
    ensures |q| == |bs| && forall i :: 0 <= i < |q| ==> q[i] == (bs[i].hi, bs[i])
  {
    seq(|bs|, i requires 0 <= i < |bs| => (bs[i].hi, bs[i]))
  }

  function Unkeyed(q: seq<(int, Bucket)>): (bs: seq<Bucket>)
    ensures |bs| == |q| && forall i :: 0 <= i < |q| ==> bs[i] == q[i].1
  {
    seq(|q|, i requires 0 <= i < |q| => q[i].1)
  }

  /** The bucket list in ascending key order, first buckets still first. */
  function Sorted(bs: seq<Bucket>): (r: seq<Bucket>) {
    if SortedByHi(bs) then bs else Unkeyed(StableSort(Keyed(bs)))
  }

  lemma ListIncluded(bs: seq<Bucket>, cs: seq<Bucket>)
    requires AllValid(bs) && AllValid(cs) && forall i :: 0 <= i < |bs| ==> bs[i] in cs
    ensures ListItems(bs) <= ListItems(cs)
  {
    forall x | x in ListItems(bs) ensures x in ListItems(cs) {
      ListMember(bs, x);
      ListMember(cs, x);
      var i :| 0 <= i < |bs| && bs[i].hi == x / U32_SIZE && x % U32_SIZE in B32.Items(bs[i]);
      var k :| 0 <= k < |cs| && cs[k] == bs[i];
      assert cs[k].hi == x / U32_SIZE;
    }
  }

  lemma SortedSlot(bs: seq<Bucket>, i: nat)
    requires i < |StableSort(Keyed(bs))|
    ensures var e := StableSort(Keyed(bs))[i]; e.1 in bs && e.0 == e.1.hi
  {
    var z := Keyed(bs);
    var q := StableSort(z);
    StableSortMember(z, q[i]);
    var k :| 0 <= k < |z| && z[k] == q[i];
    assert bs[k] == q[i].1;
  }

  lemma SortedElements(bs: seq<Bucket>)
    requires AllValid(bs)
    ensures AllValid(Sorted(bs)) && ListItems(Sorted(bs)) == ListItems(bs)
  {
    if !SortedByHi(bs) {
      var z := Keyed(bs);
      var q := StableSort(z);
      var r := Unkeyed(q);
      forall i | 0 <= i < |r| ensures r[i] in bs && B32.Valid(r[i]) {
        SortedSlot(bs, i);
      }
      forall i | 0 <= i < |bs| ensures bs[i] in r {
        StableSortMember(z, z[i]);
        var k :| 0 <= k < |q| && q[k] == z[i];
        assert r[k] == bs[i];
      }
      ListIncluded(bs, r);
      ListIncluded(r, bs);
    }
  }

  /** Stable sorting gives an ordered list with the same items, and each first bucket stays first. */
  lemma SortedCorrect(bs: seq<Bucket>)
    requires AllValid(bs) && FirstHolds(bs)
    ensures SortedByHi(Sorted(bs)) && AllValid(Sorted(bs))
    ensures FirstHolds(Sorted(bs)) && ListItems(Sorted(bs)) == ListItems(bs)
  {
    hide B32.Items, B32.Valid, ListItems;
    SortedElements(bs);
    if !SortedByHi(bs) {
      var z := Keyed(bs);
      var q := StableSort(z);
      var r := Unkeyed(q);
      StableSortSorts(z);
      var quiet := iset b: Bucket | B32.Valid(b) && Empty(b);
      StableSortKeepsFirst(z, quiet);
      forall i | 0 <= i < |q| ensures q[i].0 == r[i].hi {
        SortedSlot(bs, i);
      }
      forall i, j | 0 <= i < j < |r| && r[i].hi == r[j].hi ensures Empty(r[j]) {
        assert q[i].0 == q[j].0;
        assert q[j].1 in quiet;
      }
    }
  }
}
