/** The middle level: 32-bit values in buckets keyed by their high 16 bits. */
module Bucket32Level {
  import opened Listing
  import opened Slots
  import B16 = Bucket16Level

  const U16_SIZE := 0x1_0000
  const U32_SIZE := 0x1_0000_0000

  datatype Bucket32 = Bucket32(hi: int, hint: nat, b16his: seq<int>, buckets: seq<B16.Bucket16>)

  /** `Bucket32::default()`, whose key is 0. */
  const EMPTY_BUCKET := Bucket32(0, 0, [], [])

  ghost predicate ValidSlots(his: seq<int>, bs: seq<B16.Bucket16>) {
    && |his| == |bs|
    && (forall i :: 0 <= i < |his| ==> B16.IsU16(his[i]))
    && (forall i :: 0 <= i < |bs| ==> B16.Valid(bs[i]))
  }

  /** A stale `hint` is allowed: nothing constrains it. */
  ghost predicate Valid(b: Bucket32) {
    0 <= b.hi < U32_SIZE && ValidSlots(b.b16his, b.buckets) && Ascending(b.b16his)
  }

  ghost function Bases(his: seq<int>): seq<int> {
    seq(|his|, i requires 0 <= i < |his| => U16_SIZE * his[i])
  }

  ghost function Sets(bs: seq<B16.Bucket16>): seq<set<int>>
    requires forall i :: 0 <= i < |bs| ==> B16.Valid(bs[i])
  {
    seq(|bs|, i requires 0 <= i < |bs| => B16.Items(bs[i]))
  }

  ghost function SlotItems(his: seq<int>, bs: seq<B16.Bucket16>): set<int>
    requires ValidSlots(his, bs)
  {
    Total(Bases(his), Sets(bs))
  }

  /** The set of 32-bit values a bucket stands for. */
  ghost function Items(b: Bucket32): set<int>
    requires Valid(b)
  {
    SlotItems(b.b16his, b.buckets)
  }

  ghost predicate InSlot(his: seq<int>, bs: seq<B16.Bucket16>, x: int)
    requires ValidSlots(his, bs)
  {
    exists i :: 0 <= i < |his| && his[i] == x / U16_SIZE && x % U16_SIZE in B16.Items(bs[i])
  }

  lemma SlotMember(his: seq<int>, bs: seq<B16.Bucket16>, x: int)
    requires ValidSlots(his, bs)
    ensures x in SlotItems(his, bs) <==> InSlot(his, bs, x)
  {
    TotalMember(Bases(his), Sets(bs), x);
    if InSlot(his, bs, x) {
      var i :| 0 <= i < |his| && his[i] == x / U16_SIZE && x % U16_SIZE in B16.Items(bs[i]);
      assert x - Bases(his)[i] in Sets(bs)[i];
    }
    if Stored(Bases(his), Sets(bs), x) {
      var i :| 0 <= i < |his| && x - Bases(his)[i] in Sets(bs)[i];
      assert B16.IsU16(x - U16_SIZE * his[i]);
      assert his[i] == x / U16_SIZE;
    }
  }

  lemma ItemsAreU32(b: Bucket32)
    requires Valid(b)
    ensures forall x :: x in Items(b) ==> 0 <= x < U32_SIZE
  {
    forall x | x in Items(b) ensures 0 <= x < U32_SIZE {
      SlotMember(b.b16his, b.buckets, x);
    }
  }

  lemma EmptySlots(his: seq<int>, bs: seq<B16.Bucket16>)
    requires |his| == |bs| == 0
    ensures ValidSlots(his, bs) && SlotItems(his, bs) == {}
  {
    EmptyTotal(Bases(his), Sets(bs));
  }

  lemma SlotPush(his: seq<int>, bs: seq<B16.Bucket16>, k: int, v: B16.Bucket16)
    requires ValidSlots(his, bs) && B16.IsU16(k) && B16.Valid(v)
    ensures ValidSlots(his + [k], bs + [v])
    ensures SlotItems(his + [k], bs + [v]) == SlotItems(his, bs) + Shift(U16_SIZE * k, B16.Items(v))
  {
    assert Bases(his + [k]) == Bases(his) + [U16_SIZE * k];
    assert Sets(bs + [v]) == Sets(bs) + [B16.Items(v)];
    TotalPush(Bases(his), Sets(bs), U16_SIZE * k, B16.Items(v));
  }

  lemma SlotTake(his: seq<int>, bs: seq<B16.Bucket16>, j: nat)
    requires ValidSlots(his, bs) && j < |his|
    ensures ValidSlots(his[..j], bs[..j]) && ValidSlots(his[..j + 1], bs[..j + 1])
    ensures SlotItems(his[..j + 1], bs[..j + 1])
         == SlotItems(his[..j], bs[..j]) + Shift(U16_SIZE * his[j], B16.Items(bs[j]))
  {
    assert his[..j + 1] == his[..j] + [his[j]];
    assert bs[..j + 1] == bs[..j] + [bs[j]];
    SlotPush(his[..j], bs[..j], his[j], bs[j]);
  }

  lemma SlotGrow(his: seq<int>, bs: seq<B16.Bucket16>, i: nat, v: B16.Bucket16, extra: set<int>)
    requires ValidSlots(his, bs) && i < |his| && B16.Valid(v) && B16.Items(v) == B16.Items(bs[i]) + extra
    ensures ValidSlots(his, bs[i := v])
    ensures SlotItems(his, bs[i := v]) == SlotItems(his, bs) + Shift(U16_SIZE * his[i], extra)
  {
    assert Sets(bs[i := v]) == Sets(bs)[i := Sets(bs)[i] + extra];
    TotalGrow(Bases(his), Sets(bs), i, extra);
  }

  lemma BasesSpliced(his: seq<int>, pos: nat, k: int)
    requires pos <= |his|
    ensures Bases(his[..pos] + [k] + his[pos..]) == Bases(his)[..pos] + [U16_SIZE * k] + Bases(his)[pos..]
  {
  }

  lemma SetsSpliced(bs: seq<B16.Bucket16>, pos: nat, v: B16.Bucket16)
    requires pos <= |bs| && B16.Valid(v) && forall i :: 0 <= i < |bs| ==> B16.Valid(bs[i])
    ensures var r := bs[..pos] + [v] + bs[pos..];
            && (forall i :: 0 <= i < |r| ==> B16.Valid(r[i]))
            && Sets(r) == Sets(bs)[..pos] + [B16.Items(v)] + Sets(bs)[pos..]
  {
    var r := bs[..pos] + [v] + bs[pos..];
    forall i | 0 <= i < |r| ensures B16.Valid(r[i]) {
      assert r[i] == if i < pos then bs[i] else if i == pos then v else bs[i - 1];
    }
    var t := Sets(bs)[..pos] + [B16.Items(v)] + Sets(bs)[pos..];
    forall i | 0 <= i < |r| ensures Sets(r)[i] == t[i] {
      assert r[i] == if i < pos then bs[i] else if i == pos then v else bs[i - 1];
    }
  }

  lemma SlotInsertEmpty(his: seq<int>, bs: seq<B16.Bucket16>, pos: nat, k: int)
    requires ValidSlots(his, bs) && pos <= |his| && B16.IsU16(k)
    ensures ValidSlots(his[..pos] + [k] + his[pos..], bs[..pos] + [B16.EmptyBucket()] + bs[pos..])
    ensures SlotItems(his[..pos] + [k] + his[pos..], bs[..pos] + [B16.EmptyBucket()] + bs[pos..]) == SlotItems(his, bs)
  {
    hide B16.Valid, B16.Items, B16.EmptyBucket, Total;
    B16.EmptyBucketIsEmpty();
    BasesSpliced(his, pos, k);
    SetsSpliced(bs, pos, B16.EmptyBucket());
    TotalInsertEmpty(Bases(his), Sets(bs), pos, U16_SIZE * k);
  }

  lemma SlotShrink(his: seq<int>, bs: seq<B16.Bucket16>, n: nat, v: B16.Bucket16, x: int)
    requires ValidSlots(his, bs) && Ascending(his) && n < |his| && his[n] == x / U16_SIZE
    requires B16.Valid(v) && B16.Items(v) == B16.Items(bs[n]) - {x % U16_SIZE}
    ensures ValidSlots(his, bs[n := v])
    ensures SlotItems(his, bs[n := v]) == SlotItems(his, bs) - {x}
  {
    var b2 := bs[n := v];
    forall y ensures y in SlotItems(his, b2) <==> y in SlotItems(his, bs) && y != x {
      SlotMember(his, b2, y);
      SlotMember(his, bs, y);
      if InSlot(his, b2, y) {
        var i :| 0 <= i < |his| && his[i] == y / U16_SIZE && y % U16_SIZE in B16.Items(b2[i]);
        assert y % U16_SIZE in B16.Items(bs[i]);
      }
      if InSlot(his, bs, y) && y != x {
        var i :| 0 <= i < |his| && his[i] == y / U16_SIZE && y % U16_SIZE in B16.Items(bs[i]);
        assert y % U16_SIZE in B16.Items(b2[i]);
      }
    }
  }

  /** With its key at slot `n`, membership is decided by that slot. */
  lemma AtKey(b: Bucket32, n: nat, x: int)
    requires Valid(b) && n < |b.b16his| && b.b16his[n] == x / U16_SIZE
    ensures x in Items(b) <==> x % U16_SIZE in B16.Items(b.buckets[n])
  {
    SlotMember(b.b16his, b.buckets, x);
  }

  lemma NoKey(b: Bucket32, x: int)
    requires Valid(b) && x / U16_SIZE !in b.b16his
    ensures x !in Items(b)
  {
    SlotMember(b.b16his, b.buckets, x);
  }

  lemma Recombine(x: int)
    ensures Shift(U16_SIZE * (x / U16_SIZE), {x % U16_SIZE}) == {x}
  {
    forall v ensures v in Shift(U16_SIZE * (x / U16_SIZE), {x % U16_SIZE}) <==> v in {x} {
      ShiftMember(U16_SIZE * (x / U16_SIZE), {x % U16_SIZE}, v);
    }
  }

  // ----- counting

  ghost function SlotSizes(bs: seq<B16.Bucket16>): nat
    requires forall i :: 0 <= i < |bs| ==> B16.Valid(bs[i])
  {
    SumSizes(Sets(bs))
  }

  lemma SlotCardinality(his: seq<int>, bs: seq<B16.Bucket16>)
    requires ValidSlots(his, bs) && Distinct(his)
    ensures |SlotItems(his, bs)| == SlotSizes(bs)
  {
    var bases, sets := Bases(his), Sets(bs);
    forall i, j, x, y | 0 <= i < j < |bases| && x in sets[i] && y in sets[j] ensures bases[i] + x != bases[j] + y {
      assert B16.IsU16(x) && B16.IsU16(y) && his[i] != his[j];
    }
    TotalCardinality(bases, sets);
  }

  method GetLen(b: Bucket32) returns (n: nat)
    requires Valid(b)
    ensures n == |Items(b)|
  {
    n := 0;
    for i := 0 to |b.buckets|
      invariant n == SlotSizes(b.buckets[..i])
    {
      assert Sets(b.buckets[..i + 1])[..i] == Sets(b.buckets[..i]);
      var len := B16.GetLen(b.buckets[i]);
      n := n + len;
    }
    assert b.buckets[..|b.buckets|] == b.buckets;
    SlotCardinality(b.b16his, b.buckets);
  }

  // ----- point operations

  /** The least position whose element is not below `x`. */
  method BinarySearch16(u16s: seq<int>, x: int) returns (n: nat)
    requires Ascending(u16s)
    ensures n <= |u16s|
    ensures forall i :: 0 <= i < n ==> u16s[i] < x
    ensures forall i :: n <= i < |u16s| ==> x <= u16s[i]
  {
    n := |u16s|;
    if n > 0 && u16s[n - 1] < x {
      return;
    }
    var i, j := 0, n;
    while i < j
      invariant 0 <= i <= j <= |u16s|
      invariant forall k :: 0 <= k < i ==> u16s[k] < x
      invariant forall k :: j <= k < |u16s| ==> x <= u16s[k]
    {
      var h := (i + j) / 2;
      if u16s[h] < x {
        i := h + 1;
      } else {
        j := h;
      }
    }
    n := i;
  }

  /** Inserts an empty bucket for key `hi` at `pos`. */
  function AddBucketAtPos(b: Bucket32, hi: int, pos: nat): Bucket32
    requires |b.b16his| == |b.buckets|
  {
    if pos >= |b.b16his| then
      Bucket32(b.hi, b.hint, b.b16his + [hi], b.buckets + [B16.EmptyBucket()])
    else
      Bucket32(b.hi, b.hint, b.b16his[..pos] + [hi] + b.b16his[pos..],
               b.buckets[..pos] + [B16.EmptyBucket()] + b.buckets[pos..])
  }

  lemma AddBucketKeepsItems(b: Bucket32, hi: int, pos: nat)
    requires Valid(b) && B16.IsU16(hi) && pos <= |b.b16his|
    requires forall i :: 0 <= i < pos ==> b.b16his[i] < hi
    requires forall i :: pos <= i < |b.b16his| ==> hi < b.b16his[i]
    ensures var r := AddBucketAtPos(b, hi, pos);
            && Valid(r) && Items(r) == Items(b)
            && |r.b16his| == |b.b16his| + 1 && r.b16his[pos] == hi && r.buckets[pos] == B16.EmptyBucket()
  {
    hide B16.Valid, B16.Items, SlotItems, B16.EmptyBucket;
    SlotInsertEmpty(b.b16his, b.buckets, pos, hi);
    AscendingSpliced(b.b16his, pos, hi);
    assert b.b16his[..|b.b16his|] + [hi] + b.b16his[|b.b16his|..] == b.b16his + [hi];
    assert b.buckets[..|b.b16his|] + [B16.EmptyBucket()] + b.buckets[|b.b16his|..] == b.buckets + [B16.EmptyBucket()];
  }

  method AddAt(b: Bucket32, n: nat, x: int) returns (r: Bucket32, added: bool)
    requires Valid(b) && n < |b.b16his| && b.b16his[n] == x / U16_SIZE
    ensures Valid(r) && Items(r) == Items(b) + {x} && r.hi == b.hi
    ensures added <==> x !in Items(b)
  {
    var v;
    v, added := B16.Add(b.buckets[n], x % U16_SIZE);
    AtKey(b, n, x);
    SlotGrow(b.b16his, b.buckets, n, v, {x % U16_SIZE});
    Recombine(x);
    r := b.(buckets := b.buckets[n := v]);
  }

  method GetOrCreateBucket16(b: Bucket32, hi: int) returns (r: Bucket32, n: nat)
    requires Valid(b) && B16.IsU16(hi)
    ensures Valid(r) && Items(r) == Items(b) && r.hi == b.hi
    ensures n < |r.b16his| && r.b16his[n] == hi
  {
    n := BinarySearch16(b.b16his, hi);
    r := b;
    if n >= |b.b16his| || b.b16his[n] != hi {
      AddBucketKeepsItems(b, hi, n);
      r := AddBucketAtPos(b, hi, n);
    }
  }

  method AddSlow(b: Bucket32, x: int) returns (r: Bucket32, added: bool)
    requires Valid(b) && 0 <= x < U32_SIZE
    ensures Valid(r) && Items(r) == Items(b) + {x} && r.hi == b.hi
    ensures added <==> x !in Items(b)
  {
    var hi := x / U16_SIZE;
    var n := BinarySearch16(b.b16his, hi);
    if n >= |b.b16his| || b.b16his[n] != hi {
      NoKey(b, x);
      AddBucketKeepsItems(b, hi, n);
      r := AddBucketAtPos(b, hi, n);
      r, added := AddAt(r, n, x);
      return r, true;
    }
    r, added := AddAt(b.(hint := n), n, x);
  }

  method Add(b: Bucket32, x: int) returns (r: Bucket32, added: bool)
    requires Valid(b) && 0 <= x < U32_SIZE
    ensures Valid(r) && Items(r) == Items(b) + {x} && r.hi == b.hi
    ensures added <==> x !in Items(b)
  {
    var n := b.hint;
    if n < |b.b16his| && b.b16his[n] == x / U16_SIZE {
      r, added := AddAt(b, n, x);
    } else {
      r, added := AddSlow(b, x);
    }
  }

  method Has(b: Bucket32, x: int) returns (found: bool)
    requires Valid(b) && 0 <= x < U32_SIZE
    ensures found <==> x in Items(b)
  {
    var hi := x / U16_SIZE;
    var n := BinarySearch16(b.b16his, hi);
    if n >= |b.b16his| || b.b16his[n] != hi {
      NoKey(b, x);
      return false;
    }
    AtKey(b, n, x);
    found := B16.Has(b.buckets[n], x % U16_SIZE);
  }

  method DelAt(b: Bucket32, n: nat, x: int) returns (r: Bucket32, removed: bool)
    requires Valid(b) && n < |b.b16his| && b.b16his[n] == x / U16_SIZE
    ensures Valid(r) && Items(r) == Items(b) - {x} && r.hi == b.hi
    ensures removed <==> x in Items(b)
  {
    var v;
    v, removed := B16.Del(b.buckets[n], x % U16_SIZE);
    AtKey(b, n, x);
    SlotShrink(b.b16his, b.buckets, n, v, x);
    r := b.(buckets := b.buckets[n := v]);
  }

  method Del(b: Bucket32, x: int) returns (r: Bucket32, removed: bool)
    requires Valid(b) && 0 <= x < U32_SIZE
    ensures Valid(r) && Items(r) == Items(b) - {x} && r.hi == b.hi
    ensures removed <==> x in Items(b)
  {
    var hi, n := x / U16_SIZE, b.hint;
    if n < |b.b16his| && b.b16his[n] == hi {
      r, removed := DelAt(b, n, x);
      return;
    }
    n := BinarySearch16(b.b16his, hi);
    if n >= |b.b16his| || b.b16his[n] != hi {
      NoKey(b, x);
      return b, false;
    }
    r, removed := DelAt(b.(hint := n), n, x);
  }
}
