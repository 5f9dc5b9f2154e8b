/** Bulk operations of 32-bit buckets: adding clustered items and listing all items in order. */
module Bucket32Bulk {
  import opened Listing
  import opened Slots
  import opened Bucket32Level
  import B16 = Bucket16Level

  /** The low 32 bits of the items of `a`. */
  ghost function Low32(a: seq<int>): set<int> {
    if a == [] then {} else Low32(a[..|a| - 1]) + {a[|a| - 1] % U32_SIZE}
  }

  /** The key of the 16-bit bucket an item falls into. */
  function Key16(x: int): (key: int)
    ensures 0 <= key < U16_SIZE
  {
    x / U16_SIZE % U16_SIZE
  }

  lemma SplitLow32(x: int)
    ensures x % U32_SIZE == U16_SIZE * Key16(x) + x % U16_SIZE
  {
  }

  lemma {:induction false} Low32OfGroup(g: seq<int>, hi: int)
    requires forall k :: 0 <= k < |g| ==> Key16(g[k]) == hi
    ensures Low32(g) == Shift(U16_SIZE * hi, B16.Low16(g))
  {
    if g == [] {
      assert Shift(U16_SIZE * hi, {}) == {};
    } else {
      var n := |g| - 1;
      Low32OfGroup(g[..n], hi);
      SplitLow32(g[n]);
      ShiftUnion(U16_SIZE * hi, B16.Low16(g[..n]), {g[n] % U16_SIZE});
      ShiftOne(U16_SIZE * hi, g[n] % U16_SIZE);
    }
  }

  lemma ShiftOne(c: int, y: int)
    ensures Shift(c, {y}) == {c + y}
  {
  }

  lemma {:induction false} Low32Concat(a: seq<int>, b: seq<int>)
    ensures Low32(a + b) == Low32(a) + Low32(b)
  {
    if b == [] {
      assert a + b == a;
    } else {
      var n := |b| - 1;
      Low32Concat(a, b[..n]);
      assert (a + b)[..|a + b| - 1] == a + b[..n];
    }
  }

  /** Adds a run of items that share one 16-bit bucket. */
  method AddGroup(b: Bucket32, hi: int, g: seq<int>) returns (r: Bucket32, count: nat)
    requires Valid(b) && 0 <= hi < U16_SIZE && forall k :: 0 <= k < |g| ==> Key16(g[k]) == hi
    ensures Valid(r) && r.hi == b.hi && Items(r) == Items(b) + Low32(g)
    ensures count == |Items(r)| - |Items(b)|
  {
    var n;
    r, n := GetOrCreateBucket16(b, hi);
    var v;
    v, count := B16.AddMulti(r.buckets[n], g);
    GroupAdded(r, n, v, g);
    hide Items, Low32, B16.Items, B16.Low16;
    r := r.(buckets := r.buckets[n := v]);
  }

  /** Growing one slot by a group of its items grows the bucket by the group, and counts as much. */
  lemma GroupAdded(b: Bucket32, n: nat, v: B16.Bucket16, g: seq<int>)
    requires Valid(b) && n < |b.b16his| && forall k :: 0 <= k < |g| ==> Key16(g[k]) == b.b16his[n]
    requires B16.Valid(v) && B16.Items(v) == B16.Items(b.buckets[n]) + B16.Low16(g)
    ensures var r := b.(buckets := b.buckets[n := v]);
            && Valid(r) && Items(r) == Items(b) + Low32(g)
            && |Items(r)| - |Items(b)| == |B16.Items(v)| - |B16.Items(b.buckets[n])|
  {
    Low32OfGroup(g, b.b16his[n]);
    SlotGrow(b.b16his, b.buckets, n, v, B16.Low16(g));
    SlotCount(b.b16his, b.buckets, n, v);
    hide Low32, SlotItems, ValidSlots;
  }

  lemma SlotCount(his: seq<int>, bs: seq<B16.Bucket16>, n: nat, v: B16.Bucket16)
    requires ValidSlots(his, bs) && n < |his| && B16.Valid(v) && ValidSlots(his, bs[n := v]) && Ascending(his)
    ensures |SlotItems(his, bs[n := v])| - |SlotItems(his, bs)| == |B16.Items(v)| - |B16.Items(bs[n])|
  {
    assert Distinct(his);
    assert Sets(bs[n := v]) == Sets(bs)[n := B16.Items(v)];
    SlotCardinality(his, bs);
    SlotCardinality(his, bs[n := v]);
    hide SlotItems, Ascending, Distinct;
    SumSizesUpdate(Sets(bs), n, B16.Items(v));
  }

  /** `r` holds `start` and the low halves of the first `i` items of `a`. */
  ghost predicate Loaded(r: Bucket32, hi: int, start: set<int>, a: seq<int>, i: nat) {
    i <= |a| && Valid(r) && r.hi == hi && Items(r) == start + Low32(a[..i])
  }

  lemma LowSplit(start: set<int>, a: seq<int>, i: nat, j: nat)
    requires i <= j <= |a|
    ensures start + Low32(a[..i]) + Low32(a[i..j]) == start + Low32(a[..j])
  {
    Low32Concat(a[..i], a[i..j]);
    assert a[..j] == a[..i] + a[i..j];
    UnionAssociative(start, Low32(a[..i]), Low32(a[i..j]));
  }

  /** How many items the first `i` of `a` add to `start`. */
  ghost function Gained(start: set<int>, a: seq<int>, i: nat): int
    requires i <= |a|
  {
    |start + Low32(a[..i])| - |start|
  }

  method AddRun(r0: Bucket32, ghost hi: int, ghost start: set<int>, a: seq<int>, i: nat, j: nat, key: int)
    returns (r: Bucket32, added: nat)
    requires Loaded(r0, hi, start, a, i) && i <= j <= |a| && 0 <= key < U16_SIZE
    requires forall k :: i <= k < j ==> Key16(a[k]) == key
    ensures Loaded(r, hi, start, a, j) && added == Gained(start, a, j) - Gained(start, a, i)
  {
    hide Valid, Items;
    LowSplit(start, a, i, j);
    r, added := AddGroup(r0, key, a[i..j]);
  }

  lemma NothingLoaded(b: Bucket32, a: seq<int>)
    requires Valid(b)
    ensures Loaded(b, b.hi, Items(b), a, 0) && Gained(Items(b), a, 0) == 0
  {
    hide Items;
    assert a[..0] == [];
    assert Items(b) + {} == Items(b);
  }

  method AddRuns(b: Bucket32, a: seq<int>) returns (r: Bucket32, count: nat)
    requires Valid(b)
    ensures Loaded(r, b.hi, Items(b), a, |a|)
    ensures count == Gained(Items(b), a, |a|)
  {
    r, count := b, 0;
    ghost var start := Items(b);
    NothingLoaded(b, a);
    hide Loaded, Valid, Items, Gained, Key16;
    if a == [] {
      return;
    }
    var hiPrev, i, added := Key16(a[0]), 0, 0;
    for j := 0 to |a|
      invariant 0 <= i <= j && 0 <= hiPrev < U16_SIZE && Loaded(r, b.hi, start, a, i)
      invariant forall k :: i <= k < j ==> Key16(a[k]) == hiPrev
      invariant count == Gained(start, a, i)
    {
      var hi := Key16(a[j]);
      if hi == hiPrev {
        continue;
      }
      r, added := AddRun(r, b.hi, start, a, i, j, hiPrev);
      count := count + added;
      hiPrev, i := hi, j;
    }
    r, added := AddRun(r, b.hi, start, a, i, |a|, hiPrev);
    count := count + added;
  }

  /** Adds the low 32 bits of all items, one bucket lookup per run of equal keys. */
  method AddMulti(b: Bucket32, a: seq<int>) returns (r: Bucket32, count: nat)
    requires Valid(b)
    ensures Valid(r) && r.hi == b.hi && Items(r) == Items(b) + Low32(a)
    ensures count == |Items(r)| - |Items(b)|
  {
    hide Valid, Items, Low32;
    r, count := AddRuns(b, a);
    assert a[..|a|] == a;
  }

  lemma SlotsBelow(his: seq<int>, bs: seq<B16.Bucket16>, i: nat)
    requires ValidSlots(his, bs) && Ascending(his) && i < |his|
    ensures ValidSlots(his[..i], bs[..i])
    ensures forall x, y :: x in SlotItems(his[..i], bs[..i]) && y in B16.Items(bs[i]) ==> x < U16_SIZE * his[i] + y
  {
    forall x, y | x in SlotItems(his[..i], bs[..i]) && y in B16.Items(bs[i]) ensures x < U16_SIZE * his[i] + y {
      SlotMember(his[..i], bs[..i], x);
      var k :| 0 <= k < i && his[..i][k] == x / U16_SIZE && x % U16_SIZE in B16.Items(bs[..i][k]);
      assert his[k] < his[i];
    }
  }

  /** Appends the bucket's values in ascending order, offset by its own key. */
  method AppendTo(b: Bucket32, dst: seq<int>) returns (out: seq<int>, ghost q: seq<int>)
    requires Valid(b)
    ensures out == dst + q && ListsFrom(q, U32_SIZE * b.hi, Items(b))
  {
    out, q := dst, [];
    var base := U32_SIZE * b.hi;
    ghost var done := {};
    EmptySlots(b.b16his[..0], b.buckets[..0]);
    for i := 0 to |b.buckets|
      invariant out == dst + q && ListsFrom(q, base, done)
      invariant ValidSlots(b.b16his[..i], b.buckets[..i]) && done == SlotItems(b.b16his[..i], b.buckets[..i])
    {
      ghost var p;
      out, p := B16.AppendTo(b.buckets[i], out, base + U16_SIZE * b.b16his[i]);
      done := AppendStep(b, base, q, done, p, i);
      hide ListsFrom, SlotItems, B16.Items;
      assert dst + q + p == dst + (q + p);
      q := q + p;
    }
    assert b.b16his[..|b.buckets|] == b.b16his && b.buckets[..|b.buckets|] == b.buckets;
  }

  lemma AppendStep(b: Bucket32, base: int, q: seq<int>, done: set<int>, p: seq<int>, i: nat) returns (more: set<int>)
    requires Valid(b) && i < |b.buckets| && ValidSlots(b.b16his[..i], b.buckets[..i])
    requires done == SlotItems(b.b16his[..i], b.buckets[..i]) && ListsFrom(q, base, done)
    requires ListsFrom(p, base + U16_SIZE * b.b16his[i], B16.Items(b.buckets[i]))
    ensures ValidSlots(b.b16his[..i + 1], b.buckets[..i + 1])
    ensures more == SlotItems(b.b16his[..i + 1], b.buckets[..i + 1]) && ListsFrom(q + p, base, more)
  {
    SlotsBelow(b.b16his, b.buckets, i);
    SlotTake(b.b16his, b.buckets, i);
    more := done + Shift(U16_SIZE * b.b16his[i], B16.Items(b.buckets[i]));
    ListsConcat(q, base, done, p, U16_SIZE * b.b16his[i], B16.Items(b.buckets[i]));
  }

  // ----- handing out the items in parts

  function Flat(parts: seq<seq<int>>): seq<int> {
    if parts == [] then [] else Flat(parts[..|parts| - 1]) + parts[|parts| - 1]
  }

  lemma FlatSnoc(parts: seq<seq<int>>, p: seq<int>)
    ensures Flat(parts + [p]) == Flat(parts) + p
  {
    assert (parts + [p])[..|parts|] == parts;
  }

  /** The callback was asked after every part from the n-th on; `on` says that it never stopped, else the last stopped it. */
  ghost predicate Asked(go: seq<seq<int>> -> bool, n: nat, parts: seq<seq<int>>, on: bool) {
    && n <= |parts| && (on || n < |parts|)
    && (forall k :: n < k < |parts| ==> go(parts[..k])) && (n < |parts| ==> go(parts) == on)
  }

  lemma AskedMore(go: seq<seq<int>> -> bool, n: nat, parts: seq<seq<int>>, p: seq<int>)
    requires Asked(go, n, parts, true)
    ensures Asked(go, n, parts + [p], go(parts + [p]))
  {
    var more := parts + [p];
    forall k | n < k < |more| ensures go(more[..k]) {
      assert more[..k] == if k < |parts| then parts[..k] else parts;
    }
  }

  /** Slots before the i-th hold items of the bucket. */
  lemma FirstSlots(b: Bucket32, i: nat)
    requires Valid(b) && i <= |b.buckets| && ValidSlots(b.b16his[..i], b.buckets[..i])
    ensures SlotItems(b.b16his[..i], b.buckets[..i]) <= Items(b)
    ensures i == |b.buckets| ==> SlotItems(b.b16his[..i], b.buckets[..i]) == Items(b)
  {
    if i == |b.buckets| {
      assert b.b16his[..i] == b.b16his && b.buckets[..i] == b.buckets;
    }
    forall x | x in SlotItems(b.b16his[..i], b.buckets[..i]) ensures x in Items(b) {
      SlotMember(b.b16his[..i], b.buckets[..i], x);
      SlotMember(b.b16his, b.buckets, x);
      var k :| 0 <= k < i && b.b16his[..i][k] == x / U16_SIZE && x % U16_SIZE in B16.Items(b.buckets[..i][k]);
      assert b.b16his[k] == x / U16_SIZE;
    }
  }

  /** `q` lists `done`, the items of the slots before the i-th. */
  ghost predicate Handed(b: Bucket32, i: nat, q: seq<int>, done: set<int>) {
    && Valid(b) && i <= |b.buckets| && ValidSlots(b.b16his[..i], b.buckets[..i])
    && done == SlotItems(b.b16his[..i], b.buckets[..i]) && ListsFrom(q, U32_SIZE * b.hi, done)
  }

  lemma HandedNone(b: Bucket32)
    requires Valid(b)
    ensures Handed(b, 0, [], {})
  {
    EmptySlots(b.b16his[..0], b.buckets[..0]);
  }

  lemma HandedMore(b: Bucket32, i: nat, q: seq<int>, done: set<int>, p: seq<int>) returns (more: set<int>)
    requires Handed(b, i, q, done) && i < |b.buckets|
    requires ListsFrom(p, U32_SIZE * b.hi + U16_SIZE * b.b16his[i], B16.Items(b.buckets[i]))
    ensures Handed(b, i + 1, q + p, more)
  {
    hide ListsFrom, SlotItems;
    more := AppendStep(b, U32_SIZE * b.hi, q, done, p, i);
  }

  lemma HandedItems(b: Bucket32, i: nat, q: seq<int>, done: set<int>)
    requires Handed(b, i, q, done)
    ensures Valid(b) && ListsFrom(q, U32_SIZE * b.hi, done) && done <= Items(b) && (i == |b.buckets| ==> done == Items(b))
  {
    FirstSlots(b, i);
  }

  lemma AskedNone(go: seq<seq<int>> -> bool, parts: seq<seq<int>>)
    ensures Asked(go, |parts|, parts, true)
  {
  }

  /** `for_each` of a bucket: one part for each slot, until the callback stops it. */
  method ForEach(b: Bucket32, parts0: seq<seq<int>>, go: seq<seq<int>> -> bool)
    returns (parts: seq<seq<int>>, on: bool, ghost q: seq<int>, ghost done: set<int>)
    requires Valid(b)
    ensures Asked(go, |parts0|, parts, on) && Flat(parts) == Flat(parts0) + q
    ensures parts0 <= parts && ListsFrom(q, U32_SIZE * b.hi, done) && done <= Items(b) && (on ==> done == Items(b))
  {
    hide Flat, Asked, Handed, Items, B16.Items, ListsFrom;
    parts, on, q, done := parts0, true, [], {};
    HandedNone(b);
    AskedNone(go, parts0);
    for i := 0 to |b.buckets|
      invariant Asked(go, |parts0|, parts, true) && parts0 <= parts && on
      invariant Flat(parts) == Flat(parts0) + q && Handed(b, i, q, done)
    {
      var buf, p := B16.AppendTo(b.buckets[i], [], U32_SIZE * b.hi + U16_SIZE * b.b16his[i]);
      assert buf == p;
      done := HandedMore(b, i, q, done, p);
      AskedMore(go, |parts0|, parts, buf);
      FlatSnoc(parts, buf);
      assert Flat(parts0) + q + p == Flat(parts0) + (q + p);
      parts, q := parts + [buf], q + p;
      on := go(parts);
      if !on {
        HandedItems(b, i + 1, q, done);
        return;
      }
    }
    HandedItems(b, |b.buckets|, q, done);
  }
}
