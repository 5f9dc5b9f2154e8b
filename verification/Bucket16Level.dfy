/** The lowest level of the set: 16-bit values in a 56-item pool or in a bitmap of 1024 words. */
module Bucket16Level {
  import opened Options
  import opened Bits
  import opened Listing

  const SMALL_POOL_SIZE := 56
  const WORDS_PER_BUCKET := 1024
  const BITS_PER_BUCKET := 0x1_0000

  datatype Bucket16 = Bucket16(bits: Option<seq<Word>>, smallPool: seq<int>, smallPoolLen: nat)

  function ZeroPool(n: nat): (pool: seq<int>)
    ensures |pool| == n && forall i :: 0 <= i < n ==> pool[i] == 0
  {
    if n == 0 then [] else ZeroPool(n - 1) + [0]
  }

  /** `Bucket16::default()`. */
  function EmptyBucket(): Bucket16 {
    Bucket16(None, ZeroPool(SMALL_POOL_SIZE), 0)
  }

  predicate IsU16(x: int) {
    0 <= x < BITS_PER_BUCKET
  }

  ghost predicate Valid(b: Bucket16) {
    && |b.smallPool| == SMALL_POOL_SIZE
    && b.smallPoolLen <= SMALL_POOL_SIZE
    && (forall i :: 0 <= i < SMALL_POOL_SIZE ==> IsU16(b.smallPool[i]))
    && Distinct(b.smallPool[..b.smallPoolLen])
    && (b.bits.Some? ==> |b.bits.value| == WORDS_PER_BUCKET && b.smallPoolLen == 0)
  }

  predicate HasBit(ws: seq<Word>, x: int)
    requires 0 <= x < 64 * |ws|
  {
    ws[x / 64][x % 64]
  }

  /** The values stored in a bitmap of any number of words. */
  ghost function BitItems(ws: seq<Word>): set<int> {
    set x: int | 0 <= x < 64 * |ws| && HasBit(ws, x)
  }

  /** The set of 16-bit values a bucket stands for. */
  ghost function Items(b: Bucket16): (s: set<int>)
    requires Valid(b)
    ensures forall x :: x in s ==> IsU16(x)
  {
    if b.bits.None? then Elements(b.smallPool[..b.smallPoolLen])
    else BitItems(b.bits.value)
  }

  /** Nothing stored and no bitmap allocated. */
  predicate IsZero(b: Bucket16) {
    b.bits.None? && b.smallPoolLen == 0
  }

  lemma EmptyBucketIsEmpty()
    ensures Valid(EmptyBucket()) && Items(EmptyBucket()) == {}
  {
    assert EmptyBucket().smallPool[..0] == [];
  }

  lemma ZeroBucketIsEmpty(b: Bucket16)
    requires Valid(b) && IsZero(b)
    ensures Items(b) == {}
  {
    assert b.smallPool[..0] == [];
  }

  // ----- counting

  function SumOnes(ws: seq<Word>): nat {
    if ws == [] then 0 else SumOnes(ws[..|ws| - 1]) + CountOnes(ws[|ws| - 1])
  }

  lemma BitItemsSnoc(ws: seq<Word>, w: Word)
    ensures BitItems(ws + [w]) == BitItems(ws) + Shift(64 * |ws|, PositionsBelow(w, 64))
    ensures BitItems(ws) !! Shift(64 * |ws|, PositionsBelow(w, 64))
  {
    var high := Shift(64 * |ws|, PositionsBelow(w, 64));
    forall x ensures x in BitItems(ws + [w]) <==> x in BitItems(ws) || x in high {
      ShiftMember(64 * |ws|, PositionsBelow(w, 64), x);
      if 0 <= x < 64 * |ws| {
        assert (ws + [w])[x / 64] == ws[x / 64];
      }
    }
    assert forall x :: x in high ==> 64 * |ws| <= x;
  }

  lemma {:induction false} SumOnesCounts(ws: seq<Word>)
    ensures SumOnes(ws) == |BitItems(ws)|
  {
    if ws == [] {
      assert BitItems(ws) == {};
    } else {
      var last := |ws| - 1;
      SumOnesCounts(ws[..last]);
      BitItemsSnoc(ws[..last], ws[last]);
      assert ws == ws[..last] + [ws[last]];
      OnesArePositions(ws[last], 64);
      ShiftCardinality(64 * last, PositionsBelow(ws[last], 64));
    }
  }

  method GetLen(b: Bucket16) returns (n: nat)
    requires Valid(b)
    ensures n == |Items(b)|
  {
    if b.bits.None? {
      DistinctCardinality(b.smallPool[..b.smallPoolLen]);
      return b.smallPoolLen;
    }
    n := 0;
    var ws := b.bits.value;
    for i := 0 to |ws|
      invariant n == SumOnes(ws[..i])
    {
      assert ws[..i + 1][..i] == ws[..i];
      if ws[i] != ZERO_WORD {
        n := n + CountOnes(ws[i]);
      } else {
        ZeroWordHasNoOnes(64);
      }
    }
    assert ws[..|ws|] == ws;
    SumOnesCounts(ws);
  }

  lemma {:induction false} ZeroWordHasNoOnes(k: nat)
    requires k <= 64
    ensures OnesBelow(ZERO_WORD, k) == 0
  {
    if k > 0 {
      ZeroWordHasNoOnes(k - 1);
    }
  }

  // ----- bitmap updates

  function SetBit(ws: seq<Word>, x: int): (r: seq<Word>)
    requires 0 <= x < 64 * |ws|
    ensures |r| == |ws|
  {
    ws[x / 64 := ws[x / 64][x % 64 := true]]
  }

  function ClearBit(ws: seq<Word>, x: int): (r: seq<Word>)
    requires 0 <= x < 64 * |ws|
    ensures |r| == |ws|
  {
    ws[x / 64 := ws[x / 64][x % 64 := false]]
  }

  lemma SetBitAdds(ws: seq<Word>, x: int)
    requires 0 <= x < 64 * |ws|
    ensures BitItems(SetBit(ws, x)) == BitItems(ws) + {x}
  {
    forall y | 0 <= y < 64 * |ws| ensures HasBit(SetBit(ws, x), y) <==> HasBit(ws, y) || x == y {
      SameSlot(x, y);
    }
  }

  lemma ClearBitRemoves(ws: seq<Word>, x: int)
    requires 0 <= x < 64 * |ws|
    ensures BitItems(ClearBit(ws, x)) == BitItems(ws) - {x}
  {
    forall y | 0 <= y < 64 * |ws| ensures HasBit(ClearBit(ws, x), y) <==> HasBit(ws, y) && x != y {
      SameSlot(x, y);
    }
  }

  lemma SameSlot(x: int, y: int)
    ensures x / 64 == y / 64 && x % 64 == y % 64 <==> x == y
  {
  }

  // ----- membership, insertion, removal

  function Has(b: Bucket16, x: int): (found: bool)
    requires Valid(b) && IsU16(x)
    ensures found <==> x in Items(b)
  {
    if b.bits.None? then x in b.smallPool[..b.smallPoolLen] else HasBit(b.bits.value, x)
  }

  method SwitchSmallPoolToBits(b: Bucket16) returns (r: Bucket16)
    requires Valid(b) && b.bits.None?
    ensures Valid(r) && r.bits.Some? && Items(r) == Items(b)
  {
    var ws: seq<Word> := seq(WORDS_PER_BUCKET, i => ZERO_WORD);
    var pool := b.smallPool[..b.smallPoolLen];
    assert BitItems(ws) == {};
    assert Elements(pool[..0]) == {};
    for i := 0 to |pool|
      invariant |ws| == WORDS_PER_BUCKET
      invariant BitItems(ws) == Elements(pool[..i])
    {
      SetBitAdds(ws, pool[i]);
      assert pool[..i + 1] == pool[..i] + [pool[i]];
      ws := SetBit(ws, pool[i]);
    }
    assert pool[..|pool|] == pool;
    r := Bucket16(Some(ws), b.smallPool, 0);
    assert r.smallPool[..0] == [];
  }

  lemma PoolPush(b: Bucket16, x: int)
    requires Valid(b) && b.bits.None? && IsU16(x) && b.smallPoolLen < SMALL_POOL_SIZE && x !in Items(b)
    ensures var r := b.(smallPool := b.smallPool[b.smallPoolLen := x], smallPoolLen := b.smallPoolLen + 1);
            Valid(r) && Items(r) == Items(b) + {x}
  {
    var n := b.smallPoolLen;
    var p := b.smallPool[n := x];
    assert p[..n + 1] == b.smallPool[..n] + [x];
    assert forall i :: 0 <= i < n ==> b.smallPool[..n][i] in Elements(b.smallPool[..n]);
  }

  method AddToSmallPool(b: Bucket16, x: int) returns (r: Bucket16, added: bool)
    requires Valid(b) && b.bits.None? && IsU16(x)
    ensures Valid(r) && Items(r) == Items(b) + {x}
    ensures added <==> x !in Items(b)
    ensures |Items(r)| == |Items(b)| + if added then 1 else 0
    ensures b.smallPoolLen < SMALL_POOL_SIZE ==> r.bits.None? && r.smallPoolLen <= b.smallPoolLen + 1
  {
    if x in b.smallPool[..b.smallPoolLen] {
      return b, false;
    }
    if b.smallPoolLen < SMALL_POOL_SIZE {
      PoolPush(b, x);
      r := b.(smallPool := b.smallPool[b.smallPoolLen := x], smallPoolLen := b.smallPoolLen + 1);
      return r, true;
    }
    r := SwitchSmallPoolToBits(b);
    SetBitAdds(r.bits.value, x);
    r := r.(bits := Some(SetBit(r.bits.value, x)));
    added := true;
  }

  method Add(b: Bucket16, x: int) returns (r: Bucket16, added: bool)
    requires Valid(b) && IsU16(x)
    ensures Valid(r) && Items(r) == Items(b) + {x}
    ensures added <==> x !in Items(b)
  {
    if b.bits.None? {
      r, added := AddToSmallPool(b, x);
    } else {
      added := !HasBit(b.bits.value, x);
      r := b;
      if added {
        SetBitAdds(b.bits.value, x);
        r := b.(bits := Some(SetBit(b.bits.value, x)));
      }
    }
  }

  method AddMultiToPool(b: Bucket16, a: seq<int>) returns (r: Bucket16, count: nat)
    requires Valid(b) && b.bits.None? && b.smallPoolLen + |a| <= SMALL_POOL_SIZE
    ensures Valid(r) && Items(r) == Items(b) + Low16(a)
    ensures count == |Items(r)| - |Items(b)|
  {
    r := b;
    count := 0;
    assert Items(b) + Low16([]) == Items(b);
    for i := 0 to |a|
      invariant Valid(r) && r.bits.None? && r.smallPoolLen <= b.smallPoolLen + i
      invariant Items(r) == Items(b) + Low16(a[..i])
      invariant count == |Items(r)| - |Items(b)|
    {
      Low16Snoc(a, i);
      UnionAssociative(Items(b), Low16(a[..i]), {a[i] % BITS_PER_BUCKET});
      var added;
      r, added := AddToSmallPool(r, a[i] % BITS_PER_BUCKET);
      if added {
        count := count + 1;
      }
    }
    assert a[..|a|] == a;
  }

  method AddBit(bits: seq<Word>, x: int) returns (ws: seq<Word>, added: bool)
    requires 0 <= x < 64 * |bits|
    ensures |ws| == |bits| && BitItems(ws) == BitItems(bits) + {x}
    ensures added <==> x !in BitItems(bits)
    ensures |BitItems(ws)| == |BitItems(bits)| + if added then 1 else 0
  {
    ws := bits;
    added := !HasBit(bits, x);
    SetBitAdds(bits, x);
    if added {
      ws := SetBit(bits, x);
    }
  }

  method AddMultiToBits(bits: seq<Word>, a: seq<int>) returns (ws: seq<Word>, count: nat)
    requires |bits| == WORDS_PER_BUCKET
    ensures |ws| == WORDS_PER_BUCKET && BitItems(ws) == BitItems(bits) + Low16(a)
    ensures count == |BitItems(ws)| - |BitItems(bits)|
  {
    ws := bits;
    count := 0;
    ghost var start := BitItems(bits);
    ghost var items := start;
    for i := 0 to |a|
      invariant |ws| == WORDS_PER_BUCKET && BitItems(ws) == items
      invariant items == start + Low16(a[..i])
      invariant count == |items| - |start|
    {
      Low16Snoc(a, i);
      var x, added := a[i] % BITS_PER_BUCKET, false;
      ws, added := AddBit(ws, x);
      items := items + {x};
      if added {
        count := count + 1;
      }
    }
    assert a[..|a|] == a;
  }

  /** Adds the low 16 bits of each item of `a`; returns how many were new. */
  method AddMulti(b: Bucket16, a: seq<int>) returns (r: Bucket16, count: nat)
    requires Valid(b)
    ensures Valid(r) && Items(r) == Items(b) + Low16(a)
    ensures count == |Items(r)| - |Items(b)|
  {
    r := b;
    if b.bits.None? {
      if b.smallPoolLen + |a| <= SMALL_POOL_SIZE {
        r, count := AddMultiToPool(b, a);
        return;
      }
      r := SwitchSmallPoolToBits(r);
    }
    var ws;
    ws, count := AddMultiToBits(r.bits.value, a);
    r := r.(bits := Some(ws));
  }

  /** The low 16 bits of the items of `a`. */
  ghost function Low16(a: seq<int>): set<int> {
    if a == [] then {} else Low16(a[..|a| - 1]) + {a[|a| - 1] % BITS_PER_BUCKET}
  }

  lemma Low16Snoc(a: seq<int>, i: nat)
    requires i < |a|
    ensures Low16(a[..i + 1]) == Low16(a[..i]) + {a[i] % BITS_PER_BUCKET}
  {
    assert a[..i + 1][..i] == a[..i];
  }

  /** The position of `x` in the pool prefix, or its length. */
  function PoolIndex(pool: seq<int>, x: int): (i: nat)
    ensures i <= |pool|
    ensures i < |pool| ==> pool[i] == x
    ensures x !in pool[..i]
  {
    if pool == [] || pool[0] == x then 0
    else
      assert pool[..PoolIndex(pool[1..], x) + 1] == [pool[0]] + pool[1..][..PoolIndex(pool[1..], x)];
      PoolIndex(pool[1..], x) + 1
  }

  lemma PoolRemove(pool: seq<int>, n: nat, i: nat)
    requires i < n <= |pool| && Distinct(pool[..n])
    ensures var r := pool[..i] + pool[i + 1..n] + pool[n - 1..];
            && |r| == |pool|
            && Distinct(r[..n - 1])
            && Elements(r[..n - 1]) == Elements(pool[..n]) - {pool[i]}
  {
    var r := pool[..i] + pool[i + 1..n] + pool[n - 1..];
    var s := r[..n - 1];
    assert s == pool[..i] + pool[i + 1..n];
    var p := pool[..n];
    assert forall k :: 0 <= k < n - 1 ==> s[k] == if k < i then p[k] else p[k + 1];
    forall v ensures v in s <==> v in p && v != pool[i] {
      if v in s {
        var k :| 0 <= k < |s| && s[k] == v;
        assert v == p[if k < i then k else k + 1];
      }
      if v in p && v != pool[i] {
        var k :| 0 <= k < |p| && p[k] == v;
        assert v == s[if k < i then k else k - 1];
      }
    }
  }

  method Del(b: Bucket16, x: int) returns (r: Bucket16, removed: bool)
    requires Valid(b) && IsU16(x)
    ensures Valid(r) && Items(r) == Items(b) - {x}
    ensures removed <==> x in Items(b)
  {
    r := b;
    if b.bits.Some? {
      removed := HasBit(b.bits.value, x);
      ClearBitRemoves(b.bits.value, x);
      r := b.(bits := Some(ClearBit(b.bits.value, x)));
      return;
    }
    var n := b.smallPoolLen;
    var i := PoolIndex(b.smallPool[..n], x);
    removed := i < n;
    if removed {
      PoolRemove(b.smallPool, n, i);
      r := b.(smallPool := b.smallPool[..i] + b.smallPool[i + 1..n] + b.smallPool[n - 1..], smallPoolLen := n - 1);
    } else {
      assert b.smallPool[..n][..n] == b.smallPool[..n];
    }
  }

  // ----- listing

  /** `q` lists, in ascending order, `base` plus each value of the bitmap below `limit`. */
  ghost predicate ListsBits(q: seq<int>, base: int, ws: seq<Word>, limit: int)
    requires 0 <= limit <= 64 * |ws|
  {
    && Ascending(q)
    && forall v :: v in q <==> base <= v < base + limit && HasBit(ws, v - base)
  }

  lemma ListsBitsSkip(q: seq<int>, base: int, ws: seq<Word>, limit: int, next: int)
    requires 0 <= limit <= next <= 64 * |ws| && ListsBits(q, base, ws, limit)
    requires forall x :: limit <= x < next ==> !HasBit(ws, x)
    ensures ListsBits(q, base, ws, next)
  {
  }

  lemma ListsBitsPush(q: seq<int>, base: int, ws: seq<Word>, x: int)
    requires 0 <= x < 64 * |ws| && ListsBits(q, base, ws, x) && HasBit(ws, x)
    ensures ListsBits(q + [base + x], base, ws, x + 1)
  {
    AscendingSnoc(q, base + x);
  }

  method AppendWord(dst: seq<int>, ghost q: seq<int>, base: int, ghost ws: seq<Word>, wordNum: nat, w: Word)
    returns (out: seq<int>, ghost p: seq<int>)
    requires wordNum < |ws| && ws[wordNum] == w
    requires ListsBits(q, base, ws, 64 * wordNum)
    ensures out == dst + p && ListsBits(q + p, base, ws, 64 * wordNum + 64)
  {
    out, p := dst, [];
    var word := w;
    ghost var pos := 0;
    assert q + p == q;
    while true
      invariant 0 <= pos <= 64
      invariant forall i :: 0 <= i < pos ==> !word[i]
      invariant forall i :: pos <= i < 64 ==> word[i] == w[i]
      invariant out == dst + p
      invariant ListsBits(q + p, base, ws, 64 * wordNum + pos)
      decreases 64 - pos
    {
      var tzn := TrailingZeros(word);
      forall x | 64 * wordNum + pos <= x < 64 * wordNum + tzn ensures !HasBit(ws, x) {
        assert x / 64 == wordNum && x % 64 == x - 64 * wordNum;
      }
      ListsBitsSkip(q + p, base, ws, 64 * wordNum + pos, 64 * wordNum + tzn);
      if tzn >= 64 {
        break;
      }
      var x := 64 * wordNum + tzn;
      assert x / 64 == wordNum && x % 64 == tzn;
      ListsBitsPush(q + p, base, ws, x);
      assert q + p + [base + x] == q + (p + [base + x]);
      word := word[tzn := false];
      out := out + [base + x];
      p := p + [base + x];
      pos := tzn + 1;
    }
  }

  method AppendBits(ws: seq<Word>, dst: seq<int>, base: int) returns (out: seq<int>, ghost q: seq<int>)
    ensures out == dst + q && ListsBits(q, base, ws, 64 * |ws|)
  {
    q, out := [], dst;
    for wordNum := 0 to |ws|
      invariant out == dst + q && ListsBits(q, base, ws, 64 * wordNum)
    {
      if ws[wordNum] == ZERO_WORD {
        ListsBitsSkip(q, base, ws, 64 * wordNum, 64 * wordNum + 64);
      } else {
        ghost var p;
        out, p := AppendWord(out, q, base, ws, wordNum, ws[wordNum]);
        assert dst + q + p == dst + (q + p);
        q := q + p;
      }
    }
  }

  lemma ShiftedListing(a: seq<int>, q: seq<int>, base: int)
    requires Ascending(a) && |q| == |a| && forall k :: 0 <= k < |a| ==> q[k] == base + a[k]
    ensures ListsFrom(q, base, Elements(a))
  {
    forall v ensures v in q <==> v - base in a {
      if v in q {
        var k :| 0 <= k < |q| && q[k] == v;
        assert a[k] == v - base;
      }
      if v - base in a {
        var k :| 0 <= k < |a| && a[k] == v - base;
        assert q[k] == v;
      }
    }
  }

  method AppendPool(a: seq<int>, dst: seq<int>, base: int) returns (out: seq<int>, ghost q: seq<int>)
    requires Ascending(a)
    ensures out == dst + q && ListsFrom(q, base, Elements(a))
  {
    q, out := [], dst;
    for i := 0 to |a|
      invariant out == dst + q && |q| == i
      invariant forall k :: 0 <= k < i ==> q[k] == base + a[k]
    {
      out := out + [base + a[i]];
      q := q + [base + a[i]];
    }
    ShiftedListing(a, q, base);
  }

  /** Appends the bucket's values, offset by `base`, in ascending order. */
  method AppendTo(b: Bucket16, dst: seq<int>, base: int) returns (out: seq<int>, ghost q: seq<int>)
    requires Valid(b)
    ensures out == dst + q && ListsFrom(q, base, Items(b))
  {
    if b.bits.None? {
      SortListsAscending(b.smallPool[..b.smallPoolLen]);
      out, q := AppendPool(Sort(b.smallPool[..b.smallPoolLen]), dst, base);
    } else {
      out, q := AppendBits(b.bits.value, dst, base);
    }
  }

  // ----- set algebra

  method UnionWords(bb: seq<Word>, ab: seq<Word>) returns (r: seq<Word>)
    requires |bb| == |ab|
    ensures |r| == |bb| && BitItems(r) == BitItems(bb) + BitItems(ab)
  {
    r := bb;
    for i := 0 to |bb|
      invariant |r| == |bb|
      invariant forall k :: 0 <= k < i ==> r[k] == Or(bb[k], ab[k])
      invariant forall k :: i <= k < |bb| ==> r[k] == bb[k]
    {
      r := r[i := Or(r[i], ab[i])];
    }
    assert forall x :: 0 <= x < 64 * |r| ==> (HasBit(r, x) <==> HasBit(bb, x) || HasBit(ab, x));
  }

  method IntersectWords(bb: seq<Word>, ab: seq<Word>) returns (r: seq<Word>)
    requires |bb| == |ab|
    ensures |r| == |bb| && BitItems(r) == BitItems(bb) * BitItems(ab)
  {
    r := bb;
    for i := 0 to |bb|
      invariant |r| == |bb|
      invariant forall k :: 0 <= k < i ==> r[k] == And(bb[k], ab[k])
      invariant forall k :: i <= k < |bb| ==> r[k] == bb[k]
    {
      r := r[i := And(r[i], ab[i])];
    }
    assert forall x :: 0 <= x < 64 * |r| ==> (HasBit(r, x) <==> HasBit(bb, x) && HasBit(ab, x));
  }

  method AddAll(b: Bucket16, buf: seq<int>) returns (r: Bucket16)
    requires Valid(b) && forall v :: v in buf ==> IsU16(v)
    ensures Valid(r) && Items(r) == Items(b) + Elements(buf)
  {
    r := b;
    for i := 0 to |buf|
      invariant Valid(r) && Items(r) == Items(b) + Elements(buf[..i])
    {
      assert buf[..i + 1] == buf[..i] + [buf[i]];
      var added;
      r, added := Add(r, buf[i]);
    }
    assert buf[..|buf|] == buf;
  }

  method DelMissing(b: Bucket16, a: Bucket16, buf: seq<int>) returns (r: Bucket16)
    requires Valid(b) && Valid(a) && forall v :: v in buf ==> IsU16(v)
    ensures Valid(r) && Items(r) == Items(b) - (Elements(buf) - Items(a))
  {
    r := b;
    for i := 0 to |buf|
      invariant Valid(r) && Items(r) == Items(b) - (Elements(buf[..i]) - Items(a))
    {
      assert buf[..i + 1] == buf[..i] + [buf[i]];
      if !Has(a, buf[i]) {
        var removed;
        r, removed := Del(r, buf[i]);
      }
    }
    assert buf[..|buf|] == buf;
  }

  method Union(b: Bucket16, a: Bucket16) returns (r: Bucket16)
    requires Valid(b) && Valid(a)
    ensures Valid(r) && Items(r) == Items(b) + Items(a)
  {
    if a.bits.Some? && b.bits.Some? {
      var ws := UnionWords(b.bits.value, a.bits.value);
      return b.(bits := Some(ws));
    }
    ghost var q;
    var buf;
    buf, q := AppendTo(a, [], 0);
    ListsFromZero(buf, Items(a));
    forall v | v in buf ensures IsU16(v) {
      assert v in Elements(buf);
    }
    r := AddAll(b, buf);
  }

  method Intersect(b: Bucket16, a: Bucket16) returns (r: Bucket16)
    requires Valid(b) && Valid(a)
    ensures Valid(r) && Items(r) == Items(b) * Items(a)
  {
    if a.bits.Some? && b.bits.Some? {
      var ws := IntersectWords(b.bits.value, a.bits.value);
      return b.(bits := Some(ws));
    }
    ghost var q;
    var buf;
    buf, q := AppendTo(b, [], 0);
    ListsFromZero(buf, Items(b));
    forall v | v in buf ensures IsU16(v) {
      assert v in Elements(buf);
    }
    r := DelMissing(b, a, buf);
  }
}
