/** Marshaling of a set and the theorem over every program of set operations. */
module SetCodec {
  import opened Octets
  import opened Options
  import opened Listing
  import opened BucketList
  import opened Uint64Set

  function Pow256(n: nat): (p: nat)
    ensures p > 0
  {
    if n == 0 then 1 else 256 * Pow256(n - 1)
  }

  /** The `n` low bytes of `x`, most significant first. */
  function ToBytes(x: nat, n: nat): (b: seq<Byte>)
    ensures |b| == n
  {
    if n == 0 then [] else ToBytes(x / 256, n - 1) + [x % 256]
  }

  function FromBytes(b: seq<Byte>): nat {
    if b == [] then 0 else FromBytes(b[..|b| - 1]) * 256 + b[|b| - 1]
  }

  lemma {:induction false} BytesRoundTrip(x: nat, n: nat)
    requires x < Pow256(n)
    ensures FromBytes(ToBytes(x, n)) == x
  {
    if n > 0 {
      assert x / 256 < Pow256(n - 1);
      BytesRoundTrip(x / 256, n - 1);
      assert ToBytes(x, n)[..n - 1] == ToBytes(x / 256, n - 1);
    }
  }

  lemma EightBytesHoldU64()
    ensures Pow256(8) == U64_SIZE
  {
    assert Pow256(2) == 0x1_0000;
    assert Pow256(4) == 0x1_0000_0000 by {
      assert Pow256(3) == 256 * Pow256(2);
    }
    assert Pow256(6) == 0x1_0000_0000_0000 by {
      assert Pow256(5) == 256 * Pow256(4);
    }
    assert Pow256(7) == 256 * Pow256(6);
  }

  function WriteU64(x: int): (b: seq<Byte>)
    requires IsU64(x)
    ensures |b| == 8
  {
    ToBytes(x, 8)
  }

  function ReadU64(src: seq<Byte>): nat
    requires |src| >= 8
  {
    FromBytes(src[..8])
  }

  lemma ReadWritten(x: int, rest: seq<Byte>)
    requires IsU64(x)
    ensures ReadU64(WriteU64(x) + rest) == x && (WriteU64(x) + rest)[8..] == rest
  {
    EightBytesHoldU64();
    BytesRoundTrip(x, 8);
    assert (WriteU64(x) + rest)[..8] == WriteU64(x);
  }

  /** The bytes of a list of items. */
  function WriteItems(q: seq<int>): (b: seq<Byte>)
    requires forall i :: 0 <= i < |q| ==> IsU64(q[i])
    ensures |b| == 8 * |q|
  {
    if q == [] then [] else WriteU64(q[0]) + WriteItems(q[1..])
  }

  function ReadItems(src: seq<Byte>, n: nat): seq<nat>
    requires 8 * n <= |src|
  {
    if n == 0 then [] else [ReadU64(src)] + ReadItems(src[8..], n - 1)
  }

  lemma {:induction false} ItemsRoundTrip(q: seq<int>, tail: seq<Byte>)
    requires forall i :: 0 <= i < |q| ==> IsU64(q[i])
    ensures ReadItems(WriteItems(q) + tail, |q|) == q
    ensures (WriteItems(q) + tail)[8 * |q|..] == tail
  {
    if q != [] {
      var rest := WriteItems(q[1..]) + tail;
      assert WriteItems(q) + tail == WriteU64(q[0]) + rest;
      ReadWritten(q[0], rest);
      ItemsRoundTrip(q[1..], tail);
    }
  }

  /** The length header followed by the items. */
  function Encode(q: seq<int>): seq<Byte>
    requires |q| < U64_SIZE && forall i :: 0 <= i < |q| ==> IsU64(q[i])
  {
    WriteU64(|q|) + WriteItems(q)
  }

  datatype DecodeError = HeaderTooShort(got: nat) | ItemsTooShort(got: nat, count: nat)

  /** The items and the tail an input stands for, or why it is rejected. */
  function Decode(src: seq<Byte>): Result<(seq<nat>, seq<Byte>), DecodeError> {
    if |src| < 8 then Err(HeaderTooShort(|src|))
    else if (|src| - 8) / 8 < ReadU64(src) then Err(ItemsTooShort(|src| - 8, ReadU64(src)))
    else Ok((ReadItems(src[8..], ReadU64(src)), src[8 + 8 * ReadU64(src)..]))
  }

  /** Decoding inverts encoding and stops exactly at the tail. */
  lemma EncodeRoundTrip(q: seq<int>, tail: seq<Byte>)
    requires |q| < U64_SIZE && forall i :: 0 <= i < |q| ==> IsU64(q[i])
    ensures Decode(Encode(q) + tail) == Ok((q, tail))
  {
    var rest := WriteItems(q) + tail;
    assert Encode(q) + tail == WriteU64(|q|) + rest;
    ReadWritten(|q|, rest);
    ItemsRoundTrip(q, tail);
    assert (Encode(q) + tail)[8 + 8 * |q|..] == rest[8 * |q|..];
  }

  /** The byte order: the k-th of `n` bytes counts 256 to the power of the bytes after it. */
  lemma {:induction false} ByteOrder(x: nat, n: nat, k: nat)
    requires k < n
    ensures ToBytes(x, n)[k] == x / Pow256(n - 1 - k) % 256
    decreases n
  {
    if k < n - 1 {
      ByteOrder(x / 256, n - 1, k);
      DividedTwice(x, Pow256(n - 2 - k));
    }
  }

  lemma DividedTwice(x: nat, p: nat)
    requires p > 0
    ensures x / 256 / p == x / (256 * p)
  {
    var q := x / (256 * p);
    var r := x % (256 * p);
    assert x == q * (256 * p) + r;
    assert x / 256 == q * p + r / 256 by {
      assert x == 256 * (q * p) + r;
    }
    var s := r / 256;
    assert 0 <= s < p by {
      assert r < 256 * p;
    }
    Quotient(x / 256, p, q, s);
  }

  lemma Quotient(m: nat, d: nat, q: nat, r: nat)
    requires d > 0 && r < d && m == q * d + r
    ensures m / d == q
  {
    var k := m / d - q;
    assert m == (m / d) * d + m % d;
    assert k * d == r - m % d;
    Multiple(k, d);
    Multiple(-k, d);
  }

  lemma Multiple(k: int, d: int)
    requires d > 0
    ensures (k >= 1 ==> k * d >= d) && (-k) * d == -(k * d)
  {
  }

  lemma {:induction false} BytesBack(b: seq<Byte>)
    ensures FromBytes(b) < Pow256(|b|) && ToBytes(FromBytes(b), |b|) == b
    decreases |b|
  {
    if b != [] {
      var front, last := b[..|b| - 1], b[|b| - 1];
      BytesBack(front);
      assert FromBytes(b) / 256 == FromBytes(front) && FromBytes(b) % 256 == last;
      assert b == front + [last];
    }
  }

  lemma WrittenRead(src: seq<Byte>)
    requires |src| >= 8
    ensures IsU64(ReadU64(src)) && WriteU64(ReadU64(src)) == src[..8]
  {
    EightBytesHoldU64();
    BytesBack(src[..8]);
  }

  lemma {:induction false} ItemsBack(src: seq<Byte>, n: nat)
    requires 8 * n <= |src|
    ensures |ReadItems(src, n)| == n && (forall i :: 0 <= i < n ==> IsU64(ReadItems(src, n)[i]))
    ensures WriteItems(ReadItems(src, n)) == src[..8 * n]
    decreases n
  {
    hide ReadU64, WriteU64, IsU64;
    if n > 0 {
      WrittenRead(src);
      ItemsBack(src[8..], n - 1);
      var q := ReadItems(src, n);
      assert q[1..] == ReadItems(src[8..], n - 1);
      assert src[..8 * n] == src[..8] + src[8..][..8 * (n - 1)];
    }
  }

  /** Whatever is decoded is the encoding of the items before the tail, so nothing else is accepted. */
  lemma DecodedIsEncoded(src: seq<Byte>)
    requires Decode(src).Ok?
    ensures var (q, tail) := Decode(src).value;
            |q| < U64_SIZE && (forall i :: 0 <= i < |q| ==> IsU64(q[i])) && src == Encode(q) + tail
  {
    var n := ReadU64(src);
    WrittenRead(src);
    ItemsBack(src[8..], n);
    assert src == src[..8] + src[8..][..8 * n] + src[8 + 8 * n..];
  }

  /** An input is accepted exactly when it holds the items its header announces. */
  lemma DecodeAccepts(src: seq<Byte>)
    ensures Decode(src).Ok? <==> |src| >= 8 && |src| >= 8 + 8 * ReadU64(src)
  {
  }

  lemma {:induction false} ReadItemsSnoc(src: seq<Byte>, n: nat)
    requires 8 * (n + 1) <= |src|
    ensures ReadItems(src, n + 1) == ReadItems(src, n) + [ReadU64(src[8 * n..])]
  {
    hide ReadU64;
    if n == 0 {
      assert src[8 * n..] == src;
      assert ReadItems(src[8..], 0) == [];
    } else {
      ReadItemsSnoc(src[8..], n - 1);
      assert src[8..][8 * (n - 1)..] == src[8 * n..];
      assert ReadItems(src, n + 1) == [ReadU64(src)] + ReadItems(src[8..], n);
      assert ReadItems(src, n) == [ReadU64(src)] + ReadItems(src[8..], n - 1);
    }
  }

  lemma ReadU64IsU64(src: seq<Byte>)
    requires |src| >= 8
    ensures IsU64(ReadU64(src))
  {
    EightBytesHoldU64();
    FromBytesBound(src[..8]);
  }

  lemma {:induction false} FromBytesBound(b: seq<Byte>)
    ensures FromBytes(b) < Pow256(|b|)
  {
    if b != [] {
      FromBytesBound(b[..|b| - 1]);
    }
  }

  /** Appends the encoding of some listing of the set. */
  method Marshal(s: Set, dst: seq<Byte>) returns (out: seq<Byte>, ghost q: seq<int>)
    requires s.Valid() && s.itemsCount < U64_SIZE
    ensures Lists(q, s.Items()) && |q| < U64_SIZE && (forall i :: 0 <= i < |q| ==> IsU64(q[i]))
    ensures out == dst + Encode(q)
  {
    hide AllValid, FirstHolds, ListItems, WriteU64, WriteItems, Encode;
    var items := Visit(s.buckets);
    DistinctCardinality(items);
    ListItemsAreU64(s.buckets);
    q := items;
    forall i | 0 <= i < |q| ensures IsU64(q[i]) {
      assert q[i] in Elements(q);
    }
    out := AppendItems(dst + WriteU64(s.itemsCount), items);
    EncodeAfter(dst, q);
  }

  lemma EncodeAfter(dst: seq<Byte>, q: seq<int>)
    requires |q| < U64_SIZE && forall i :: 0 <= i < |q| ==> IsU64(q[i])
    ensures dst + WriteU64(|q|) + WriteItems(q) == dst + Encode(q)
  {
    hide WriteU64, WriteItems;
  }

  method AppendItems(dst: seq<Byte>, items: seq<int>) returns (out: seq<Byte>)
    requires forall i :: 0 <= i < |items| ==> IsU64(items[i])
    ensures out == dst + WriteItems(items)
  {
    hide WriteU64;
    out := dst;
    for i := 0 to |items|
      invariant out + WriteItems(items[i..]) == dst + WriteItems(items)
    {
      assert out + WriteItems(items[i..]) == out + WriteU64(items[i]) + WriteItems(items[i + 1..]);
      out := out + WriteU64(items[i]);
    }
    assert out + [] == out;
  }

  /** Builds the set an encoded input stands for, or rejects it exactly when `Decode` does. */
  method Unmarshal(src: seq<Byte>) returns (r: Result<(Set, seq<Byte>), DecodeError>)
    ensures Decode(src).Err? ==> r == Err(Decode(src).error)
    ensures Decode(src).Ok? ==> r.Ok? && fresh(r.value.0) && r.value.0.Valid()
    ensures Decode(src).Ok? ==> r.value.0.Items() == Elements(Decode(src).value.0)
    ensures Decode(src).Ok? ==> r.value.1 == Decode(src).value.1
  {
    hide AllValid, FirstHolds, ListItems, FromBytes, ReadU64;
    if |src| < 8 {
      return Err(HeaderTooShort(|src|));
    }
    var count, rest := ReadU64(src), src[8..];
    if |rest| / 8 < count {
      return Err(ItemsTooShort(|rest|, count));
    }
    ghost var body := rest;
    var s := new Set();
    assert body[0..] == body;
    for i := 0 to count
      invariant rest == body[8 * i..]
      invariant fresh(s) && s.Valid() && s.Items() == Elements(ReadItems(body, i))
    {
      ReadItemsSnoc(body, i);
      ReadU64IsU64(rest);
      ElementsSnoc(ReadItems(body, i), ReadU64(rest));
      s.Add(ReadU64(rest));
      rest := rest[8..];
    }
    r := Ok((s, rest));
  }

  lemma ElementsSnoc(q: seq<int>, x: int)
    ensures Elements(q + [x]) == Elements(q) + {x}
  {
  }

  // ----- every program of set operations

  /** A program that builds a set; operands of the binary operations are programs themselves. */
  datatype Program =
    | Start
    | Adding(p: Program, x: int)
    | AddingMany(p: Program, a: seq<int>)
    | Deleting(p: Program, x: int)
    | Copying(p: Program)
    | Sorting(p: Program)
    | Uniting(p: Program, q: Program)
    | Intersecting(p: Program, q: Program)
    | Subtracting(p: Program, q: Program)

  ghost predicate InRange(p: Program) {
    match p
    case Start => true
    case Adding(p, x) => InRange(p) && IsU64(x)
    case AddingMany(p, a) => InRange(p) && forall k :: 0 <= k < |a| ==> IsU64(a[k])
    case Deleting(p, x) => InRange(p) && IsU64(x)
    case Copying(p) => InRange(p)
    case Sorting(p) => InRange(p)
    case Uniting(p, q) => InRange(p) && InRange(q)
    case Intersecting(p, q) => InRange(p) && InRange(q)
    case Subtracting(p, q) => InRange(p) && InRange(q)
  }

  /** What the program means on mathematical sets. */
  ghost function Meaning(p: Program): set<int> {
    match p
    case Start => {}
    case Adding(p, x) => Meaning(p) + {x}
    case AddingMany(p, a) => Meaning(p) + Elements(a)
    case Deleting(p, x) => Meaning(p) - {x}
    case Copying(p) => Meaning(p)
    case Sorting(p) => Meaning(p)
    case Uniting(p, q) => Meaning(p) + Meaning(q)
    case Intersecting(p, q) => Meaning(p) * Meaning(q)
    case Subtracting(p, q) => Meaning(p) - Meaning(q)
  }

  /** Every state reachable by the operations stands for the set the program means, with its exact size. */
  method Run(p: Program) returns (s: Set)
    requires InRange(p)
    ensures fresh(s) && s.Valid() && s.Items() == Meaning(p) && s.itemsCount == |Meaning(p)|
    decreases p
  {
    match p
    case Start =>
      s := new Set();
    case Adding(p1, x) =>
      s := Run(p1);
      s.Add(x);
    case AddingMany(p1, a) =>
      s := Run(p1);
      s.AddMulti(a);
    case Deleting(p1, x) =>
      s := Run(p1);
      s.Del(x);
    case Copying(p1) =>
      var t := Run(p1);
      s := t.Clone();
    case Sorting(p1) =>
      s := Run(p1);
      ghost var q;
      var out;
      out, q := s.AppendTo([]);
    case Uniting(p1, p2) =>
      s := Run(p1);
      var t := Run(p2);
      s.Union(t);
    case Intersecting(p1, p2) =>
      s := Run(p1);
      var t := Run(p2);
      s.Intersect(t);
    case Subtracting(p1, p2) =>
      s := Run(p1);
      var t := Run(p2);
      s.Subtract(t);
  }

  /** Marshaling any reachable set and unmarshaling it before any tail gives an equal set and the tail. */
  method MarshalRoundTrip(p: Program, tail: seq<Byte>) returns (t: Set, rest: seq<Byte>)
    requires InRange(p) && |Meaning(p)| < U64_SIZE
    ensures t.Valid() && t.Items() == Meaning(p) && rest == tail
  {
    var s := Run(p);
    ghost var q;
    var bytes;
    bytes, q := Marshal(s, []);
    EncodeRoundTrip(q, tail);
    assert bytes == Encode(q);
    var r := Unmarshal(bytes + tail);
    t, rest := r.value.0, r.value.1;
  }
}
