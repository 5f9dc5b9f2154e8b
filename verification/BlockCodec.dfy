/** Blocks of i64: the choice of a coding, the compressed and plain forms, and their round trip. */
module BlockCodec {
  import opened Options
  import opened Words
  import opened Varint
  import opened VarintReader
  import opened VarintBatch
  import opened NearestDelta
  import opened NearestDelta2
  import opened DeltaCodec

  datatype MarshalType = ZstdNearestDelta2 | DeltaConst | Const | ZstdNearestDelta | NearestDelta2Plain | NearestDeltaPlain

  const MIN_COMPRESSIBLE_BLOCK_SIZE := 128

  /** A compressor at several levels, its inverse, and the test that its output is too long to keep. */
  datatype Compressor = Compressor(compress: (Bytes, int) -> Bytes, decompress: Bytes -> Option<Bytes>, ineffective: (nat, nat) -> bool) {
    ghost predicate Valid() {
      forall b: Bytes, level: int :: decompress(compress(b, level)) == Some(b)
    }
  }

  // ----- the choice of a coding

  ghost predicate Constant(a: seq<int>) {
    a != [] && forall i :: 0 <= i < |a| ==> a[i] == a[0]
  }

  /** `is_const`, with its two fast paths. */
  method IsConst(a: seq<int>) returns (r: bool)
    ensures r == Constant(a)
  {
    if a == [] {
      return false;
    }
    r := AllEqual(a, 0);
    if r {
      return true;
    }
    r := AllEqual(a, 1);
    if r {
      return true;
    }
    r := AllEqual(a, a[0]);
  }

  method AllEqual(a: seq<int>, v: int) returns (r: bool)
    ensures r == forall i :: 0 <= i < |a| ==> a[i] == v
  {
    var i := 0;
    while i < |a|
      invariant 0 <= i <= |a| && forall k :: 0 <= k < i ==> a[k] == v
    {
      if a[i] != v {
        return false;
      }
      i := i + 1;
    }
    return true;
  }

  ghost predicate SteadyTo(a: seq<int>, n: nat) {
    |a| >= 2 && n <= |a| && forall i :: 1 <= i < n ==> Wrap(a[i] - a[i - 1]) == Wrap(a[1] - a[0])
  }

  /** All differences are equal modulo 2^64. */
  ghost predicate Steady(a: seq<int>) {
    SteadyTo(a, |a|)
  }

  /** `is_delta_const`. */
  method IsDeltaConst(a: seq<int>) returns (r: bool)
    ensures r == Steady(a)
  {
    hide Wrap;
    if |a| < 2 {
      return false;
    }
    var d1 := Wrap(a[1] - a[0]);
    var prev := a[1];
    var i := 2;
    while i < |a|
      invariant 2 <= i <= |a| && prev == a[i - 1] && SteadyTo(a, i)
    {
      if Wrap(a[i] - prev) != d1 {
        return false;
      }
      prev := a[i];
      i := i + 1;
    }
    return true;
  }

  /** A drop that no counter makes: to a negative value or to more than an eighth of the one before. */
  predicate GaugeDrop(prev: int, v: int) {
    v < prev && (v < 0 || v > prev / 8)
  }

  function Resets(a: seq<int>): nat {
    if |a| < 2 then 0 else Resets(a[..|a| - 1]) + if a[|a| - 1] < a[|a| - 2] then 1 else 0
  }

  ghost predicate GaugeDropTo(a: seq<int>, n: nat) {
    n <= |a| && exists i :: 1 <= i < n && GaugeDrop(a[i - 1], a[i])
  }

  /** Gauges: a negative start, a drop no counter makes, or drops in more than an eighth of the items. */
  ghost predicate Gauge(a: seq<int>) {
    |a| >= 2 && (a[0] < 0 || GaugeDropTo(a, |a|) || (Resets(a) > 2 && Resets(a) > |a| / 8))
  }

  /** `is_gauge`. */
  method IsGauge(a: seq<int>) returns (r: bool)
    ensures r == Gauge(a)
  {
    if |a| < 2 {
      return false;
    }
    var resets := 0;
    var prev := a[0];
    if prev < 0 {
      return true;
    }
    var i := 1;
    while i < |a|
      invariant 1 <= i <= |a| && prev == a[i - 1] && prev >= 0
      invariant resets == Resets(a[..i]) && !GaugeDropTo(a, i)
    {
      var v := a[i];
      assert a[..i + 1][..i] == a[..i];
      if v < prev {
        if v < 0 {
          assert GaugeDrop(a[i - 1], a[i]);
          return true;
        }
        if v > prev / 8 {
          assert GaugeDrop(a[i - 1], a[i]);
          return true;
        }
        resets := resets + 1;
      }
      prev := v;
      i := i + 1;
    }
    assert a[..|a|] == a;
    if resets <= 2 {
      return false;
    }
    return resets > |a| / 8;
  }

  /** What counts as a gauge: not what a counter does, but every negative start and every shallow drop. */
  lemma GaugeMeaning(a: seq<int>)
    requires |a| >= 2
    ensures NonDecreasing(a) && a[0] >= 0 ==> !Gauge(a)
    ensures a[0] < 0 ==> Gauge(a)
    ensures forall i :: 1 <= i < |a| && a[i] < a[i - 1] && a[i - 1] >= 0 && (a[i] < 0 || 8 * a[i] > a[i - 1]) ==> Gauge(a)
  {
    if NonDecreasing(a) && a[0] >= 0 {
      NoResets(a);
    }
    forall i | 1 <= i < |a| && a[i] < a[i - 1] && a[i - 1] >= 0 && (a[i] < 0 || 8 * a[i] > a[i - 1]) ensures Gauge(a) {
      assert GaugeDrop(a[i - 1], a[i]);
    }
  }

  lemma {:induction false} NoResets(a: seq<int>)
    requires NonDecreasing(a)
    ensures Resets(a) == 0
    decreases |a|
  {
    if |a| >= 2 {
      NoResets(a[..|a| - 1]);
    }
  }

  function CompressLevel(count: nat): int {
    if count <= 64 then 1 else if count <= 256 then 2 else if count <= 1024 then 3 else if count <= 4096 then 4 else 5
  }

  // ----- marshaling

  /** Gauges get two more bits when the precision is low. */
  function GaugePrecision(p: nat): nat {
    if p < 6 then p + 2 else p
  }

  /** The type, first value and bytes of a block. */
  ghost function Block(c: Compressor, a: seq<int>, p: nat): (MarshalType, int, Bytes)
    requires a != []
  {
    if Constant(a) then (Const, a[0], [])
    else if Steady(a) then (DeltaConst, a[0], Item(ToWord(Wrap(a[1] - a[0]))))
    else
      assert |a| >= 2 by {
        assert |a| == 1 ==> Constant(a);
      }
      if Gauge(a) then
        var (packed, bytes) := Pack(c, EncodeAll(ToWords(DeltasOf(a, GaugePrecision(p)))), |a|);
        (if packed then ZstdNearestDelta else NearestDeltaPlain, a[0], bytes)
      else
        var (packed, bytes) := Pack(c, Delta2Bytes(a, p), |a|);
        (if packed then ZstdNearestDelta2 else NearestDelta2Plain, a[0], bytes)
  }

  /** Compresses unless the data is short or the outcome is not short enough. */
  function Pack(c: Compressor, plain: Bytes, count: nat): (bool, Bytes) {
    var z := c.compress(plain, CompressLevel(count));
    if |plain| < MIN_COMPRESSIBLE_BLOCK_SIZE || c.ineffective(|z|, |plain|) then (false, plain) else (true, z)
  }

  /** The stored bytes give the plain data back. */
  lemma PackRestores(c: Compressor, plain: Bytes, count: nat)
    requires c.Valid()
    ensures var (packed, bytes) := Pack(c, plain, count);
            if packed then c.decompress(bytes) == Some(plain) else bytes == plain
  {
  }

  /** `marshal_int64_array`: the block is appended and what `dst` held is kept. */
  method MarshalInt64Array(c: Compressor, dst: Bytes, a: seq<int>, p: nat) returns (out: Bytes, mt: MarshalType, first: int)
    requires a != [] && AllI64(a) && PrecisionOk(p)
    ensures (mt, first, out) == (Block(c, a, p).0, Block(c, a, p).1, dst + Block(c, a, p).2)
  {
    hide EncodeAll, Item, ToWord, Wrap, DeltasOf, Delta2Bytes, Steady, Gauge, MarshalVarInt64;
    var constant := IsConst(a);
    if constant {
      assert dst + [] == dst;
      return dst, Const, a[0];
    }
    var steady := IsDeltaConst(a);
    if steady {
      SteadyLong(a);
      var d := Wrap(a[1] - a[0]);
      MarshalVarInt64Item(dst, ToWord(d));
      out := MarshalVarInt64(dst, ToWord(d));
      return out, DeltaConst, a[0];
    }
    assert |a| >= 2 by {
      assert |a| == 1 ==> Constant(a);
    }
    var gauge := IsGauge(a);
    var bb: Bytes;
    if gauge {
      mt := ZstdNearestDelta;
      var pb := p;
      if pb < 6 {
        pb := pb + 2;
      }
      bb, first := MarshalNearestDelta([], a, pb);
      assert bb == EncodeAll(ToWords(DeltasOf(a, GaugePrecision(p))));
    } else {
      mt := ZstdNearestDelta2;
      bb, first := MarshalNearestDelta2([], a, p);
      assert bb == Delta2Bytes(a, p);
    }
    out := dst;
    var origLen := |dst|;
    if |bb| >= MIN_COMPRESSIBLE_BLOCK_SIZE {
      out := out + c.compress(bb, CompressLevel(|a|));
    }
    if |bb| < MIN_COMPRESSIBLE_BLOCK_SIZE || c.ineffective(|out| - origLen, |bb|) {
      mt := if mt == ZstdNearestDelta2 then NearestDelta2Plain else NearestDeltaPlain;
      out := out[..origLen];
      assert out == dst;
      out := out + bb;
    }
  }

  lemma SteadyLong(a: seq<int>)
    requires Steady(a)
    ensures |a| >= 2
  {
  }

  // ----- unmarshaling

  /** `first`, `first + d`, and so on, with wrap-around. */
  function Progression(first: int, d: int, count: nat): (vs: seq<int>)
    ensures |vs| == count
    decreases count
  {
    if count == 0 then [] else [first] + Progression(Wrap(first + d), d, count - 1)
  }

  function Repeat(v: int, count: nat): (vs: seq<int>)
    ensures |vs| == count && forall i :: 0 <= i < count ==> vs[i] == v
  {
    seq(count, _ => v)
  }

  /** The least number of items a coding is asked for. */
  predicate CountOk(mt: MarshalType, count: nat) {
    match mt
    case Const => true
    case DeltaConst => true
    case ZstdNearestDelta => count >= 1
    case NearestDeltaPlain => count >= 1
    case _ => count >= 2
  }

  /** What `unmarshal_int64_array` appends. */
  function DecodeBlock(c: Compressor, src: Bytes, mt: MarshalType, first: int, count: nat): Result<seq<int>, BlockError>
    requires CountOk(mt, count)
  {
    match mt
    case ZstdNearestDelta =>
      (match c.decompress(src)
       case None => Err(BadCompression)
       case Some(b) => DecodeDelta(b, first, count))
    case ZstdNearestDelta2 =>
      (match c.decompress(src)
       case None => Err(BadCompression)
       case Some(b) => DecodeDelta2(b, first, count))
    case NearestDeltaPlain => DecodeDelta(src, first, count)
    case NearestDelta2Plain => DecodeDelta2(src, first, count)
    case Const => if src != [] then Err(DataInConst) else Ok(Repeat(first, count))
    case DeltaConst =>
      var (u, size) := UvarintOf(src);
      if size <= 0 then Err(BadVarint(Truncated))
      else if size < |src| then Err(TailLeft)
      else Ok(Progression(first, FromWord(ZigzagDecode(u)), count))
  }

  /** The outcome of a decoder that appends to `dst`. */
  ghost predicate Appended(dst: seq<int>, want: Result<seq<int>, BlockError>, out: seq<int>, err: Option<BlockError>) {
    match want
    case Ok(vs) => err == None && out == dst + vs
    case Err(e) => err == Some(e) && out == dst
  }

  /** `unmarshal_int64_array`. */
  method UnmarshalInt64Array(c: Compressor, dst: seq<int>, src: Bytes, mt: MarshalType, first: int, count: nat)
    returns (out: seq<int>, err: Option<BlockError>)
    requires CountOk(mt, count)
    ensures Appended(dst, DecodeBlock(c, src, mt, first, count), out, err)
  {
    hide DecodeDelta, DecodeDelta2, UvarintOf, ZigzagDecode, FromWord, Progression;
    out, err := dst, None;
    match mt
    case ZstdNearestDelta =>
      var plain := c.decompress(src);
      if plain.None? {
        err := Some(BadCompression);
        return;
      }
      out, err := UnmarshalNearestDelta(dst, plain.value, first, count);
    case ZstdNearestDelta2 =>
      var plain := c.decompress(src);
      if plain.None? {
        err := Some(BadCompression);
        return;
      }
      out, err := UnmarshalNearestDelta2(dst, plain.value, first, count);
    case NearestDeltaPlain => out, err := UnmarshalNearestDelta(dst, src, first, count);
    case NearestDelta2Plain => out, err := UnmarshalNearestDelta2(dst, src, first, count);
    case Const =>
      if src != [] {
        err := Some(DataInConst);
        return;
      }
      out := AppendRepeated(dst, first, count);
    case DeltaConst =>
      var u, size := Uvarint(src);
      if size <= 0 {
        err := Some(BadVarint(Truncated));
        return;
      }
      if size < |src| {
        err := Some(TailLeft);
        return;
      }
      out := AppendProgression(dst, first, FromWord(ZigzagDecode(u)), count);
  }

  method AppendRepeated(dst: seq<int>, v: int, count: nat) returns (out: seq<int>)
    ensures out == dst + Repeat(v, count)
  {
    out := dst;
    var i := 0;
    while i < count
      invariant 0 <= i <= count && out == dst + Repeat(v, i)
    {
      out := out + [v];
      i := i + 1;
    }
  }

  method AppendProgression(dst: seq<int>, first: int, d: int, count: nat) returns (out: seq<int>)
    ensures out == dst + Progression(first, d, count)
  {
    hide Wrap;
    out := dst;
    var v := first;
    var i := 0;
    while i < count
      invariant 0 <= i <= count
      invariant out + Progression(v, d, count - i) == dst + Progression(first, d, count)
    {
      MoveFirst(out, v, Progression(Wrap(v + d), d, count - i - 1));
      out := out + [v];
      v := Wrap(v + d);
      i := i + 1;
    }
  }

  // ----- round trips

  lemma ConstExact(c: Compressor, a: seq<int>)
    requires Constant(a)
    ensures DecodeBlock(c, [], Const, a[0], |a|) == Ok(a)
  {
    assert Repeat(a[0], |a|) == a;
  }

  lemma {:induction false} SteadyProgression(a: seq<int>, i: nat)
    requires AllI64(a) && Steady(a) && i < |a|
    ensures Progression(a[i], Wrap(a[1] - a[0]), |a| - i) == a[i..]
    decreases |a| - i
  {
    hide Wrap;
    var d := Wrap(a[1] - a[0]);
    if i + 1 == |a| {
      assert Progression(Wrap(a[i] + d), d, 0) == [];
      assert a[i..] == [a[i]];
    } else {
      assert Wrap(a[i + 1] - a[i]) == d;
      FullDelta(a[i + 1], a[i]);
      SteadyProgression(a, i + 1);
      assert a[i..] == [a[i]] + a[i + 1..];
    }
  }

  lemma DeltaConstExact(c: Compressor, a: seq<int>)
    requires AllI64(a) && Steady(a)
    ensures DecodeBlock(c, Item(ToWord(Wrap(a[1] - a[0]))), DeltaConst, a[0], |a|) == Ok(a)
  {
    hide Wrap, Item, ToWord, FromWord, UvarintOf, ZigzagDecode, Zigzag, Groups;
    var d := Wrap(a[1] - a[0]);
    var w := ToWord(d);
    ItemHolds(w);
    UvarintHeld(Item(w), Zigzag(w), []);
    assert Item(w) + [] == Item(w);
    ZigzagRoundTrip(w);
    WordRoundTrip(d);
    SteadyProgression(a, 0);
    assert a[0..] == a;
  }

  /** The two difference codings of a block, decoded. */
  ghost function Decoded(a: seq<int>, p: nat): seq<int>
    requires |a| >= 2
  {
    if Gauge(a) then Sums(a[0], DeltasOf(a, GaugePrecision(p)))
    else [a[0]] + Sums2(a[1], Wrap(a[1] - a[0]), Deltas2Of(a, p))
  }

  lemma GaugeDecodes(c: Compressor, a: seq<int>, p: nat)
    requires c.Valid() && AllI64(a) && !Constant(a) && !Steady(a) && Gauge(a)
    ensures var (mt, first, bytes) := Block(c, a, p);
            CountOk(mt, |a|) && DecodeBlock(c, bytes, mt, first, |a|) == Ok(Decoded(a, p))
  {
    assert |a| >= 2;
    PackRestores(c, EncodeAll(ToWords(DeltasOf(a, GaugePrecision(p)))), |a|);
    DeltaDecodes(a, GaugePrecision(p));
    hide Gauge, Steady, Constant, EncodeAll, DeltasOf, Delta2Bytes, Sums, Sums2, Wrap, DecodeDelta, DecodeDelta2, Deltas2Of, Pack, c.Valid;
  }

  lemma CounterDecodes(c: Compressor, a: seq<int>, p: nat)
    requires c.Valid() && |a| >= 2 && AllI64(a) && !Constant(a) && !Steady(a) && !Gauge(a)
    ensures var (mt, first, bytes) := Block(c, a, p);
            CountOk(mt, |a|) && DecodeBlock(c, bytes, mt, first, |a|) == Ok(Decoded(a, p))
  {
    PackRestores(c, Delta2Bytes(a, p), |a|);
    Delta2Decodes(a, p);
    hide Gauge, Steady, Constant, EncodeAll, DeltasOf, Delta2Bytes, Sums, Sums2, Wrap, DecodeDelta, DecodeDelta2, Deltas2Of, Pack, c.Valid;
  }

  /** Compressed or plain, a block decodes to the sums of its differences. */
  lemma BlockDecodes(c: Compressor, a: seq<int>, p: nat)
    requires c.Valid() && a != [] && AllI64(a) && !Constant(a) && !Steady(a)
    ensures |a| >= 2
    ensures var (mt, first, bytes) := Block(c, a, p);
            CountOk(mt, |a|) && DecodeBlock(c, bytes, mt, first, |a|) == Ok(Decoded(a, p))
  {
    assert |a| == 1 ==> Constant(a);
    if Gauge(a) {
      GaugeDecodes(c, a, p);
    } else {
      CounterDecodes(c, a, p);
    }
    hide *;
  }

  /** Exact round trip: at precision 64 for every block, at every precision for constant and steady ones. */
  lemma BlockRoundTrip(c: Compressor, a: seq<int>, p: nat)
    requires c.Valid() && a != [] && AllI64(a) && PrecisionOk(p)
    requires p == 64 || Constant(a) || Steady(a)
    ensures var (mt, first, bytes) := Block(c, a, p);
            CountOk(mt, |a|) && DecodeBlock(c, bytes, mt, first, |a|) == Ok(a)
  {
    if Constant(a) {
      ConstExact(c, a);
    } else if Steady(a) {
      DeltaConstExact(c, a);
    } else {
      BlockDecodes(c, a, p);
      hide Block, DecodeBlock, Constant, Steady;
      ExactAt64(a);
    }
  }

  lemma ExactAt64(a: seq<int>)
    requires |a| >= 2 && AllI64(a)
    ensures Decoded(a, 64) == a
  {
    hide Gauge, Wrap, Deltas, Deltas2, Sums, Sums2, Excess;
    InitialState(a[0], 64);
    InitialState(a[1], 64);
    if Gauge(a) {
      DeltasExact(a[1..], a[0], Excess(a[0], 64));
      assert [a[0]] + a[1..] == a;
    } else {
      Deltas2Exact(a[2..], a[1], Wrap(a[1] - a[0]), Excess(a[1], 64));
      assert [a[0]] + ([a[1]] + a[2..]) == a;
    }
  }

  /**
   * At lower precisions a gauge item is within the excess of the item, and a counter item within the
   * excess of the item minus the previous decoded one; the first items are exact.
   */
  lemma DecodedWithin(a: seq<int>, p: nat, i: nat)
    requires |a| >= 2 && AllI64(a) && PrecisionOk(p) && i < |a|
    ensures |Decoded(a, p)| == |a|
    ensures var vs := Decoded(a, p);
            if i == 0 || (i == 1 && !Gauge(a)) then vs[i] == a[i]
            else if Gauge(a) then Distance(vs[i], a[i]) < Pow2(Excess(a[i], if p < 6 then p + 2 else p))
            else Distance(vs[i], a[i]) < Pow2(Excess(Wrap(a[i] - vs[i - 1]), p))
  {
    hide Gauge, Wrap, Deltas, Deltas2, Sums, Sums2, Excess, Distance, Pow2;
    if Gauge(a) {
      InitialState(a[0], GaugePrecision(p));
      if i > 0 {
        DeltasBound(a[1..], a[0], GaugePrecision(p), Excess(a[0], GaugePrecision(p)), i - 1);
      }
    } else {
      InitialState(a[1], p);
      if i > 1 {
        Deltas2Bound(a[2..], a[1], Wrap(a[1] - a[0]), p, Excess(a[1], p), i - 2);
      }
    }
  }

  /**
   * The bounds in terms of the values: an item loses less than its share 2^(1 - p), a counter item that share of
   * its step from the decoded item before; gauges at low precision lose less than a quarter of that.
   */
  lemma DecodedRelative(a: seq<int>, p: nat, i: nat)
    requires |a| >= 2 && AllI64(a) && PrecisionOk(p) && i < |a|
    ensures |Decoded(a, p)| == |a|
    ensures var d, v := Distance(Decoded(a, p)[i], a[i]), if Gauge(a) || i < 2 then a[i] else Wrap(a[i] - Decoded(a, p)[i - 1]);
            && (d == 0 || d * Pow2(p) < 2 * Magnitude(v))
            && (Gauge(a) && p < 6 ==> d == 0 || d * Pow2(p + 2) < 2 * Magnitude(v))
  {
    DecodedWithin(a, p, i);
    hide Gauge, Decoded, Excess, Pow2, Wrap, BitLength;
    var vs := Decoded(a, p);
    if i == 0 || (i == 1 && !Gauge(a)) {
      SamePlaceNoDistance(a[i]);
    } else if Gauge(a) {
      var d := Distance(vs[i], a[i]);
      RelativeError(a[i], if p < 6 then p + 2 else p, d);
      if p < 6 {
        PowAdd(2, p);
        PowTwo();
        FourTimes(d, Pow2(p));
      }
    } else {
      RelativeError(Wrap(a[i] - vs[i - 1]), p, Distance(vs[i], a[i]));
    }
  }

  lemma SamePlaceNoDistance(v: int)
    ensures Distance(v, v) == 0
  {
  }

  lemma PowTwo()
    ensures Pow2(2) == 4
  {
  }

  lemma FourTimes(d: nat, x: int)
    requires x > 0
    ensures d * x <= d * (4 * x)
  {
  }

  /** A gauge block of values below 2^62 stays in any range that holds the source and keeps its order. */
  lemma GaugeShapeKept(a: seq<int>, p: nat, lo: int, hi: int)
    requires |a| >= 2 && Gauge(a) && Near(lo) && Near(hi) && forall i :: 0 <= i < |a| ==> lo <= a[i] <= hi
    ensures |Decoded(a, p)| == |a| && forall i :: 0 <= i < |a| ==> lo <= Decoded(a, p)[i] <= hi
    ensures NonDecreasing(a) ==> NonDecreasing(Decoded(a, p))
  {
    var q := GaugePrecision(p);
    hide Gauge, Deltas, Sums, Excess;
    HullKept(a[1..], a[0], q, Excess(a[0], q), lo, hi);
    if NonDecreasing(a) {
      assert [a[0]] + a[1..] == a;
      OrderKept(a[1..], a[0], q, Excess(a[0], q));
    }
  }
}
