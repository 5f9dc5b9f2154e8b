/** The byte forms of nearest-delta and nearest-delta2 sequences. */
module DeltaCodec {
  import opened Options
  import opened Words
  import opened Varint
  import opened VarintBatch
  import opened NearestDelta
  import opened NearestDelta2

  datatype BlockError = BadVarint(cause: VarintError) | TailLeft | BadCompression | DataInConst

  // ----- nearest delta

  /** The differences `marshal_int64_nearest_delta` writes for a non-empty source. */
  function DeltasOf(src: seq<int>, p: nat): seq<int>
    requires src != []
  {
    Deltas(src[1..], src[0], p, Excess(src[0], p))
  }

  lemma DeltasStep(src: seq<int>, v: int, p: nat, zeros: nat, i: nat)
    requires i < |src|
    ensures var (d, z) := RoundedDelta(src[i], v, p, zeros);
            Deltas(src[i..], v, p, zeros) == [d] + Deltas(src[i + 1..], Wrap(v + d), p, z)
  {
    assert src[i..][0] == src[i] && src[i..][1..] == src[i + 1..];
  }

  lemma FullPrecision(next: int, prev: int, zeros: nat)
    requires IsI64(next)
    ensures RoundedDelta(next, prev, 64, zeros).0 == Wrap(next - prev)
  {
    NoExcess(next);
  }

  lemma InitialState(v: int, p: nat)
    requires IsI64(v) && PrecisionOk(p)
    ensures Excess(v, p) <= 63
  {
    BitLength64(Magnitude(v));
  }

  lemma DeltasNone(v: int, p: nat, zeros: nat)
    ensures Deltas([], v, p, zeros) == []
  {
  }

  lemma MoveFirst(before: seq<int>, d: int, rest: seq<int>)
    ensures before + ([d] + rest) == before + [d] + rest
  {
  }

  /** `marshal_int64_nearest_delta`. */
  method MarshalNearestDelta(dst: Bytes, src: seq<int>, p: nat) returns (out: Bytes, first: int)
    requires src != [] && AllI64(src) && PrecisionOk(p)
    ensures first == src[0] && out == dst + EncodeAll(ToWords(DeltasOf(src, p)))
  {
    hide EncodeAll, ToWord, DeltasOf;
    first := src[0];
    var ds: seq<int>;
    if p == 64 {
      ds := FullDeltas(src);
    } else {
      ds := RoundedDeltas(src, p);
    }
    out := MarshalVarInt64s(dst, ToWords(ds));
  }

  /** The fast path for full precision. */
  method FullDeltas(src: seq<int>) returns (all: seq<int>)
    requires src != [] && AllI64(src)
    ensures all == DeltasOf(src, 64)
  {
    hide RoundedDelta, Wrap, Excess, Deltas;
    var v := src[0];
    var rest := src[1..];
    var ds := new int[|rest|];
    ghost var zeros := Excess(v, 64);
    var i := 0;
    assert rest[0..] == rest && ds[..0] == [];
    while i < |rest|
      invariant 0 <= i <= |rest|
      invariant ds[..i] + Deltas(rest[i..], v, 64, zeros) == DeltasOf(src, 64)
    {
      ghost var before := ds[..i];
      DeltasStep(rest, v, 64, zeros, i);
      FullPrecision(rest[i], v, zeros);
      var d := Wrap(rest[i] - v);
      zeros := RoundedDelta(rest[i], v, 64, zeros).1;
      v := Wrap(v + d);
      ds[i] := d;
      assert ds[..i + 1] == before + [d];
      MoveFirst(before, d, Deltas(rest[i + 1..], v, 64, zeros));
      i := i + 1;
    }
    DeltasNone(v, 64, zeros);
    assert rest[i..] == [] && ds[..i] == ds[..];
    all := ds[..];
  }

  /** The slower path: rounded differences and the running state. */
  method RoundedDeltas(src: seq<int>, p: nat) returns (all: seq<int>)
    requires src != []
    ensures all == DeltasOf(src, p)
  {
    hide RoundedDelta, Wrap, Excess, Deltas;
    var v := src[0];
    var rest := src[1..];
    var ds := new int[|rest|];
    var zeros := Excess(v, p);
    var i := 0;
    assert rest[0..] == rest && ds[..0] == [];
    while i < |rest|
      invariant 0 <= i <= |rest|
      invariant ds[..i] + Deltas(rest[i..], v, p, zeros) == DeltasOf(src, p)
    {
      ghost var before := ds[..i];
      DeltasStep(rest, v, p, zeros, i);
      var step := RoundedDelta(rest[i], v, p, zeros);
      zeros := step.1;
      v := Wrap(v + step.0);
      ds[i] := step.0;
      assert ds[..i + 1] == before + [step.0];
      MoveFirst(before, step.0, Deltas(rest[i + 1..], v, p, zeros));
      i := i + 1;
    }
    DeltasNone(v, p, zeros);
    assert rest[i..] == [] && ds[..i] == ds[..];
    all := ds[..];
  }

  /** What `unmarshal_int64_nearest_delta` appends. */
  function DecodeDelta(src: Bytes, first: int, count: nat): Result<seq<int>, BlockError>
    requires count >= 1
  {
    match Unmarshaled(count - 1, src)
    case Err(e) => Err(BadVarint(e))
    case Ok((us, idx)) => if idx < |src| then Err(TailLeft) else Ok(Sums(first, FromWords(us)))
  }

  lemma SumsStep(v: int, ds: seq<int>, i: nat)
    requires i < |ds|
    ensures Sums(v, ds[i..]) == [v] + Sums(Wrap(v + ds[i]), ds[i + 1..])
  {
    assert ds[i..][0] == ds[i] && ds[i..][1..] == ds[i + 1..];
  }

  /** `unmarshal_int64_nearest_delta`: `dst` gains the decoded values, or keeps what it held. */
  method UnmarshalNearestDelta(dst: seq<int>, src: Bytes, first: int, count: nat) returns (out: seq<int>, err: Option<BlockError>)
    requires count >= 1
    ensures match DecodeDelta(src, first, count)
            case Ok(vs) => err == None && out == dst + vs
            case Err(e) => err == Some(e) && out == dst
  {
    hide Wrap, FromWord, Unmarshaled;
    var us := new bv64[count - 1];
    var tail := UnmarshalVarInt64s(us, src);
    out, err := dst, None;
    if tail.Err? {
      err := Some(BadVarint(tail.error));
      return;
    }
    if tail.value != [] {
      err := Some(TailLeft);
      return;
    }
    var ds := FromWords(us[..]);
    var v := first;
    out := out + [v];
    var i := 0;
    assert ds[0..] == ds;
    assert out + Sums(v, ds)[1..] == dst + Sums(first, ds);
    while i < |ds|
      invariant 0 <= i <= |ds|
      invariant out + Sums(v, ds[i..])[1..] == dst + Sums(first, ds)
    {
      SumsStep(v, ds, i);
      ghost var rest := Sums(Wrap(v + ds[i]), ds[i + 1..]);
      assert rest == [rest[0]] + rest[1..];
      ghost var before := out;
      v := Wrap(v + ds[i]);
      out := out + [v];
      assert before + rest == out + rest[1..];
      i := i + 1;
    }
    assert ds[i..] == [];
  }

  lemma DecodeEncoded(ds: seq<int>)
    requires AllI64(ds)
    ensures Unmarshaled(|ds|, EncodeAll(ToWords(ds))) == Ok((ToWords(ds), |EncodeAll(ToWords(ds))|))
    ensures FromWords(ToWords(ds)) == ds
  {
    hide Unmarshaled, EncodeAll;
    var enc := EncodeAll(ToWords(ds));
    BatchRoundTrip(ToWords(ds), []);
    assert enc + [] == enc;
    WordsRoundTrip(ds);
  }

  /** Decoding a delta block gives the running sums of the written differences. */
  lemma DeltaDecodes(src: seq<int>, p: nat)
    requires src != [] && AllI64(src)
    ensures DecodeDelta(EncodeAll(ToWords(DeltasOf(src, p))), src[0], |src|) == Ok(Sums(src[0], DeltasOf(src, p)))
  {
    hide Unmarshaled, EncodeAll, Deltas, Excess;
    DeltasI64(src[1..], src[0], p, Excess(src[0], p));
    DecodeEncoded(DeltasOf(src, p));
  }

  // ----- nearest delta2

  /** The differences `marshal_int64_nearest_delta2` writes after the first one. */
  function Deltas2Of(src: seq<int>, p: nat): seq<int>
    requires |src| >= 2
  {
    Deltas2(src[2..], src[1], Wrap(src[1] - src[0]), p, Excess(src[1], p))
  }

  /** The bytes of a delta2 block: the first difference alone, then the batch. */
  function Delta2Bytes(src: seq<int>, p: nat): Bytes
    requires |src| >= 2
  {
    Item(ToWord(Wrap(src[1] - src[0]))) + EncodeAll(ToWords(Deltas2Of(src, p)))
  }

  lemma Deltas2Step(src: seq<int>, v: int, d1: int, p: nat, zeros: nat, i: nat)
    requires i < |src|
    ensures var (d2, z) := RoundedDelta(Wrap(src[i] - v), d1, p, zeros);
            var e := Wrap(d1 + d2);
            Deltas2(src[i..], v, d1, p, zeros) == [d2] + Deltas2(src[i + 1..], Wrap(v + e), e, p, z)
  {
    assert src[i..][0] == src[i] && src[i..][1..] == src[i + 1..];
  }

  lemma Deltas2None(v: int, d1: int, p: nat, zeros: nat)
    ensures Deltas2([], v, d1, p, zeros) == []
  {
  }

  /** `marshal_int64_nearest_delta2`. */
  method MarshalNearestDelta2(dst: Bytes, src: seq<int>, p: nat) returns (out: Bytes, first: int)
    requires |src| >= 2 && AllI64(src) && PrecisionOk(p)
    ensures first == src[0] && out == dst + Delta2Bytes(src, p)
  {
    hide Wrap, EncodeAll, ToWord, MarshalVarInt64, Item, Deltas2Of;
    first := src[0];
    var d1 := Wrap(src[1] - src[0]);
    MarshalVarInt64Item(dst, ToWord(d1));
    out := MarshalVarInt64(dst, ToWord(d1));
    ghost var item := Item(ToWord(d1));
    var ds: seq<int>;
    if p == 64 {
      ds := FullDeltas2(src);
    } else {
      ds := RoundedDeltas2(src, p);
    }
    out := MarshalVarInt64s(out, ToWords(ds));
    assert dst + item + EncodeAll(ToWords(ds)) == dst + (item + EncodeAll(ToWords(ds)));
  }

  /** The fast path for full precision. */
  method FullDeltas2(src: seq<int>) returns (all: seq<int>)
    requires |src| >= 2
    ensures all == Deltas2Of(src, 64)
  {
    hide RoundedDelta, Wrap, Excess, Deltas2;
    var d1 := Wrap(src[1] - src[0]);
    var v := src[1];
    var rest := src[2..];
    var ds := new int[|rest|];
    ghost var zeros := Excess(v, 64);
    var i := 0;
    assert rest[0..] == rest && ds[..0] == [];
    while i < |rest|
      invariant 0 <= i <= |rest|
      invariant ds[..i] + Deltas2(rest[i..], v, d1, 64, zeros) == Deltas2Of(src, 64)
    {
      ghost var before := ds[..i];
      Deltas2Step(rest, v, d1, 64, zeros, i);
      FullPrecision(Wrap(rest[i] - v), d1, zeros);
      var d2 := Wrap(Wrap(rest[i] - v) - d1);
      zeros := RoundedDelta(Wrap(rest[i] - v), d1, 64, zeros).1;
      d1 := Wrap(d1 + d2);
      v := Wrap(v + d1);
      ds[i] := d2;
      assert ds[..i + 1] == before + [d2];
      MoveFirst(before, d2, Deltas2(rest[i + 1..], v, d1, 64, zeros));
      i := i + 1;
    }
    Deltas2None(v, d1, 64, zeros);
    assert rest[i..] == [] && ds[..i] == ds[..];
    all := ds[..];
  }

  /** The slower path: rounded differences and the running state. */
  method RoundedDeltas2(src: seq<int>, p: nat) returns (all: seq<int>)
    requires |src| >= 2
    ensures all == Deltas2Of(src, p)
  {
    hide RoundedDelta, Wrap, Excess, Deltas2;
    var d1 := Wrap(src[1] - src[0]);
    var v := src[1];
    var rest := src[2..];
    var ds := new int[|rest|];
    var zeros := Excess(v, p);
    var i := 0;
    assert rest[0..] == rest && ds[..0] == [];
    while i < |rest|
      invariant 0 <= i <= |rest|
      invariant ds[..i] + Deltas2(rest[i..], v, d1, p, zeros) == Deltas2Of(src, p)
    {
      ghost var before := ds[..i];
      Deltas2Step(rest, v, d1, p, zeros, i);
      var step := RoundedDelta(Wrap(rest[i] - v), d1, p, zeros);
      zeros := step.1;
      d1 := Wrap(d1 + step.0);
      v := Wrap(v + d1);
      ds[i] := step.0;
      assert ds[..i + 1] == before + [step.0];
      MoveFirst(before, step.0, Deltas2(rest[i + 1..], v, d1, p, zeros));
      i := i + 1;
    }
    Deltas2None(v, d1, p, zeros);
    assert rest[i..] == [] && ds[..i] == ds[..];
    all := ds[..];
  }

  /** The values of a delta2 block: the first value, then sums of sums. */
  function Values2(first: int, ds: seq<int>): seq<int>
    requires ds != []
  {
    [first] + Sums2(Wrap(first + ds[0]), ds[0], ds[1..])
  }

  /** What `unmarshal_int64_nearest_delta2` appends. */
  function DecodeDelta2(src: Bytes, first: int, count: nat): Result<seq<int>, BlockError>
    requires count >= 2
  {
    match Unmarshaled(count - 1, src)
    case Err(e) => Err(BadVarint(e))
    case Ok((us, idx)) => if idx < |src| then Err(TailLeft) else Ok(Values2(first, FromWords(us)))
  }

  lemma Sums2Step(v: int, d1: int, ds: seq<int>, i: nat)
    requires i < |ds|
    ensures var e := Wrap(d1 + ds[i]); Sums2(v, d1, ds[i..]) == [v] + Sums2(Wrap(v + e), e, ds[i + 1..])
  {
    assert ds[i..][0] == ds[i] && ds[i..][1..] == ds[i + 1..];
  }

  lemma Sums2None(v: int, d1: int)
    ensures Sums2(v, d1, []) == [v]
  {
  }

  /** `unmarshal_int64_nearest_delta2`. */
  method UnmarshalNearestDelta2(dst: seq<int>, src: Bytes, first: int, count: nat) returns (out: seq<int>, err: Option<BlockError>)
    requires count >= 2
    ensures match DecodeDelta2(src, first, count)
            case Ok(vs) => err == None && out == dst + vs
            case Err(e) => err == Some(e) && out == dst
  {
    hide Unmarshaled, FromWord, Values2;
    var us := new bv64[count - 1];
    var tail := UnmarshalVarInt64s(us, src);
    out, err := dst, None;
    if tail.Err? {
      err := Some(BadVarint(tail.error));
      return;
    }
    if tail.value != [] {
      err := Some(TailLeft);
      return;
    }
    var vs := SumTwice(first, FromWords(us[..]));
    out := out + vs;
  }

  /** The decoding loop, which fills the new part of the output by index. */
  method SumTwice(first: int, ds: seq<int>) returns (all: seq<int>)
    requires ds != []
    ensures all == Values2(first, ds)
  {
    hide Wrap, Sums2;
    var a := new int[|ds| + 1];
    var v, d1 := first, ds[0];
    a[0] := v;
    v := Wrap(v + d1);
    a[1] := v;
    var rest := ds[1..];
    var i := 0;
    assert rest[0..] == rest;
    assert a[..1] == [first];
    while i < |rest|
      invariant 0 <= i <= |rest| && a[i + 1] == v
      invariant a[..i + 1] + Sums2(v, d1, rest[i..]) == Values2(first, ds)
    {
      Sums2Step(v, d1, rest, i);
      ghost var before := a[..i + 1];
      ghost var old1 := v;
      d1 := Wrap(d1 + rest[i]);
      v := Wrap(v + d1);
      a[i + 2] := v;
      assert a[..i + 2] == before + [old1];
      MoveFirst(before, old1, Sums2(v, d1, rest[i + 1..]));
      i := i + 1;
    }
    Sums2None(v, d1);
    assert rest[i..] == [];
    assert a[..] == a[..i + 1] + [v];
    all := a[..];
  }

  lemma Cons<T>(x: T, s: seq<T>)
    ensures ([x] + s)[0] == x && ([x] + s)[1..] == s
  {
  }

  lemma WordsCons(d: int, ds: seq<int>)
    ensures ToWords([d] + ds) == [ToWord(d)] + ToWords(ds)
  {
    hide ToWord;
  }

  /** The first item, in either of its forms, and the batch after it are read as one batch. */
  lemma ItemThenBatch(d: int, ds: seq<int>)
    requires IsI64(d) && AllI64(ds)
    ensures var src := Item(ToWord(d)) + EncodeAll(ToWords(ds));
            Unmarshaled(|ds| + 1, src) == Ok((ToWords([d] + ds), |src|))
  {
    hide Item, ToWord, EncodeAll, DecodeAll, Read, Zigzag, ZigzagDecode;
    var u := ToWord(d);
    var item, rest := Item(u), EncodeAll(ToWords(ds));
    var src := item + rest;
    ItemHolds(u);
    assert [] + item + rest == src;
    ReadHeld([], item, Zigzag(u), rest);
    ZigzagRoundTrip(u);
    DecodeStep([], |ds| + 1, src, 0, Zigzag(u), |item|);
    assert [] + [u] == [u];
    assert item + rest + [] == src;
    DecodeAfter(item, [u], ToWords(ds), []);
    WordsCons(d, ds);
    DecodeNeedsBytes([], |ds| + 1, src, 0);
  }

  /** Decoding a delta2 block gives the first value and the sums of sums of the written differences. */
  lemma Delta2Decodes(src: seq<int>, p: nat)
    requires |src| >= 2 && AllI64(src)
    ensures DecodeDelta2(Delta2Bytes(src, p), src[0], |src|)
         == Ok([src[0]] + Sums2(src[1], Wrap(src[1] - src[0]), Deltas2Of(src, p)))
  {
    hide Unmarshaled, EncodeAll, Deltas2, Excess, Item, ToWord, Wrap;
    var d1 := Wrap(src[1] - src[0]);
    var ds := Deltas2Of(src, p);
    Deltas2I64(src[2..], src[1], d1, p, Excess(src[1], p));
    ItemThenBatch(d1, ds);
    WordsRoundTrip([d1] + ds);
    Cons(d1, ds);
    FullDelta(src[1], src[0]);
  }
}
