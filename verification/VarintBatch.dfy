/** Zigzag coding and the batch forms of the variable-length integers. */
module VarintBatch {
  import opened Options
  import opened Varint
  import opened VarintReader

  // ----- signed integers

  /** `v >> 63` on a signed integer: all bits equal to the sign. */
  function Sign(v: bv64): bv64 {
    if v & TOP != 0 then 0xffff_ffff_ffff_ffff else 0
  }

  /** The signed comparison. */
  predicate Less(a: bv64, b: bv64) {
    a ^ TOP < b ^ TOP
  }

  function Zigzag(v: bv64): bv64 {
    (v << 1) ^ Sign(v)
  }

  function ZigzagDecode(u: bv64): bv64 {
    (u >> 1) ^ Sign(u << 63)
  }

  /** The decoding of a single byte: the same on eight bits, then sign-extended. */
  function ZigzagDecode8(c: bv8): bv64 {
    var x := (c >> 1) ^ (if c & 1 != 0 then 0xff else 0);
    if x & 0x80 != 0 then (x as bv64) | 0xffff_ffff_ffff_ff00 else x as bv64
  }

  const MINUS_64: bv64 := 0xffff_ffff_ffff_ffc0

  /** Strictly between -64 and 64: the one-byte fast path. */
  predicate Small(v: bv64) {
    Less(v, 64) && Less(MINUS_64, v)
  }

  lemma ZigzagNonNegative(v: bv64)
    requires v & TOP == 0
    ensures Zigzag(v) == v << 1 && (v << 1) >> 1 == v && (v << 1) << 63 == 0
  {
  }

  lemma ZigzagNegative(v: bv64)
    requires v & TOP != 0
    ensures Zigzag(v) == !(v << 1) && !((!(v << 1)) >> 1) == v && ((!(v << 1)) << 63) & TOP != 0
  {
  }

  lemma DecodeEven(u: bv64)
    requires u << 63 == 0
    ensures ZigzagDecode(u) == u >> 1
  {
  }

  lemma DecodeOdd(u: bv64)
    requires (u << 63) & TOP != 0
    ensures ZigzagDecode(u) == !(u >> 1)
  {
  }

  /** Zigzag decoding inverts the coding on every word. */
  lemma ZigzagRoundTrip(v: bv64)
    ensures ZigzagDecode(Zigzag(v)) == v
  {
    if v & TOP == 0 {
      ZigzagNonNegative(v);
      DecodeEven(v << 1);
    } else {
      ZigzagNegative(v);
      DecodeOdd(!(v << 1));
    }
    hide *;
  }

  lemma ZigzagByte(c: bv8)
    requires c < 0x80
    ensures ZigzagDecode8(c) == ZigzagDecode(c as bv64)
  {
  }

  lemma SmallIsByte(v: bv64)
    ensures Small(v) ==> Zigzag(v) < 0x80
    ensures !Small(v) && v != MINUS_64 ==> Zigzag(v) >= 0x80
    ensures !Small(MINUS_64) && Zigzag(MINUS_64) == 0x7f
  {
  }

  // ----- one number, written and read back

  /** The length and the tenth byte of an encoding. */
  lemma CanonicalLength(u: bv64)
    ensures |Canonical(u)| <= 9 || (|Canonical(u)| == 10 && Canonical(u)[9] == 1)
  {
    hide Canonical, Low8, Digits, Marked;
    if u >= 0x8000_0000_0000_0000 {
      CanonicalTop(u, 9);
      MarkedLength(u, 9);
    } else if u < 0x80 {
      LastIsCanonical(u);
    } else {
      var n := if u < 0x4000 then 1 else if u < 0x20_0000 then 2 else if u < 0x1000_0000 then 3
        else if u < 0x8_0000_0000 then 4 else if u < 0x400_0000_0000 then 5
        else if u < 0x2_0000_0000_0000 then 6 else if u < 0x100_0000_0000_0000 then 7 else 8;
      CanonicalDigits(u, n);
      DigitsLength(u, n);
    }
  }

  lemma {:induction false} MarkedLength(u: bv64, n: nat)
    ensures |Marked(u, n)| == n
  {
    if n > 0 {
      MarkedLength(u >> 7, n - 1);
    }
  }

  lemma {:induction false} DigitsLength(u: bv64, n: nat)
    ensures |Digits(u, n)| == n + 1
  {
    if n > 0 {
      DigitsLength(u >> 7, n - 1);
    }
  }

  lemma TenthByte(b: Bytes)
    requires |b| == 10 && b[9] == 1
    ensures Groups(b) == Or(Groups(b[..9]), TOP)
  {
    hide Or, Shl7, Shifted, Groups, Group;
    GroupsIsShifted(b);
    GroupsIsShifted(b[..9]);
    assert b[..9] + [b[9]] == b;
    ShiftedSnoc(b[..9], b[9], 0);
    GroupOfLast(b[9]);
    TopIsShifted();
  }

  /** The bytes `enc` hold exactly the number `u` in a form every reader accepts. */
  ghost predicate Holds(enc: Bytes, u: bv64) {
    && 1 <= |enc| <= 10 && enc[|enc| - 1] < 0x80 && (|enc| == 10 ==> enc[9] == 1)
    && (forall k :: 0 <= k < |enc| - 1 ==> enc[k] >= 0x80)
    && Groups(enc) == u
  }

  lemma CanonicalHolds(u: bv64)
    ensures Holds(Canonical(u), u)
  {
    hide Canonical, Groups;
    CanonicalValue(u);
    CanonicalMarks(u);
    CanonicalLength(u);
  }

  lemma StopOf(pre: Bytes, enc: Bytes, u: bv64, tail: Bytes)
    requires Holds(enc, u)
    ensures StopAt(pre + enc + tail, |pre|) == |pre| + |enc| - 1
  {
    hide Groups;
    var src := pre + enc + tail;
    assert forall k :: 0 <= k < |enc| ==> src[|pre| + k] == enc[k];
    assert forall k :: |pre| <= k < |pre| + |enc| ==> src[k] == enc[k - |pre|];
    StopAtUnique(src, |pre|, |pre| + |enc| - 1);
  }

  /** The batch readers read the number back, wherever it stands. */
  lemma ReadHeld(pre: Bytes, enc: Bytes, u: bv64, tail: Bytes)
    requires Holds(enc, u)
    ensures Read(pre + enc + tail, |pre|) == (Ok(u), |pre| + |enc|)
  {
    hide Groups, Or;
    StopOf(pre, enc, u, tail);
    var src := pre + enc + tail;
    assert src[|pre|..|pre| + |enc|] == enc;
    if |enc| == 10 {
      assert src[|pre|..|pre| + 9] == enc[..9];
      assert src[|pre| + 9] == 1;
      TenthByte(enc);
    }
  }

  /** So does the single reader. */
  lemma UvarintHeld(enc: Bytes, u: bv64, tail: Bytes)
    requires Holds(enc, u)
    ensures UvarintOf(enc + tail) == (u, |enc|)
  {
    hide Groups;
    StopOf([], enc, u, tail);
    assert [] + enc + tail == enc + tail;
    assert (enc + tail)[..|enc|] == enc;
  }

  /** The bytes `marshal_var_int64` writes: minimal, except that -64 takes two bytes. */
  function Item(v: bv64): Bytes {
    if v == MINUS_64 then [0xff, 0] else Canonical(Zigzag(v))
  }

  /** `marshal_var_int64`. */
  function MarshalVarInt64(dst: Bytes, v: bv64): Bytes {
    var u := Zigzag(v);
    if Small(v) then dst + [Low8(u)] else AppendLarge(dst, u)
  }

  /** The rest of `marshal_var_int64`, past its one-byte test. */
  function AppendLarge(dst: Bytes, u: bv64): Bytes {
    if u < 0x4000 then dst + Digits(u, 1)
    else if u < 0x20_0000 then dst + Digits(u, 2)
    else AppendVarUint64(dst, u)
  }

  lemma MinusSixtyFour()
    ensures Digits(0x7f, 1) == [0xff, 0]
  {
    assert Digits(0, 0) == [0];
    assert Low8(0x7f | 0x80) == 0xff;
  }

  lemma MarshalMinusSixtyFour(dst: Bytes)
    ensures MarshalVarInt64(dst, MINUS_64) == dst + [0xff, 0]
    ensures Canonical(Zigzag(MINUS_64)) == [0x7f]
  {
    SmallIsByte(MINUS_64);
    LastIsCanonical(0x7f);
    MinusSixtyFour();
    assert Low8(0x7f) == 0x7f;
    hide Digits, Zigzag, Small;
  }

  lemma LargeIsCanonical(dst: Bytes, u: bv64)
    requires u >= 0x80
    ensures AppendLarge(dst, u) == dst + Canonical(u)
  {
    hide Canonical, Digits, Low8, AppendVarUint64;
    if u < 0x4000 {
      CanonicalDigits(u, 1);
    } else if u < 0x20_0000 {
      CanonicalDigits(u, 2);
    } else {
      AppendIsCanonical(dst, u);
    }
  }

  lemma MarshalOther(dst: Bytes, v: bv64)
    requires v != MINUS_64
    ensures MarshalVarInt64(dst, v) == dst + Canonical(Zigzag(v))
  {
    hide Canonical, Low8, AppendLarge, Zigzag, Small;
    SmallIsByte(v);
    if Small(v) {
      LastIsCanonical(Zigzag(v));
    } else {
      LargeIsCanonical(dst, Zigzag(v));
    }
  }

  /** The single writer appends the item, which is the minimal form if and only if `v` is not -64. */
  lemma MarshalVarInt64Item(dst: Bytes, v: bv64)
    ensures MarshalVarInt64(dst, v) == dst + Item(v)
    ensures Item(v) == Canonical(Zigzag(v)) <==> v != MINUS_64
  {
    hide Canonical, MarshalVarInt64, Zigzag;
    if v == MINUS_64 {
      MarshalMinusSixtyFour(dst);
    } else {
      MarshalOther(dst, v);
    }
  }

  lemma ItemHolds(v: bv64)
    ensures Holds(Item(v), Zigzag(v))
  {
    CanonicalHolds(Zigzag(v));
    if v == MINUS_64 {
      SmallIsByte(v);
      TwoBytes();
    }
  }

  lemma TwoBytes()
    ensures Groups([0xff, 0]) == 0x7f
  {
    GroupsOne(0);
    var b: Bytes := [0xff, 0];
    assert b[1..] == [0];
  }

  // ----- agreement of the two decoders

  predicate Below7(x: bv64, n: nat) {
    match n
    case 0 => x == 0
    case 1 => x <= 0x7f
    case 2 => x <= 0x3fff
    case 3 => x <= 0x1f_ffff
    case 4 => x <= 0xfff_ffff
    case 5 => x <= 0x7_ffff_ffff
    case 6 => x <= 0x3ff_ffff_ffff
    case 7 => x <= 0x1_ffff_ffff_ffff
    case 8 => x <= 0xff_ffff_ffff_ffff
    case 9 => x <= 0x7fff_ffff_ffff_ffff
    case _ => false
  }

  lemma Below7Step(a: bv8, y: bv64, n: nat)
    requires 1 <= n <= 9 && Below7(y, n - 1)
    ensures Below7(Or(Group(a), Up7(y)), n)
  {
  }

  lemma {:induction false} GroupsBelow(b: Bytes)
    requires |b| <= 9
    ensures Below7(Groups(b), |b|)
  {
    if b != [] {
      hide Or, Up7, Group, Below7;
      GroupsBelow(b[1..]);
      Below7Step(b[0], Groups(b[1..]), |b|);
    }
  }

  lemma TopAdded(x: bv64)
    requires Below7(x, 9)
    ensures Or(x, TOP) != x
  {
  }

  /** A tenth byte 0: `uvarint` drops it and the batch readers set bit 63. */
  predicate LongZero(src: Bytes) {
    |src| >= 10 && StopAt(src, 0) == 9 && src[9] == 0
  }

  /**
   * Both decoders accept the same inputs and read the same number of bytes; the values agree if and
   * only if the number is not a ten-byte form ending in 0.
   */
  lemma UvarintAgrees(src: Bytes)
    ensures UvarintOf(src).1 > 0 <==> Read(src, 0).0.Ok?
    ensures Read(src, 0).0.Ok? ==> UvarintOf(src).1 == Read(src, 0).1
    ensures Read(src, 0).0.Ok? ==> (UvarintOf(src).0 == Read(src, 0).0.value <==> !LongZero(src))
  {
    hide Groups, Or, Below7;
    var t := StopAt(src, 0);
    if t == 9 && t < |src| && src[9] <= 1 {
      var b := src[..10];
      assert b[..9] == src[..9] && src[0..9] == src[..9];
      if src[9] == 1 {
        TenthByte(b);
      } else {
        TenthZero(b);
        GroupsBelow(b[..9]);
        TopAdded(Groups(b[..9]));
      }
    } else if t < 9 {
      assert src[0..|src|] == src;
      if t < |src| {
        assert src[0..t + 1] == src[..t + 1];
      }
    }
  }

  lemma TenthZero(b: Bytes)
    requires |b| == 10 && b[9] == 0
    ensures Groups(b) == Groups(b[..9])
  {
    hide Or, Shl7, Shifted, Groups, Group;
    GroupsIsShifted(b);
    GroupsIsShifted(b[..9]);
    assert b[..9] + [b[9]] == b;
    ShiftedSnoc(b[..9], b[9], 0);
    GroupOfLast(b[9]);
    Shl7Zero(9);
    OrZero(Groups(b[..9]));
  }

  // ----- batches

  /** The minimal encodings of the items, one after another. */
  function EncodeAll(vs: seq<bv64>): Bytes {
    if vs == [] then [] else EncodeAll(vs[..|vs| - 1]) + Canonical(Zigzag(vs[|vs| - 1]))
  }

  lemma EncodeAllSnoc(vs: seq<bv64>, i: nat)
    requires i < |vs|
    ensures EncodeAll(vs[..i + 1]) == EncodeAll(vs[..i]) + Canonical(Zigzag(vs[i]))
  {
    assert vs[..i + 1][..i] == vs[..i];
  }

  lemma EncodeAllNone(vs: seq<bv64>)
    ensures EncodeAll(vs[..0]) == []
  {
  }

  lemma SmallItem(v: bv64)
    requires Small(v)
    ensures Canonical(Zigzag(v)) == [Low8(Zigzag(v))]
  {
    hide Zigzag, Small, Low8, Canonical;
    SmallIsByte(v);
    LastIsCanonical(Zigzag(v));
  }

  /** `marshal_var_int64s`: the one-byte fast path, cut back and restarted at the first large item. */
  method MarshalVarInt64s(dst: Bytes, vs: seq<bv64>) returns (out: Bytes)
    ensures out == dst + EncodeAll(vs)
  {
    hide EncodeAll, Canonical, Zigzag, Low8, Small;
    var dstLen := |dst|;
    out := dst;
    EncodeAllNone(vs);
    var i := 0;
    while i < |vs|
      invariant 0 <= i <= |vs|
      invariant out == dst + EncodeAll(vs[..i])
    {
      var v := vs[i];
      if !Small(v) {
        out := out[..dstLen];
        assert out == dst;
        out := MarshalVarInt64sSlow(out, vs);
        return;
      }
      EncodeAllSnoc(vs, i);
      SmallItem(v);
      out := out + [Low8(Zigzag(v))];
      i := i + 1;
    }
    assert vs[..|vs|] == vs;
  }

  method MarshalVarInt64sSlow(dst: Bytes, vs: seq<bv64>) returns (out: Bytes)
    ensures out == dst + EncodeAll(vs)
  {
    hide EncodeAll, Canonical, Zigzag, AppendVarUint64;
    out := dst;
    EncodeAllNone(vs);
    var i := 0;
    while i < |vs|
      invariant 0 <= i <= |vs|
      invariant out == dst + EncodeAll(vs[..i])
    {
      AppendIsCanonical(out, Zigzag(vs[i]));
      EncodeAllSnoc(vs, i);
      out := AppendVarUint64(out, Zigzag(vs[i]));
      i := i + 1;
    }
    assert vs[..|vs|] == vs;
  }

  type Decoded = Result<(seq<bv64>, nat), VarintError>

  /** `n` numbers read from `idx` on, after those of `acc`. */
  function DecodeAll(acc: seq<bv64>, n: nat, src: Bytes, idx: nat): (r: Decoded)
    ensures r.Ok? ==> |r.value.0| == |acc| + n
    decreases n
  {
    if n == 0 then Ok((acc, idx))
    else
      match Read(src, idx)
      case (Err(e), _) => Err(e)
      case (Ok(u), j) => DecodeAll(acc + [ZigzagDecode(u)], n - 1, src, j)
  }

  /** What `unmarshal_var_int64s` returns. */
  function Unmarshaled(n: nat, src: Bytes): (r: Decoded)
    ensures r.Ok? ==> |r.value.0| == n
  {
    if |src| < n then Err(TooFewBytes) else DecodeAll([], n, src, 0)
  }

  /** The initial length test only refuses inputs that would fail anyway. */
  lemma {:induction false} DecodeNeedsBytes(acc: seq<bv64>, n: nat, src: Bytes, idx: nat)
    requires idx <= |src|
    ensures DecodeAll(acc, n, src, idx).Ok? ==> idx + n <= DecodeAll(acc, n, src, idx).value.1 <= |src|
    decreases n
  {
    hide ZigzagDecode;
    if n > 0 {
      match Read(src, idx)
      case (Err(_), _) =>
      case (Ok(u), j) => DecodeNeedsBytes(acc + [ZigzagDecode(u)], n - 1, src, j);
    }
  }

  lemma ReadOneByte(src: Bytes, idx: nat)
    requires idx < |src| && src[idx] < 0x80
    ensures Read(src, idx) == (Ok(src[idx] as bv64), idx + 1)
  {
    hide Groups, Group;
    assert src[idx..idx + 1] == [src[idx]];
    GroupsOne(src[idx]);
    GroupOfLast(src[idx]);
  }

  lemma DecodeStep(acc: seq<bv64>, n: nat, src: Bytes, idx: nat, u: bv64, j: nat)
    requires n > 0 && Read(src, idx) == (Ok(u), j)
    ensures DecodeAll(acc, n, src, idx) == DecodeAll(acc + [ZigzagDecode(u)], n - 1, src, j)
  {
  }

  /** `unmarshal_var_int64s`: one-byte items first, then the word-at-a-time reader from there on. */
  method UnmarshalVarInt64s(dst: array<bv64>, src: Bytes) returns (r: Result<Bytes, VarintError>)
    modifies dst
    ensures r.Ok? <==> Unmarshaled(dst.Length, src).Ok?
    ensures r.Err? ==> r.error == Unmarshaled(dst.Length, src).error
    ensures r.Ok? ==> dst[..] == Unmarshaled(dst.Length, src).value.0
    ensures r.Ok? ==> Unmarshaled(dst.Length, src).value.1 <= |src| && r.value == src[Unmarshaled(dst.Length, src).value.1..]
  {
    hide Read, DecodeAll, ZigzagDecode, ZigzagDecode8;
    var n := dst.Length;
    if |src| < n {
      return Err(TooFewBytes);
    }
    DecodeNeedsBytes([], n, src, 0);
    var i := 0;
    assert dst[..0] == [];
    while i < n
      invariant 0 <= i <= n
      invariant DecodeAll(dst[..i], n - i, src, i) == DecodeAll([], n, src, 0)
    {
      var c := src[i];
      if c >= 0x80 {
        break;
      }
      ReadOneByte(src, i);
      ZigzagByte(c);
      DecodeStep(dst[..i], n - i, src, i, c as bv64, i + 1);
      ghost var before := dst[..i];
      dst[i] := ZigzagDecode8(c);
      assert dst[..i + 1] == before + [dst[i]];
      i := i + 1;
    }
    if i == n {
      assert dst[..n] == dst[..];
      DecodeDone(dst[..], src, n);
      return Ok(src[n..]);
    }
    r := UnmarshalMixed(dst, src, i);
  }

  lemma DecodeDone(acc: seq<bv64>, src: Bytes, idx: nat)
    ensures DecodeAll(acc, 0, src, idx) == Ok((acc, idx))
  {
  }

  lemma DecodeFails(acc: seq<bv64>, n: nat, src: Bytes, idx: nat)
    requires n > 0 && Read(src, idx).0.Err?
    ensures DecodeAll(acc, n, src, idx) == Err(Read(src, idx).0.error)
  {
  }

  /** The mixed path, from item `first` at byte `first`. */
  method UnmarshalMixed(dst: array<bv64>, src: Bytes, first: nat) returns (r: Result<Bytes, VarintError>)
    requires first <= dst.Length <= |src|
    requires DecodeAll(dst[..first], dst.Length - first, src, first) == DecodeAll([], dst.Length, src, 0)
    modifies dst
    ensures r.Ok? <==> DecodeAll([], dst.Length, src, 0).Ok?
    ensures r.Err? ==> r.error == DecodeAll([], dst.Length, src, 0).error
    ensures r.Ok? ==> dst[..] == DecodeAll([], dst.Length, src, 0).value.0
    ensures r.Ok? ==> DecodeAll([], dst.Length, src, 0).value.1 <= |src| && r.value == src[DecodeAll([], dst.Length, src, 0).value.1..]
  {
    hide Read, DecodeAll, ZigzagDecode;
    var n := dst.Length;
    var idx: nat, i := first, first;
    while i < n
      invariant first <= i <= n && idx <= |src|
      invariant DecodeAll(dst[..i], n - i, src, idx) == DecodeAll([], n, src, 0)
    {
      var u, j := ReadVarUint64Fast(src, idx);
      if u.Err? {
        DecodeFails(dst[..i], n - i, src, idx);
        return Err(u.error);
      }
      DecodeStep(dst[..i], n - i, src, idx, u.value, j);
      ghost var before := dst[..i];
      dst[i] := ZigzagDecode(u.value);
      assert dst[..i + 1] == before + [dst[i]];
      idx, i := j, i + 1;
    }
    assert dst[..n] == dst[..];
    DecodeDone(dst[..], src, idx);
    return Ok(src[idx..]);
  }

  // ----- the round trip

  lemma {:induction false} EncodeAllPrefix(vs: seq<bv64>, i: nat)
    requires i <= |vs|
    ensures EncodeAll(vs[..i]) <= EncodeAll(vs)
    decreases |vs|
  {
    hide Canonical, Zigzag;
    if i == |vs| {
      assert vs[..i] == vs;
    } else {
      var short := vs[..|vs| - 1];
      EncodeAllPrefix(short, i);
      assert short[..i] == vs[..i];
    }
  }

  lemma {:induction false} DecodeAfterFrom(pre: Bytes, acc: seq<bv64>, vs: seq<bv64>, i: nat, tail: Bytes)
    requires i <= |vs|
    ensures DecodeAll(acc + vs[..i], |vs| - i, pre + EncodeAll(vs) + tail, |pre| + |EncodeAll(vs[..i])|)
         == Ok((acc + vs, |pre| + |EncodeAll(vs)|))
    decreases |vs| - i
  {
    hide Read, Canonical, Zigzag, ZigzagDecode, EncodeAll, DecodeAll;
    var src := pre + EncodeAll(vs) + tail;
    if i == |vs| {
      assert vs[..i] == vs;
      DecodeDone(acc + vs, src, |pre| + |EncodeAll(vs)|);
    } else {
      EncodeAllPrefix(vs, i + 1);
      EncodeAllSnoc(vs, i);
      var before, enc := pre + EncodeAll(vs[..i]), Canonical(Zigzag(vs[i]));
      var rest := EncodeAll(vs)[|EncodeAll(vs[..i + 1])|..] + tail;
      assert src == before + enc + rest;
      CanonicalHolds(Zigzag(vs[i]));
      ReadHeld(before, enc, Zigzag(vs[i]), rest);
      ZigzagRoundTrip(vs[i]);
      DecodeStep(acc + vs[..i], |vs| - i, src, |before|, Zigzag(vs[i]), |before| + |enc|);
      assert acc + vs[..i] + [vs[i]] == acc + vs[..i + 1];
      DecodeAfterFrom(pre, acc, vs, i + 1, tail);
    }
  }

  /** Decoding a batch that stands between other bytes, onto what was decoded before. */
  lemma DecodeAfter(pre: Bytes, acc: seq<bv64>, vs: seq<bv64>, tail: Bytes)
    ensures DecodeAll(acc, |vs|, pre + EncodeAll(vs) + tail, |pre|) == Ok((acc + vs, |pre| + |EncodeAll(vs)|))
  {
    hide EncodeAll, DecodeAll;
    EncodeAllNone(vs);
    assert vs[..0] == [] && acc + [] == acc;
    DecodeAfterFrom(pre, acc, vs, 0, tail);
  }

  /** Decoding a batch inverts the batch encoder and leaves what follows. */
  lemma BatchRoundTrip(vs: seq<bv64>, tail: Bytes)
    ensures Unmarshaled(|vs|, EncodeAll(vs) + tail) == Ok((vs, |EncodeAll(vs)|))
  {
    hide DecodeAll, EncodeAll;
    DecodeAfter([], [], vs, tail);
    assert [] + EncodeAll(vs) + tail == EncodeAll(vs) + tail && [] + vs == vs;
    DecodeNeedsBytes([], |vs|, EncodeAll(vs) + tail, 0);
  }
}
