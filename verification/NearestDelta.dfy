/**
 * Nearest-delta coding of i64 sequences: differences whose low bits are cleared according to the
 * precision, with wrap-around, and the two integer decoders.
 */
module NearestDelta {
  import opened Words

  // ----- bit lengths

  /** `64 - leading_zeros` of an unsigned number. */
  function BitLength(n: nat): nat {
    if n == 0 then 0 else 1 + BitLength(n / 2)
  }

  /** The bit length is the exponent of the least power of two above the number. */
  lemma {:induction false} BitLengthMeaning(n: nat)
    ensures n < Pow2(BitLength(n))
    ensures n > 0 ==> Pow2(BitLength(n) - 1) <= n
  {
    if n > 0 {
      BitLengthMeaning(n / 2);
      if n > 1 {
        assert Pow2(BitLength(n) - 1) == 2 * Pow2(BitLength(n / 2) - 1);
      }
    }
  }

  lemma {:induction false} PowMonotone(m: nat, n: nat)
    requires m <= n
    ensures Pow2(m) <= Pow2(n)
  {
    if m < n {
      PowMonotone(m, n - 1);
    }
  }

  lemma BitLength64(n: nat)
    requires n < TWO64
    ensures BitLength(n) <= 64
  {
    if BitLength(n) > 64 {
      BitLengthMeaning(n);
      PowMonotone(64, BitLength(n) - 1);
      Pow64();
    }
  }

  // ----- one rounded difference

  function Magnitude(v: int): nat {
    if v < 0 then -v else v
  }

  /** `get_trailing_zeros`: how many low bits of `v` lie beyond the precision. */
  function Excess(v: int, p: nat): nat {
    var bits := BitLength(Magnitude(v));
    if bits <= p then 0 else bits - p
  }

  function DecIfNonZero(n: nat): nat {
    if n == 0 then 0 else n - 1
  }

  /** The low `zeros` bits of a magnitude cleared: the mask `u64::MAX << zeros`. */
  function Mask(m: nat, zeros: nat): (r: int)
    ensures 0 <= r <= m < r + Pow2(zeros)
  {
    RemainderBound(m, Pow2(zeros));
    m - m % Pow2(zeros)
  }

  lemma RemainderBound(m: nat, p: int)
    requires p > 0
    ensures 0 <= m % p <= m && m % p < p
  {
    var q := m / p;
    assert m == q * p + m % p;
    assert q >= 0;
  }

  /** The difference with the low bits of its magnitude cleared, as an i64. */
  function Cleared(d: int, zeros: nat): int {
    var nd := Wrap(Mask(Magnitude(d), zeros));
    if d < 0 then Wrap(-nd) else nd
  }

  predicate PrecisionOk(p: nat) {
    1 <= p <= 64
  }

  /** `nearest_delta`. */
  function RoundedDelta(next: int, prev: int, p: nat, prevZeros: nat): (int, nat) {
    var d := Wrap(next - prev);
    if d == 0 then (0, DecIfNonZero(prevZeros))
    else
      var originBits := BitLength(Magnitude(next));
      if originBits <= p then (d, DecIfNonZero(prevZeros))
      else
        var zeros := originBits - p;
        if zeros > prevZeros + 4 then (d, prevZeros + 2)
        else if zeros + 4 < prevZeros then (d, prevZeros - 2)
        else (Cleared(d, zeros), zeros)
  }

  /** The distance of two i64 on the circle of 2^64 values. */
  function Distance(x: int, y: int): nat {
    Magnitude(Wrap(x - y))
  }

  /** `d` with its magnitude rounded down, before wrapping. */
  ghost function Rounded(d: int, zeros: nat): int {
    if d < 0 then -Mask(-d, zeros) else Mask(d, zeros)
  }

  lemma RoundedTowardZero(d: int, zeros: nat)
    ensures Magnitude(Rounded(d, zeros) - d) < Pow2(zeros)
    ensures if d < 0 then d <= Rounded(d, zeros) <= 0 else 0 <= Rounded(d, zeros) <= d
  {
  }

  lemma ClearedCong(d: int, zeros: nat)
    ensures Cong(Cleared(d, zeros), Rounded(d, zeros)) && IsI64(Cleared(d, zeros))
  {
    hide Mask, Wrap, Cong;
    var m := Mask(Magnitude(d), zeros);
    CongWrap(m);
    CongWrap(-Wrap(m));
    if d < 0 {
      CongAdd(0, 0, Wrap(m), m) by {
        CongWrap(0);
      }
      CongTrans(Wrap(-Wrap(m)), -Wrap(m), -m);
    }
  }

  /** The new value lies where rounding the exact difference puts it, modulo 2^64. */
  lemma ClearedDistance(next: int, prev: int, zeros: nat)
    requires zeros <= 63
    ensures Distance(Wrap(prev + Cleared(Wrap(next - prev), zeros)), next) < Pow2(zeros)
  {
    hide Wrap, Cong, Cleared, Rounded, Pow2;
    var d := Wrap(next - prev);
    var c := Cleared(d, zeros);
    var e := Rounded(d, zeros) - d;
    RoundedTowardZero(d, zeros);
    PowMonotone(zeros, 63);
    Pow63();
    ClearedCong(d, zeros);
    StepCong(next, prev, c, Rounded(d, zeros));
    WrapCong(Wrap(prev + c) - next, e);
  }

  lemma Pow63()
    ensures Pow2(63) == TWO63
  {
    Pow64();
    assert Pow2(64) == 2 * Pow2(63);
  }

  lemma StepCong(next: int, prev: int, c: int, r: int)
    requires Cong(c, r)
    ensures Cong(Wrap(prev + c) - next, r - Wrap(next - prev))
  {
    hide Wrap, Cong;
    CongWrap(prev + c);
    CongWrap(next - prev);
    CongWrap(next);
    CongWrap(prev);
    CongAdd(prev, prev, c, r);
    CongTrans(Wrap(prev + c), prev + c, prev + r);
    CongAdd(Wrap(prev + c), prev + r, next, next);
    CongAdd(r, r, Wrap(next - prev), next - prev) by {
      CongWrap(r);
    }
    var l, m, n := Wrap(prev + c) - next, prev + r - next, r - Wrap(next - prev);
    assert Cong(m, n) by {
      CongBack(n, m);
    }
    CongTrans(l, m, n);
  }

  lemma CongBack(a: int, b: int)
    requires Cong(a, b)
    ensures Cong(b, a)
  {
    CongAdd(0, 0, a, b);
    CongAdd(a + b, a + b, -a, -b);
  }

  /** The difference taken in full reaches the next value exactly. */
  lemma FullDelta(next: int, prev: int)
    requires IsI64(next)
    ensures Wrap(prev + Wrap(next - prev)) == next
  {
    hide Wrap, Cong;
    CongWrap(next - prev);
    CongWrap(prev);
    CongAdd(prev, prev, Wrap(next - prev), next - prev);
    WrapCong(prev + Wrap(next - prev), next);
  }

  /** One step stays within the excess of `next`, and the state within 0..63. */
  lemma RoundedDeltaBound(next: int, prev: int, p: nat, prevZeros: nat)
    requires IsI64(next) && PrecisionOk(p) && prevZeros <= 63
    ensures var (d, zeros) := RoundedDelta(next, prev, p, prevZeros);
            Distance(Wrap(prev + d), next) < Pow2(Excess(next, p)) && zeros <= 63
  {
    hide Wrap, BitLength, Cleared, Pow2;
    BitLength64(Magnitude(next));
    FullDelta(next, prev);
    NoDistance(next);
    ClearedDistance(next, prev, Excess(next, p));
  }

  /** The bound in terms of the value: below 2^p nothing is lost, and else less than its share 2^(1 - p). */
  lemma RelativeError(v: int, p: nat, d: nat)
    requires d < Pow2(Excess(v, p))
    ensures d == 0 || d * Pow2(p) < 2 * Magnitude(v)
    ensures Magnitude(v) < Pow2(p) ==> d == 0
  {
    var m := Magnitude(v);
    var bits := BitLength(m);
    BitLengthMeaning(m);
    if bits > p {
      PowAdd(bits - p, p);
      Scaled(d, Pow2(bits - p), Pow2(p));
      PowMonotone(p, bits - 1);
    }
  }

  lemma Scaled(d: nat, x: int, y: int)
    requires d < x && y > 0
    ensures d * y < x * y
  {
  }

  /** Away from the previous state nothing is cleared, and the state moves two towards the item's. */
  lemma RoundedDeltaFar(next: int, prev: int, p: nat, prevZeros: nat)
    requires Wrap(next - prev) != 0 && Excess(next, p) > 0 && (Excess(next, p) > prevZeros + 4 || prevZeros > Excess(next, p) + 4)
    ensures RoundedDelta(next, prev, p, prevZeros) ==
      (Wrap(next - prev), if Excess(next, p) > prevZeros then prevZeros + 2 else prevZeros - 2)
  {
  }

  /** No difference, or an item that fits the precision: nothing is lost and the state goes down by one. */
  lemma RoundedDeltaWhole(next: int, prev: int, p: nat, prevZeros: nat)
    requires Wrap(next - prev) == 0 || Magnitude(next) < Pow2(p)
    ensures RoundedDelta(next, prev, p, prevZeros) == (Wrap(next - prev), if prevZeros > 0 then prevZeros - 1 else 0)
  {
    var m := Magnitude(next);
    BitLengthMeaning(m);
    if BitLength(m) > p {
      PowMonotone(p, BitLength(m) - 1);
    }
  }

  /** Near the previous state the low bits are really cleared, and the difference does not grow. */
  lemma RoundedDeltaShort(next: int, prev: int, p: nat, prevZeros: nat)
    requires IsI64(next) && PrecisionOk(p) && Wrap(next - prev) != 0
    requires 0 < Excess(next, p) <= prevZeros + 4 && prevZeros <= Excess(next, p) + 4
    ensures var (d, zeros) := RoundedDelta(next, prev, p, prevZeros);
            && zeros == Excess(next, p) && Magnitude(d) % Pow2(zeros) == 0
            && Magnitude(d) <= Magnitude(Wrap(next - prev)) < Magnitude(d) + Pow2(zeros)
  {
    var zeros := Excess(next, p);
    ClearedMagnitude(Wrap(next - prev), zeros);
    hide Wrap, BitLength, Cleared, Pow2;
  }

  lemma ClearedMagnitude(d: int, zeros: nat)
    requires IsI64(d)
    ensures Magnitude(Cleared(d, zeros)) == Mask(Magnitude(d), zeros) && Mask(Magnitude(d), zeros) % Pow2(zeros) == 0
  {
    var m := Magnitude(d);
    MaskMultiple(m, Pow2(zeros));
    assert Mask(m, zeros) % Pow2(zeros) == 0;
    hide Mask, Pow2;
    var x := Mask(m, zeros);
    assert 0 <= x <= m && m <= TWO63 && (d >= 0 ==> m < TWO63);
    assert Cleared(d, zeros) == if d < 0 then Wrap(-Wrap(x)) else Wrap(x);
    WrappedMagnitude(d, x);
  }

  lemma WrappedMagnitude(d: int, x: int)
    requires 0 <= x <= TWO63 && (d >= 0 ==> x < TWO63)
    ensures Magnitude(if d < 0 then Wrap(-Wrap(x)) else Wrap(x)) == x
  {
  }

  lemma MaskMultiple(m: nat, p: int)
    requires p > 0
    ensures (m - m % p) % p == 0
  {
    var q := m / p;
    assert m - m % p == q * p;
    MultipleOf(q, p);
  }

  lemma {:induction false} MultipleOf(q: nat, p: int)
    requires p > 0
    ensures (q * p) % p == 0
  {
    if q > 0 {
      MultipleOf(q - 1, p);
      assert q * p == (q - 1) * p + p;
      PeriodOf((q - 1) * p, p);
    }
  }

  lemma PeriodOf(x: int, p: int)
    requires p > 0
    ensures (x + p) % p == x % p
  {
    var a, b := x / p, (x + p) / p;
    assert x == a * p + x % p && x + p == b * p + (x + p) % p;
    var k := b - a - 1;
    assert k * p == x % p - (x + p) % p;
    assert k >= 1 ==> k * p >= p;
    assert k <= -1 ==> k * p <= -p;
  }

  lemma NoDistance(x: int)
    ensures Distance(x, x) == 0
  {
  }

  // ----- whole runs

  /** The differences of `src`, from the decoded value `v` and the state `zeros`. */
  function Deltas(src: seq<int>, v: int, p: nat, zeros: nat): (ds: seq<int>)
    ensures |ds| == |src|
  {
    if src == [] then []
    else
      var (d, z) := RoundedDelta(src[0], v, p, zeros);
      [d] + Deltas(src[1..], Wrap(v + d), p, z)
  }

  /** The states the coder passes through. */
  function States(src: seq<int>, v: int, p: nat, zeros: nat): (zs: seq<nat>)
    ensures |zs| == |src| + 1
  {
    if src == [] then [zeros]
    else
      var (d, z) := RoundedDelta(src[0], v, p, zeros);
      [zeros] + States(src[1..], Wrap(v + d), p, z)
  }

  /** The decoder: running sums. */
  function Sums(v: int, ds: seq<int>): (vs: seq<int>)
    ensures |vs| == |ds| + 1 && vs[0] == v
    decreases ds
  {
    if ds == [] then [v] else [v] + Sums(Wrap(v + ds[0]), ds[1..])
  }

  lemma RoundedDeltaI64(next: int, prev: int, p: nat, zeros: nat)
    ensures IsI64(RoundedDelta(next, prev, p, zeros).0)
  {
    hide Cleared, BitLength, Magnitude;
    ClearedCong(Wrap(next - prev), Excess(next, p));
  }

  lemma {:induction false} DeltasI64(src: seq<int>, v: int, p: nat, zeros: nat)
    ensures AllI64(Deltas(src, v, p, zeros))
  {
    if src != [] {
      hide Wrap;
      RoundedDeltaI64(src[0], v, p, zeros);
      hide RoundedDelta;
      var (d, z) := RoundedDelta(src[0], v, p, zeros);
      DeltasI64(src[1..], Wrap(v + d), p, z);
    }
  }

  /** No error accumulates: every decoded item is within the excess of its source, and every state is in 0..63. */
  lemma {:induction false} DeltasBound(src: seq<int>, v: int, p: nat, zeros: nat, i: nat)
    requires AllI64(src) && PrecisionOk(p) && zeros <= 63 && i < |src|
    ensures Distance(Sums(v, Deltas(src, v, p, zeros))[i + 1], src[i]) < Pow2(Excess(src[i], p))
    ensures States(src, v, p, zeros)[i] <= 63 && States(src, v, p, zeros)[i + 1] <= 63
  {
    hide RoundedDelta, Distance, Excess, Pow2;
    var (d, z) := RoundedDelta(src[0], v, p, zeros);
    RoundedDeltaBound(src[0], v, p, zeros);
    var ds := Deltas(src, v, p, zeros);
    assert ds[0] == d && ds[1..] == Deltas(src[1..], Wrap(v + d), p, z);
    if i > 0 {
      assert src[1..][i - 1] == src[i];
      DeltasBound(src[1..], Wrap(v + d), p, z, i - 1);
    }
  }

  lemma DistanceZero(x: int, y: int)
    requires IsI64(x) && IsI64(y) && Distance(x, y) < 1
    ensures x == y
  {
  }

  lemma NoExcess(v: int)
    requires IsI64(v)
    ensures Excess(v, 64) == 0
  {
    BitLength64(Magnitude(v));
  }

  lemma {:induction false} SumsI64(v: int, ds: seq<int>)
    requires IsI64(v)
    ensures AllI64(Sums(v, ds))
    decreases ds
  {
    hide Wrap;
    if ds != [] {
      SumsI64(Wrap(v + ds[0]), ds[1..]);
    }
  }

  /** At precision 64 the decoder gives the source back. */
  lemma DeltasExact(src: seq<int>, v: int, zeros: nat)
    requires AllI64(src) && IsI64(v) && zeros <= 63
    ensures Sums(v, Deltas(src, v, 64, zeros)) == [v] + src
  {
    hide Deltas, Sums, Distance, Excess;
    var vs := Sums(v, Deltas(src, v, 64, zeros));
    SumsI64(v, Deltas(src, v, 64, zeros));
    forall i | 0 <= i < |src| ensures vs[i + 1] == src[i] {
      DeltasBound(src, v, 64, zeros, i);
      NoExcess(src[i]);
      DistanceZero(vs[i + 1], src[i]);
    }
  }

  // ----- order

  const TWO62: int := 0x4000_0000_0000_0000

  predicate Near(x: int) {
    -TWO62 < x < TWO62
  }

  /** Away from overflow the new value lies between the previous value and the next item. */
  lemma StepBetween(next: int, prev: int, p: nat, prevZeros: nat)
    requires Near(next) && Near(prev)
    ensures var v := Wrap(prev + RoundedDelta(next, prev, p, prevZeros).0);
            prev <= v <= next || next <= v <= prev
  {
    hide Wrap, Cong, Cleared, Rounded, BitLength;
    var d := next - prev;
    WrapSelf(d);
    WrapSelf(prev);
    WrapSelf(next);
    var zeros := Excess(next, p);
    var r := Rounded(d, zeros);
    RoundedTowardZero(d, zeros);
    ClearedCong(d, zeros);
    WrapCong(Cleared(d, zeros), r);
    WrapSelf(Cleared(d, zeros));
    WrapSelf(prev + r);
  }

  lemma WrapSelf(x: int)
    requires IsI64(x)
    ensures Wrap(x) == x
  {
  }

  /** Decoded values stay in the range of the source. */
  lemma {:induction false} HullKept(src: seq<int>, v: int, p: nat, zeros: nat, lo: int, hi: int)
    requires Near(lo) && Near(hi) && lo <= v <= hi
    requires forall i :: 0 <= i < |src| ==> lo <= src[i] <= hi
    ensures forall i :: 0 <= i <= |src| ==> lo <= Sums(v, Deltas(src, v, p, zeros))[i] <= hi
  {
    if src != [] {
      hide RoundedDelta, Wrap;
      var (d, z) := RoundedDelta(src[0], v, p, zeros);
      StepBetween(src[0], v, p, zeros);
      HullKept(src[1..], Wrap(v + d), p, z, lo, hi);
      var ds := Deltas(src, v, p, zeros);
      assert ds[0] == d && ds[1..] == Deltas(src[1..], Wrap(v + d), p, z);
    }
  }

  ghost predicate NonDecreasing(s: seq<int>) {
    forall i, j :: 0 <= i <= j < |s| ==> s[i] <= s[j]
  }

  /** A non-decreasing source decodes to a non-decreasing sequence, never above its source. */
  lemma {:induction false} OrderKept(src: seq<int>, v: int, p: nat, zeros: nat)
    requires Near(v) && forall i :: 0 <= i < |src| ==> Near(src[i])
    requires NonDecreasing([v] + src)
    ensures NonDecreasing(Sums(v, Deltas(src, v, p, zeros)))
    ensures forall i :: 0 <= i < |src| ==> Sums(v, Deltas(src, v, p, zeros))[i + 1] <= src[i]
  {
    if src != [] {
      hide RoundedDelta, Wrap;
      var (d, z) := RoundedDelta(src[0], v, p, zeros);
      var all := [v] + src;
      assert all[0] == v && all[1] == src[0];
      StepBetween(src[0], v, p, zeros);
      var w := Wrap(v + d);
      var rest := src[1..];
      TailOrder(v, src, w);
      OrderKept(rest, w, p, z);
      var ds := Deltas(src, v, p, zeros);
      assert ds[0] == d && ds[1..] == Deltas(rest, w, p, z);
      var vs, ws := Sums(v, ds), Sums(w, ds[1..]);
      assert vs == [v] + ws && ws[0] == w;
      hide Deltas, Sums, Near;
      OrderFront(v, ws);
    }
  }

  lemma TailOrder(v: int, src: seq<int>, w: int)
    requires src != [] && NonDecreasing([v] + src) && w <= src[0]
    ensures NonDecreasing([w] + src[1..])
  {
    var all, rest := [v] + src, src[1..];
    assert all[1] == src[0];
    assert forall i :: 0 <= i < |rest| ==> rest[i] == all[i + 2];
  }

  lemma OrderFront(v: int, ws: seq<int>)
    requires ws != [] && NonDecreasing(ws) && v <= ws[0]
    ensures NonDecreasing([v] + ws)
  {
    var vs := [v] + ws;
    forall i, j | 0 <= i <= j < |vs| ensures vs[i] <= vs[j] {
      if i == 0 && j > 0 {
        assert ws[0] <= ws[j - 1];
      }
    }
  }
}
