/** Bringing two arrays of decimal mantissas to a common exponent. */
module Decimal {
  import opened Words

  const I64_MAX: int := 0x7fff_ffff_ffff_ffff
  const V_MAX: int := I64_MAX - 2
  const V_MIN: int := -I64_MAX

  predicate IsI16(e: int) {
    -32768 <= e <= 32767
  }

  /** i16 wrap-around. */
  function Wrap16(x: int): (w: int)
    ensures IsI16(w) && (IsI16(x) ==> w == x)
  {
    (x + 32768) % 65536 - 32768
  }

  /** The markers for infinities and staleness. */
  predicate IsSpecial(v: int) {
    v < V_MIN || v > V_MAX
  }

  function Abs(v: int): nat {
    if v < 0 then -v else v
  }

  function Pow10(n: nat): (p: int)
    ensures p >= 1
  {
    if n == 0 then 1 else 10 * Pow10(n - 1)
  }

  /** Division that truncates toward zero. */
  function Quot(v: int, m: int): int
    requires m > 0
  {
    if v < 0 then -((-v) / m) else v / m
  }

  /** `get_decimal_multiplier`: a table of 19 powers, and 1 beyond it. */
  function Multiplier(e: nat): (m: int)
    ensures m >= 1
  {
    if e > 18 then 1 else Pow10(e)
  }

  // ----- how far a value can be scaled up

  function LargestFit(m: nat, e: nat): (k: nat)
    ensures k <= e
  {
    if e == 0 then 0 else if m <= I64_MAX / Pow10(e) then e else LargestFit(m, e - 1)
  }

  /** `max_up_exponent`. */
  function MaxUp(v: int): (k: nat)
    ensures k <= 1024
  {
    if v == 0 || IsSpecial(v) then 1024 else LargestFit(Abs(v), 18)
  }

  lemma DivideOrMultiply(m: nat, p: int)
    requires p >= 1
    ensures m <= I64_MAX / p <==> m * p <= I64_MAX
  {
    var q := I64_MAX / p;
    assert I64_MAX == q * p + I64_MAX % p;
    if m <= q {
      assert m * p <= q * p;
    } else {
      assert m * p >= (q + 1) * p;
    }
  }

  lemma {:induction false} Pow10Grows(i: nat, j: nat)
    requires i <= j
    ensures Pow10(i) <= Pow10(j)
  {
    if i < j {
      Pow10Grows(i, j - 1);
    }
  }

  lemma FitGrows(m: nat, i: nat, j: nat)
    requires i <= j && m * Pow10(j) <= I64_MAX
    ensures m * Pow10(i) <= I64_MAX
  {
    Pow10Grows(i, j);
    hide Pow10;
    ProductGrows(m, Pow10(i), Pow10(j));
  }

  lemma ProductGrows(m: nat, p: int, q: int)
    requires p <= q
    ensures m * p <= m * q
  {
  }

  lemma {:induction false} LargestFitMeaning(m: nat, e: nat, k: nat)
    requires k <= e && m <= I64_MAX
    ensures m * Pow10(k) <= I64_MAX <==> k <= LargestFit(m, e)
  {
    if e > 0 {
      DivideOrMultiply(m, Pow10(e));
      if m <= I64_MAX / Pow10(e) {
        FitGrows(m, k, e);
      } else if k < e {
        LargestFitMeaning(m, e - 1, k);
      }
    }
  }

  lemma Pow19()
    ensures Pow10(19) == 10_000_000_000_000_000_000
  {
    assert Pow10(5) == 100_000;
    assert Pow10(10) == 10_000_000_000 by {
      assert Pow10(8) == 1000 * Pow10(5);
    }
    assert Pow10(15) == 1_000_000_000_000_000 by {
      assert Pow10(13) == 1000 * Pow10(10);
    }
    assert Pow10(17) == 100 * Pow10(15);
  }

  lemma AtLeastOnce(m: nat, p: int)
    requires m >= 1 && p >= 0
    ensures m * p >= p
  {
  }

  /** The largest power of ten an ordinary non-zero value can be multiplied by. */
  lemma MaxUpMeaning(v: int, k: nat)
    requires v != 0 && !IsSpecial(v)
    ensures Abs(v) * Pow10(k) <= I64_MAX <==> k <= MaxUp(v)
  {
    hide Pow10, LargestFit;
    if k <= 18 {
      LargestFitMeaning(Abs(v), 18, k);
    } else {
      Pow19();
      Pow10Grows(19, k);
      AtLeastOnce(Abs(v), Pow10(k));
    }
  }

  /** `max_up_exponent` as a search from the largest power down. */
  method MaxUpExponent(v: int) returns (k: nat)
    requires IsI64(v)
    ensures k == MaxUp(v)
  {
    hide Pow10;
    if v == 0 || IsSpecial(v) {
      return 1024;
    }
    var m := if v < 0 then -v else v;
    var e := 18;
    while e >= 1
      invariant 0 <= e <= 18 && LargestFit(m, 18) == LargestFit(m, e)
    {
      if m <= I64_MAX / Pow10(e) {
        return e;
      }
      e := e - 1;
    }
    return 0;
  }

  // ----- the common exponent

  /** How much of the exponent difference the values of `a` cannot take, in i16 arithmetic. */
  function DownExp(a: seq<int>, up: int): (d: int)
    ensures 0 <= d <= 32767
  {
    if a == [] then 0
    else
      var d := DownExp(a[..|a| - 1], up);
      var need := Wrap16(up - MaxUp(a[|a| - 1]));
      if need > d then need else d
  }

  function ScaleUp(v: int, m: int): int {
    if IsSpecial(v) then v else Wrap(v * m)
  }

  function ScaledUp(a: seq<int>, up: int): (r: seq<int>)
    ensures |r| == |a| && (up <= 0 ==> r == a)
    ensures up > 0 ==> forall i :: 0 <= i < |a| ==> r[i] == ScaleUp(a[i], Multiplier(up))
  {
    if up <= 0 then a else seq(|a|, i requires 0 <= i < |a| => ScaleUp(a[i], Multiplier(up)))
  }

  function ScaleDown(v: int, down: int): int
    requires down >= 0
  {
    if IsSpecial(v) || down == 0 then v else if down > 18 then 0 else Quot(v, Multiplier(down))
  }

  function ScaledDown(b: seq<int>, down: int): (r: seq<int>)
    requires down >= 0
    ensures |r| == |b| && forall i :: 0 <= i < |b| ==> r[i] == ScaleDown(b[i], down)
  {
    seq(|b|, i requires 0 <= i < |b| => ScaleDown(b[i], down))
  }

  datatype Calibration = Calibration(a: seq<int>, b: seq<int>, e: int)

  /** The case `ae > be`: `a` is scaled up as far as it can be and `b` down by the rest. */
  function CalibratedDown(a: seq<int>, ae: int, b: seq<int>, be: int): Calibration {
    var up := Wrap16(ae - be);
    var down := DownExp(a, up);
    Calibration(ScaledUp(a, Wrap16(up - down)), ScaledDown(b, down), Wrap16(be + down))
  }

  function Swap(c: Calibration): Calibration {
    Calibration(c.b, c.a, c.e)
  }

  /** The result of `calibrate_scale`. */
  function Calibrated(a: seq<int>, ae: int, b: seq<int>, be: int): Calibration {
    if ae == be then Calibration(a, b, ae)
    else if a == [] then Calibration(a, b, be)
    else if b == [] then Calibration(a, b, ae)
    else if ae < be then Swap(CalibratedDown(b, be, a, ae))
    else CalibratedDown(a, ae, b, be)
  }

  lemma DownStep(a: seq<int>, up: int, i: nat)
    requires i < |a|
    ensures DownExp(a[..i + 1], up)
         == var d := DownExp(a[..i], up); var need := Wrap16(up - MaxUp(a[i])); if need > d then need else d
  {
    assert a[..i + 1][..i] == a[..i];
  }

  /** `calibrate_scale`, in place. */
  method CalibrateScale(a: array<int>, ae: int, b: array<int>, be: int) returns (e: int)
    requires a != b && AllI64(a[..]) && AllI64(b[..]) && IsI16(ae) && IsI16(be)
    modifies a, b
    ensures Calibration(a[..], b[..], e) == Calibrated(old(a[..]), ae, old(b[..]), be)
  {
    if ae == be {
      return ae;
    }
    if a.Length == 0 {
      return be;
    }
    if b.Length == 0 {
      return ae;
    }
    if ae < be {
      e := Calibrate(b, be, a, ae);
    } else {
      e := Calibrate(a, ae, b, be);
    }
  }

  method Calibrate(a: array<int>, ae: int, b: array<int>, be: int) returns (e: int)
    requires a != b && AllI64(a[..]) && AllI64(b[..])
    modifies a, b
    ensures Calibration(a[..], b[..], e) == CalibratedDown(old(a[..]), ae, old(b[..]), be)
  {
    hide Wrap16, DownExp;
    var up := Wrap16(ae - be);
    var down := FindDown(a, up);
    up := Wrap16(up - down);
    if up > 0 {
      MultiplyAll(a, Multiplier(up));
    }
    assert a[..] == ScaledUp(old(a[..]), up);
    if down > 0 {
      DivideAll(b, down);
    }
    assert b[..] == ScaledDown(old(b[..]), down);
    return Wrap16(be + down);
  }

  method FindDown(a: array<int>, up: int) returns (down: int)
    requires AllI64(a[..])
    ensures down == DownExp(a[..], up)
  {
    hide Wrap16, MaxUp, DownExp;
    down := 0;
    NoDown(up);
    assert a[..0] == [];
    var i := 0;
    while i < a.Length
      invariant 0 <= i <= a.Length && down == DownExp(a[..i], up)
    {
      assert a[..][i] == a[i];
      var maxUp := MaxUpExponent(a[i]);
      DownStep(a[..], up, i);
      assert a[..][..i] == a[..i] && a[..][..i + 1] == a[..i + 1];
      if Wrap16(up - maxUp) > down {
        down := Wrap16(up - maxUp);
      }
      i := i + 1;
    }
    assert a[..i] == a[..];
  }

  lemma NoDown(up: int)
    ensures DownExp([], up) == 0
  {
  }

  method MultiplyAll(a: array<int>, m: int)
    modifies a
    ensures a.Length == |old(a[..])| && forall i :: 0 <= i < a.Length ==> a[i] == ScaleUp(old(a[..])[i], m)
  {
    hide Wrap;
    ghost var was := a[..];
    var i := 0;
    while i < a.Length
      invariant 0 <= i <= a.Length
      invariant forall k :: 0 <= k < i ==> a[k] == ScaleUp(was[k], m)
      invariant forall k :: i <= k < a.Length ==> a[k] == was[k]
    {
      if !IsSpecial(a[i]) {
        a[i] := Wrap(a[i] * m);
      }
      i := i + 1;
    }
  }

  method DivideAll(b: array<int>, down: int)
    requires down > 0
    modifies b
    ensures forall i :: 0 <= i < b.Length ==> b[i] == ScaleDown(old(b[..])[i], down)
  {
    hide Quot, Pow10;
    ghost var was := b[..];
    var i := 0;
    while i < b.Length
      invariant 0 <= i <= b.Length
      invariant forall k :: 0 <= k < i ==> b[k] == ScaleDown(was[k], down)
      invariant forall k :: i <= k < b.Length ==> b[k] == was[k]
    {
      if !IsSpecial(b[i]) {
        b[i] := if down > 18 then 0 else Quot(b[i], Multiplier(down));
      }
      i := i + 1;
    }
  }

  // ----- what the calibration does

  ghost predicate FitsAll(a: seq<int>, k: nat) {
    forall i :: 0 <= i < |a| && !IsSpecial(a[i]) ==> Abs(a[i]) * Pow10(k) <= I64_MAX
  }

  ghost predicate HasOrdinary(a: seq<int>) {
    exists i :: 0 <= i < |a| && a[i] != 0 && !IsSpecial(a[i])
  }

  /** Within reach of the i16 arithmetic: no ordinary non-zero value leaves more than 32767 of the difference. */
  ghost predicate WithinReach(a: seq<int>, diff: int) {
    forall i :: 0 <= i < |a| && a[i] != 0 && !IsSpecial(a[i]) ==> diff - MaxUp(a[i]) <= 32767
  }

  lemma WrapInner(x: int, y: int)
    ensures Wrap16(Wrap16(x) - y) == Wrap16(x - y)
  {
  }

  lemma NeedOf(diff: int, k: nat)
    requires 0 <= diff <= 65535 && k <= 1024
    ensures Wrap16(Wrap16(diff) - k) == if diff - k <= 32767 then diff - k else diff - k - 65536
  {
    WrapInner(diff, k);
  }

  /**
   * The fold over the whole range of differences: it stays within the difference, satisfies every value
   * whose need fits i16, and is zero or the need of some value.
   */
  lemma {:induction false} DownMeaning(a: seq<int>, diff: int)
    requires 0 <= diff <= 65535
    ensures var down := DownExp(a, Wrap16(diff));
            && (forall i :: 0 <= i < |a| && diff - MaxUp(a[i]) <= 32767 ==> diff - down <= MaxUp(a[i]))
            && down <= diff && (down > 0 ==> exists i :: 0 <= i < |a| && diff - down == MaxUp(a[i]))
  {
    hide MaxUp, Wrap16;
    if a != [] {
      var front, last := a[..|a| - 1], a[|a| - 1];
      DownMeaning(front, diff);
      var d, all := DownExp(front, Wrap16(diff)), DownExp(a, Wrap16(diff));
      NeedOf(diff, MaxUp(last));
      var need := Wrap16(Wrap16(diff) - MaxUp(last));
      assert all == if need > d then need else d;
      if all > 0 {
        if need > d {
          assert diff - all == MaxUp(a[|a| - 1]);
        } else {
          var i :| 0 <= i < |front| && diff - d == MaxUp(front[i]);
          assert diff - all == MaxUp(a[i]);
        }
      }
    }
  }

  /** A value scaled up within its limit is exact, fits, and does not become a marker. */
  lemma ScaleUpExact(v: int, k: nat)
    requires !IsSpecial(v) && k <= MaxUp(v)
    ensures ScaleUp(v, Multiplier(k)) == v * Pow10(k) || v == 0
    ensures v == 0 ==> ScaleUp(v, Multiplier(k)) == 0
    ensures !IsSpecial(ScaleUp(v, Multiplier(k)))
  {
    hide Pow10;
    if v != 0 {
      MaxUpMeaning(v, k);
      AbsProduct(v, Pow10(k));
      TenMultiple(v, k);
    }
  }

  lemma AbsProduct(v: int, p: int)
    requires p >= 1
    ensures Abs(v * p) == Abs(v) * p
  {
    if v < 0 {
      assert -(v * p) == (-v) * p;
      assert v * p <= 0;
    } else {
      assert v * p >= 0;
    }
  }

  /** A product by a positive power of ten is a multiple of ten, which the markers are not. */
  lemma TenMultiple(v: int, k: nat)
    requires !IsSpecial(v) && Abs(v * Pow10(k)) <= I64_MAX
    ensures !IsSpecial(v * Pow10(k))
  {
    if k > 0 {
      var w := v * Pow10(k - 1);
      assert v * Pow10(k) == 10 * w;
    }
  }

  /** Dividing by a power of ten above 10^18 gives zero, as the cut-off says. */
  lemma ScaleDownMeaning(v: int, down: nat)
    requires !IsSpecial(v)
    ensures ScaleDown(v, down) == Quot(v, Pow10(down)) && !IsSpecial(ScaleDown(v, down))
  {
    hide Pow10;
    if down == 0 {
      assert Pow10(0) == 1 by {
        PowZero();
      }
    } else if down > 18 {
      Pow19();
      Pow10Grows(19, down);
      SmallQuot(Abs(v), Pow10(down));
    } else {
      QuotShrinks(Abs(v), Pow10(down));
    }
  }

  lemma PowZero()
    ensures Pow10(0) == 1
  {
  }

  lemma SmallQuot(m: nat, p: int)
    requires m < p
    ensures m / p == 0
  {
  }

  lemma QuotShrinks(m: nat, p: int)
    requires p >= 1
    ensures 0 <= m / p <= m
  {
    var q := m / p;
    assert m == q * p + m % p;
    assert q >= 0;
    AtLeastOnce(p, q);
  }

  /** What a calibration to exponent `c.e` promises about the two sides. */
  ghost predicate CalibratedWell(a: seq<int>, ae: int, b: seq<int>, be: int, c: Calibration) {
    && |c.a| == |a| && |c.b| == |b| && be <= c.e <= ae
    && (forall i :: 0 <= i < |a| ==> if IsSpecial(a[i]) then c.a[i] == a[i] else !IsSpecial(c.a[i]) && c.a[i] == a[i] * Pow10(ae - c.e))
    && (forall i :: 0 <= i < |b| ==> if IsSpecial(b[i]) then c.b[i] == b[i] else !IsSpecial(c.b[i]) && c.b[i] == Quot(b[i], Pow10(c.e - be)))
  }

  /** The parts of a calibration in terms of the difference of the exponents, before any wrap-around. */
  lemma CalibrationParts(a: seq<int>, ae: int, b: seq<int>, be: int)
    requires IsI16(ae) && IsI16(be) && ae > be
    ensures var down := DownExp(a, Wrap16(ae - be));
            CalibratedDown(a, ae, b, be) == Calibration(ScaledUp(a, Wrap16(ae - be - down)), ScaledDown(b, down), be + down)
  {
    hide DownExp, MaxUp;
    DownMeaning(a, ae - be);
    WrapInner(ae - be, DownExp(a, Wrap16(ae - be)));
  }

  /** Within reach the side with the higher exponent is scaled exactly, without overflow and without new markers. */
  lemma UpExact(a: seq<int>, diff: int, i: nat)
    requires 0 < diff <= 65535 && WithinReach(a, diff) && i < |a|
    ensures var k := diff - DownExp(a, Wrap16(diff));
            var c := ScaledUp(a, Wrap16(k))[i];
            k >= 0 && if IsSpecial(a[i]) then c == a[i] else !IsSpecial(c) && c == a[i] * Pow10(k)
  {
    hide DownExp, ScaleUp, Pow10, MaxUp, Multiplier, Wrap16;
    var k := diff - DownExp(a, Wrap16(diff));
    var up := Wrap16(k);
    DownMeaning(a, diff);
    if IsSpecial(a[i]) {
      SpecialKept(a[i], Multiplier(if up > 0 then up else 0), 0);
    } else if a[i] == 0 {
      ZeroKept(Multiplier(if up > 0 then up else 0));
    } else {
      OrdinaryLimit(a[i]);
      NoWrap16(k);
      ScaleUpExact(a[i], k);
      PowZero();
    }
  }

  lemma NoWrap16(k: int)
    requires IsI16(k)
    ensures Wrap16(k) == k
  {
  }

  lemma ZeroKept(m: int)
    ensures ScaleUp(0, m) == 0
  {
  }

  /** A value beyond reach is asked to grow past its limit, and what comes out is an i64. */
  lemma UpInexact(a: seq<int>, diff: int, i: nat)
    requires 0 < diff <= 65535 && i < |a| && a[i] != 0 && !IsSpecial(a[i]) && diff - MaxUp(a[i]) > 32767
    ensures var k := diff - DownExp(a, Wrap16(diff));
            k >= 0 && ScaledUp(a, Wrap16(k))[i] != a[i] * Pow10(k)
  {
    hide DownExp, Pow10, MaxUp, Multiplier, Wrap16;
    var k := diff - DownExp(a, Wrap16(diff));
    DownMeaning(a, diff);
    MaxUpMeaning(a[i], k);
    Overflows(a[i], k);
  }

  lemma Overflows(v: int, k: nat)
    requires k > 0 && Abs(v) * Pow10(k) > I64_MAX
    ensures !IsI64(v * Pow10(k))
  {
    AbsProduct(v, Pow10(k));
    var w := v * Pow10(k - 1);
    assert v * Pow10(k) == 10 * w;
  }

  lemma DownExact(b: seq<int>, down: nat)
    ensures forall i :: 0 <= i < |b| ==>
      var c := ScaledDown(b, down)[i];
      if IsSpecial(b[i]) then c == b[i] else !IsSpecial(c) && c == Quot(b[i], Pow10(down))
  {
    hide ScaleDown, Quot, Pow10;
    forall i | 0 <= i < |b| ensures
      var c := ScaledDown(b, down)[i];
      if IsSpecial(b[i]) then c == b[i] else !IsSpecial(c) && c == Quot(b[i], Pow10(down))
    {
      if IsSpecial(b[i]) {
        SpecialKept(b[i], 1, down);
      } else {
        ScaleDownMeaning(b[i], down);
      }
    }
  }

  lemma ReachCalibrates(a: seq<int>, ae: int, b: seq<int>, be: int)
    requires IsI16(ae) && IsI16(be) && ae > be && WithinReach(a, ae - be)
    ensures CalibratedWell(a, ae, b, be, CalibratedDown(a, ae, b, be))
  {
    hide DownExp, ScaleUp, ScaleDown, Quot, Pow10, MaxUp, Multiplier, Wrap16, CalibratedDown, WithinReach;
    CalibrationParts(a, ae, b, be);
    DownMeaning(a, ae - be);
    DownExact(b, DownExp(a, Wrap16(ae - be)));
    forall i | 0 <= i < |a|
      ensures var c := CalibratedDown(a, ae, b, be);
              if IsSpecial(a[i]) then c.a[i] == a[i] else !IsSpecial(c.a[i]) && c.a[i] == a[i] * Pow10(ae - c.e)
    {
      UpExact(a, ae - be, i);
    }
  }

  lemma BeyondReachFails(a: seq<int>, ae: int, b: seq<int>, be: int)
    requires IsI16(ae) && IsI16(be) && ae > be && !WithinReach(a, ae - be)
    ensures !CalibratedWell(a, ae, b, be, CalibratedDown(a, ae, b, be))
  {
    hide DownExp, ScaleUp, ScaleDown, Quot, Pow10, MaxUp, Multiplier, Wrap16, CalibratedDown;
    CalibrationParts(a, ae, b, be);
    DownMeaning(a, ae - be);
    var i :| 0 <= i < |a| && a[i] != 0 && !IsSpecial(a[i]) && ae - be - MaxUp(a[i]) > 32767;
    UpInexact(a, ae - be, i);
  }

  /**
   * The side with the higher exponent is scaled exactly, the other is divided by one power of ten toward
   * zero, markers stay and none appears, if and only if the difference of the exponents is within reach.
   */
  lemma CalibrationMeaning(a: seq<int>, ae: int, b: seq<int>, be: int)
    requires IsI16(ae) && IsI16(be) && ae > be
    ensures CalibratedWell(a, ae, b, be, CalibratedDown(a, ae, b, be)) <==> WithinReach(a, ae - be)
  {
    if WithinReach(a, ae - be) {
      ReachCalibrates(a, ae, b, be);
    } else {
      BeyondReachFails(a, ae, b, be);
    }
    hide *;
  }

  /** The same for the whole of `calibrate_scale`, whose early returns are exact. */
  lemma CalibrationExact(a: seq<int>, ae: int, b: seq<int>, be: int)
    requires IsI16(ae) && IsI16(be) && ae >= be
    ensures CalibratedWell(a, ae, b, be, Calibrated(a, ae, b, be)) <==> b == [] || WithinReach(a, ae - be)
  {
    if ae == be || b == [] {
      PowZero();
      forall i | 0 <= i < |b| && !IsSpecial(b[i]) ensures Quot(b[i], 1) == b[i] {
      }
      assert WithinReach(a, 0);
    } else if a == [] {
      PowZero();
    } else {
      CalibrationMeaning(a, ae, b, be);
    }
  }

  lemma SpecialKept(v: int, m: int, down: nat)
    requires IsSpecial(v)
    ensures ScaleUp(v, m) == v && ScaleDown(v, down) == v
  {
  }

  /** The markers are the greatest two values of i64 and the least one. */
  predicate Marker(v: int) {
    v == 0x7fff_ffff_ffff_ffff || v == 0x7fff_ffff_ffff_fffe || v == -0x8000_0000_0000_0000
  }

  lemma MarkerMeaning(v: int)
    requires IsI64(v)
    ensures IsSpecial(v) <==> Marker(v)
  {
  }

  /** Whatever the exponents, the arrays keep their lengths and every marker stays in its place. */
  lemma MarkersKept(a: seq<int>, ae: int, b: seq<int>, be: int)
    ensures var c := Calibrated(a, ae, b, be);
            && |c.a| == |a| && |c.b| == |b|
            && (forall i :: 0 <= i < |a| && Marker(a[i]) ==> c.a[i] == a[i])
            && (forall i :: 0 <= i < |b| && Marker(b[i]) ==> c.b[i] == b[i])
  {
    hide DownExp, Multiplier, Wrap16;
  }

  /** The division goes toward zero. */
  lemma QuotMeaning(v: int, m: int)
    requires m > 0
    ensures var q := Quot(v, m);
            Abs(q) * m <= Abs(v) < (Abs(q) + 1) * m && (q > 0 ==> v > 0) && (q < 0 ==> v < 0)
  {
    var k := Abs(v) / m;
    Division(Abs(v), m);
    assert Abs(Quot(v, m)) == k && (v < 0 ==> Quot(v, m) == -k) && (v >= 0 ==> Quot(v, m) == k);
    hide *;
  }

  lemma Division(n: nat, m: int)
    requires m > 0
    ensures 0 <= n / m && n / m * m <= n < (n / m + 1) * m && (n == 0 ==> n / m == 0)
  {
    var k := n / m;
    assert n == k * m + n % m;
    assert (k + 1) * m == k * m + m;
  }

  /** Within reach the exponent is the least at which the exact side fits, if that side holds an ordinary non-zero value. */
  lemma LeastExponent(a: seq<int>, ae: int, b: seq<int>, be: int)
    requires IsI16(ae) && IsI16(be) && ae > be && WithinReach(a, ae - be) && HasOrdinary(a)
    ensures var e := CalibratedDown(a, ae, b, be).e;
            be <= e <= ae && FitsAll(a, ae - e) && (e > be ==> !FitsAll(a, ae - e + 1))
  {
    var diff := ae - be;
    var down := DownExp(a, Wrap16(diff));
    CalibrationParts(a, ae, b, be);
    DownMeaning(a, diff);
    hide DownExp, MaxUp, Pow10, Wrap16, CalibratedDown;
    var k := diff - down;
    forall i | 0 <= i < |a| && !IsSpecial(a[i]) ensures Abs(a[i]) * Pow10(k) <= I64_MAX {
      if a[i] != 0 {
        MaxUpMeaning(a[i], k);
      }
    }
    if down > 0 {
      var j :| 0 <= j < |a| && k == MaxUp(a[j]);
      var o :| 0 <= o < |a| && a[o] != 0 && !IsSpecial(a[o]);
      OrdinaryLimit(a[o]);
      OnlyFreeLimit(a[j]);
      MaxUpMeaning(a[j], k + 1);
    }
  }

  lemma OrdinaryLimit(v: int)
    requires v != 0 && !IsSpecial(v)
    ensures MaxUp(v) <= 18
  {
  }

  lemma OnlyFreeLimit(v: int)
    requires MaxUp(v) <= 18
    ensures v != 0 && !IsSpecial(v)
  {
  }

  /** Swapping the arguments swaps the outcome, except for two empty sides with different exponents. */
  lemma CalibrationSymmetric(a: seq<int>, ae: int, b: seq<int>, be: int)
    ensures Calibrated(b, be, a, ae) == Swap(Calibrated(a, ae, b, be)) <==> a != [] || b != [] || ae == be
  {
  }

  /** The i16 arithmetic recovers from a wrap at a difference of 32768, and not at one of 65535. */
  lemma WideDifferences()
    ensures CalibratedWell([1], 0, [1], -32768, Calibrated([1], 0, [1], -32768))
    ensures !CalibratedWell([1], 32767, [1], -32768, Calibrated([1], 32767, [1], -32768))
  {
    hide CalibratedWell, Calibrated, MaxUp;
    OneGoesFar();
    var a := [1];
    assert a[0] == 1;
    CalibrationExact(a, 0, a, -32768);
    CalibrationExact(a, 32767, a, -32768);
  }

  lemma OneGoesFar()
    ensures MaxUp(1) == 18
  {
    hide Pow10, LargestFit;
    EighteenFits();
    MaxUpMeaning(1, 18);
    OrdinaryLimit(1);
  }

  lemma EighteenFits()
    ensures Pow10(18) <= I64_MAX
  {
    Pow19();
    assert Pow10(19) == 10 * Pow10(18);
  }
}
