/** Nearest-delta2 coding: rounded differences of differences. */
module NearestDelta2 {
  import opened Words
  import opened NearestDelta

  /** The second differences of `src`, from the decoded value `v`, the decoded difference `d1` and the state. */
  function Deltas2(src: seq<int>, v: int, d1: int, p: nat, zeros: nat): (ds: seq<int>)
    ensures |ds| == |src|
    decreases src
  {
    if src == [] then []
    else
      var (d2, z) := RoundedDelta(Wrap(src[0] - v), d1, p, zeros);
      var e := Wrap(d1 + d2);
      [d2] + Deltas2(src[1..], Wrap(v + e), e, p, z)
  }

  function States2(src: seq<int>, v: int, d1: int, p: nat, zeros: nat): (zs: seq<nat>)
    ensures |zs| == |src| + 1
    decreases src
  {
    if src == [] then [zeros]
    else
      var (d2, z) := RoundedDelta(Wrap(src[0] - v), d1, p, zeros);
      var e := Wrap(d1 + d2);
      [zeros] + States2(src[1..], Wrap(v + e), e, p, z)
  }

  /** The decoder: running sums of running sums, `v` first. */
  function Sums2(v: int, d1: int, ds: seq<int>): (vs: seq<int>)
    ensures |vs| == |ds| + 1 && vs[0] == v
    decreases ds
  {
    if ds == [] then [v]
    else
      var e := Wrap(d1 + ds[0]);
      [v] + Sums2(Wrap(v + e), e, ds[1..])
  }

  lemma {:induction false} Deltas2I64(src: seq<int>, v: int, d1: int, p: nat, zeros: nat)
    ensures AllI64(Deltas2(src, v, d1, p, zeros))
    decreases src
  {
    if src != [] {
      hide Wrap;
      var next := Wrap(src[0] - v);
      RoundedDeltaI64(next, d1, p, zeros);
      hide RoundedDelta;
      var (d2, z) := RoundedDelta(next, d1, p, zeros);
      Deltas2I64(src[1..], Wrap(v + Wrap(d1 + d2)), Wrap(d1 + d2), p, z);
    }
  }

  /** An error in the difference is the error in the value. */
  lemma DistanceMoved(next: int, v: int, e: int)
    ensures Distance(Wrap(v + e), next) == Distance(e, Wrap(next - v))
  {
    hide Wrap, Cong;
    StepCong(next, v, e, e) by {
      CongWrap(e);
    }
    WrapCong(Wrap(v + e) - next, e - Wrap(next - v));
  }

  /**
   * Every decoded item is within the excess of the difference between its source and the previous
   * decoded item, and every state is in 0..63.
   */
  lemma {:induction false} Deltas2Bound(src: seq<int>, v: int, d1: int, p: nat, zeros: nat, i: nat)
    requires PrecisionOk(p) && zeros <= 63 && i < |src|
    ensures var vs := Sums2(v, d1, Deltas2(src, v, d1, p, zeros));
            Distance(vs[i + 1], src[i]) < Pow2(Excess(Wrap(src[i] - vs[i]), p))
    ensures States2(src, v, d1, p, zeros)[i] <= 63 && States2(src, v, d1, p, zeros)[i + 1] <= 63
    decreases src
  {
    hide RoundedDelta, Distance, Excess, Pow2, Wrap;
    var next := Wrap(src[0] - v);
    var (d2, z) := RoundedDelta(next, d1, p, zeros);
    var e := Wrap(d1 + d2);
    RoundedDeltaBound(next, d1, p, zeros);
    DistanceMoved(src[0], v, e);
    var ds := Deltas2(src, v, d1, p, zeros);
    assert ds[0] == d2 && ds[1..] == Deltas2(src[1..], Wrap(v + e), e, p, z);
    if i > 0 {
      assert src[1..][i - 1] == src[i];
      Deltas2Bound(src[1..], Wrap(v + e), e, p, z, i - 1);
    }
  }

  lemma {:induction false} Sums2I64(v: int, d1: int, ds: seq<int>)
    requires IsI64(v)
    ensures AllI64(Sums2(v, d1, ds))
    decreases ds
  {
    hide Wrap;
    if ds != [] {
      Sums2I64(Wrap(v + Wrap(d1 + ds[0])), Wrap(d1 + ds[0]), ds[1..]);
    }
  }

  /** At precision 64 the decoder gives the source back. */
  lemma Deltas2Exact(src: seq<int>, v: int, d1: int, zeros: nat)
    requires AllI64(src) && IsI64(v) && zeros <= 63
    ensures Sums2(v, d1, Deltas2(src, v, d1, 64, zeros)) == [v] + src
  {
    hide Deltas2, Sums2, Distance, Excess, Wrap;
    var vs := Sums2(v, d1, Deltas2(src, v, d1, 64, zeros));
    Sums2I64(v, d1, Deltas2(src, v, d1, 64, zeros));
    forall i | 0 <= i < |src| ensures vs[i + 1] == src[i] {
      Deltas2Bound(src, v, d1, 64, zeros, i);
      NoExcess(Wrap(src[i] - vs[i]));
      DistanceZero(vs[i + 1], src[i]);
    }
  }
}
