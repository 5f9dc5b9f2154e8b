/** A machine word of a bitmap, given by its 64 bits with the least significant one first. */
module Bits {

  type Word = w: seq<bool> | |w| == 64 witness seq(64, i => false)

  const ZERO_WORD: Word := seq(64, i => false)

  /** The bitwise `|` of two words. */
  function Or(a: Word, b: Word): (w: Word) {
    seq(64, i requires 0 <= i < 64 => a[i] || b[i])
  }

  /** The bitwise `&` of two words. */
  function And(a: Word, b: Word): (w: Word) {
    seq(64, i requires 0 <= i < 64 => a[i] && b[i])
  }

  /** Number of set bits among the lowest `k` positions. */
  function OnesBelow(w: Word, k: nat): nat
    requires k <= 64
  {
    if k == 0 then 0 else OnesBelow(w, k - 1) + (if w[k - 1] then 1 else 0)
  }

  /** `u64::count_ones`. */
  function CountOnes(w: Word): nat {
    OnesBelow(w, 64)
  }

  /** Lowest set position at or above `from`, or 64. */
  function FirstSetFrom(w: Word, from: nat): (k: nat)
    requires from <= 64
    ensures from <= k <= 64
    ensures k < 64 ==> w[k]
    ensures forall i :: from <= i < k ==> !w[i]
    decreases 64 - from
  {
    if from == 64 || w[from] then from else FirstSetFrom(w, from + 1)
  }

  /** `u64::trailing_zeros`. */
  function TrailingZeros(w: Word): (k: nat)
    ensures k <= 64
    ensures k < 64 ==> w[k]
    ensures forall i :: 0 <= i < k ==> !w[i]
  {
    FirstSetFrom(w, 0)
  }

  /** The set bits of a word below `k`, as a set of positions. */
  ghost function PositionsBelow(w: Word, k: nat): set<int>
    requires k <= 64
  {
    set i: int | 0 <= i < k && w[i]
  }

  lemma {:induction false} OnesArePositions(w: Word, k: nat)
    requires k <= 64
    ensures OnesBelow(w, k) == |PositionsBelow(w, k)|
  {
    if k == 0 {
      assert PositionsBelow(w, 0) == {};
    } else {
      OnesArePositions(w, k - 1);
      var extra := if w[k - 1] then {k - 1} else {};
      assert PositionsBelow(w, k) == PositionsBelow(w, k - 1) + extra;
    }
  }
}
