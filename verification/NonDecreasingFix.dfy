/** The repair of a decoded sequence that must run from a known minimum to a known maximum. */
module NonDecreasingFix {
  import opened NearestDelta

  function Min(x: int, y: int): int {
    if x < y then x else y
  }

  function Max(x: int, y: int): int {
    if x < y then y else x
  }

  /** The largest of `lo` and the items 1..=i. */
  function RunningMax(s: seq<int>, lo: int, i: nat): int
    requires i < |s|
  {
    if i == 0 then lo else Max(RunningMax(s, lo, i - 1), s[i])
  }

  /** The repaired item: the running maximum, cut at `hi`, and `hi` at the end. */
  function FixedItem(s: seq<int>, lo: int, hi: int, i: nat): int
    requires i < |s|
  {
    if i == |s| - 1 then hi else Min(hi, RunningMax(s, lo, i))
  }

  function Fixed(s: seq<int>, lo: int, hi: int): (t: seq<int>)
    ensures |t| == |s| && forall i :: 0 <= i < |s| ==> t[i] == FixedItem(s, lo, hi, i)
  {
    seq(|s|, i requires 0 <= i < |s| => FixedItem(s, lo, hi, i))
  }

  lemma {:induction false} RunningMaxGrows(s: seq<int>, lo: int, i: nat, j: nat)
    requires i <= j < |s|
    ensures RunningMax(s, lo, i) <= RunningMax(s, lo, j)
    decreases j - i
  {
    if i < j {
      RunningMaxGrows(s, lo, i, j - 1);
    }
  }

  /** The outcome never decreases and ends at `hi`; it starts at `lo` unless a single item has to be both. */
  lemma FixedShape(s: seq<int>, lo: int, hi: int)
    requires lo <= hi && s != []
    ensures NonDecreasing(Fixed(s, lo, hi)) && Fixed(s, lo, hi)[|s| - 1] == hi
    ensures Fixed(s, lo, hi)[0] == lo <==> |s| >= 2 || lo == hi
  {
    forall i, j | 0 <= i <= j < |s| ensures Fixed(s, lo, hi)[i] <= Fixed(s, lo, hi)[j] {
      RunningMaxGrows(s, lo, i, j);
    }
  }

  /** The running maximum is one of the values seen, and none of them is above it. */
  lemma {:induction false} RunningMaxMeaning(s: seq<int>, lo: int, i: nat)
    requires i < |s|
    ensures lo <= RunningMax(s, lo, i) && forall j :: 1 <= j <= i ==> s[j] <= RunningMax(s, lo, i)
    ensures RunningMax(s, lo, i) == lo || exists j :: 1 <= j <= i && RunningMax(s, lo, i) == s[j]
  {
    if i > 0 {
      RunningMaxMeaning(s, lo, i - 1);
    }
  }

  /**
   * Between the ends an item becomes the least value that is not below those before it, itself and the minimum,
   * or the maximum if that is smaller.
   */
  lemma FixedLeast(s: seq<int>, lo: int, hi: int, i: nat)
    requires lo <= hi && 0 < i < |s| - 1
    ensures var t := Fixed(s, lo, hi)[i];
            && lo <= t <= hi && (t == hi || forall j :: 1 <= j <= i ==> s[j] <= t)
            && (t == lo || exists j :: 1 <= j <= i && t <= s[j] && (t == s[j] || t == hi))
  {
    RunningMaxMeaning(s, lo, i);
  }

  lemma {:induction false} RunningMaxOfSorted(s: seq<int>, i: nat)
    requires NonDecreasing(s) && i < |s|
    ensures RunningMax(s, s[0], i) == s[i]
  {
    if i > 0 {
      RunningMaxOfSorted(s, i - 1);
    }
  }

  /** A sequence that already runs from `lo` to `hi` without decreasing is left alone. */
  lemma FixedKeeps(s: seq<int>, lo: int, hi: int)
    requires s != [] && NonDecreasing(s) && s[0] == lo && s[|s| - 1] == hi
    ensures Fixed(s, lo, hi) == s
  {
    forall i | 0 <= i < |s| ensures FixedItem(s, lo, hi, i) == s[i] {
      RunningMaxOfSorted(s, i);
    }
  }

  /** `ensure_non_decreasing_sequence`. */
  method EnsureNonDecreasing(a: array<int>, lo: int, hi: int)
    requires lo <= hi
    modifies a
    ensures a[..] == Fixed(old(a[..]), lo, hi)
  {
    ghost var s := a[..];
    if a.Length == 0 {
      return;
    }
    RaiseAll(a, lo);
    hide RunningMax, Fixed, FixedItem;
    if a[a.Length - 1] != hi {
      CutTail(a, s, lo, hi);
    } else {
      NothingToCut(a[..], s, lo, hi);
    }
  }

  /** The minimum at the start, and no item below the one before it. */
  method RaiseAll(a: array<int>, lo: int)
    requires a.Length > 0
    modifies a
    ensures forall i :: 0 <= i < a.Length ==> a[i] == RunningMax(old(a[..]), lo, i)
  {
    ghost var s := a[..];
    if a[0] != lo {
      a[0] := lo;
    }
    var prev := a[0];
    var k := 1;
    while k < a.Length
      invariant 1 <= k <= a.Length && prev == a[k - 1]
      invariant forall i :: 0 <= i < k ==> a[i] == RunningMax(s, lo, i)
      invariant forall i :: k <= i < a.Length ==> a[i] == s[i]
    {
      if a[k] < prev {
        a[k] := prev;
      }
      prev := a[k];
      k := k + 1;
    }
  }

  /** Running maxima that end at the maximum are the outcome. */
  lemma NothingToCut(t: seq<int>, s: seq<int>, lo: int, hi: int)
    requires |t| == |s| > 0 && t[|t| - 1] == hi && forall i :: 0 <= i < |t| ==> t[i] == RunningMax(s, lo, i)
    ensures t == Fixed(s, lo, hi)
  {
    forall i | 0 <= i < |s| ensures t[i] == FixedItem(s, lo, hi, i) {
      RunningMaxGrows(s, lo, i, |s| - 1);
    }
  }

  /** The maximum at the end, and back from there over the larger items. */
  method CutTail(a: array<int>, ghost s: seq<int>, lo: int, hi: int)
    requires a.Length == |s| && a.Length > 0
    requires forall i :: 0 <= i < a.Length ==> a[i] == RunningMax(s, lo, i)
    modifies a
    ensures a[..] == Fixed(s, lo, hi)
  {
    var i := a.Length - 1;
    a[i] := hi;
    while i > 0 && a[i - 1] > hi
      invariant 0 <= i < a.Length
      invariant forall k :: 0 <= k < i ==> a[k] == RunningMax(s, lo, k)
      invariant forall k :: i <= k < a.Length ==> a[k] == FixedItem(s, lo, hi, k)
    {
      a[i - 1] := hi;
      i := i - 1;
    }
    forall k | 0 <= k < i ensures a[k] == FixedItem(s, lo, hi, k) {
      RunningMaxGrows(s, lo, k, i - 1);
    }
  }
}
