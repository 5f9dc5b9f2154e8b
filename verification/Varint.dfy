/**
 * Variable-length integers: the branchy encoder, the byte-wise reader, the word-at-a-time reader
 * and the batch forms. A 64-bit integer, signed or not, is its two's complement bit pattern.
 */
module Varint {
  import opened Options

  type Bytes = seq<bv8>

  datatype VarintError = Truncated | TooBig | TooLong | TooFewBytes

  type Reading = Result<bv64, VarintError>

  /** The low byte of `u`: the cast to u8. */
  function Low8(u: bv64): bv8 {
    (u & 0xff) as bv8
  }

  function Or(x: bv64, y: bv64): bv64 {
    x | y
  }

  /** The low seven bits of a byte, as a word. */
  function Group(b: bv8): bv64 {
    (b & 0x7f) as bv64
  }

  function Up7(x: bv64): bv64 {
    x << 7
  }

  // ----- the format

  /** Base 128 digits, least significant first, all but the last marked with the top bit. */
  function Canonical(u: bv64): (b: Bytes)
    ensures |b| >= 1
    decreases u
  {
    if u < 0x80 then [Low8(u)] else [Low8(u | 0x80)] + Canonical(u >> 7)
  }

  /** The number whose base 128 digits are the low seven bits of the bytes, modulo 2^64. */
  function Groups(b: Bytes): bv64 {
    if b == [] then 0 else Or(Group(b[0]), Up7(Groups(b[1..])))
  }

  /** The first byte without the mark at or after `i`, or the end. */
  function StopAt(src: Bytes, i: nat): (t: nat)
    requires i <= |src|
    ensures i <= t <= |src|
    ensures forall k :: i <= k < t ==> src[k] >= 0x80
    ensures t < |src| ==> src[t] < 0x80
    decreases |src| - i
  {
    if i == |src| || src[i] < 0x80 then i else StopAt(src, i + 1)
  }

  lemma {:induction false} StopAtUnique(src: Bytes, i: nat, t: nat)
    requires i <= t < |src| && src[t] < 0x80
    requires forall k :: i <= k < t ==> src[k] >= 0x80
    ensures StopAt(src, i) == t
    decreases t - i
  {
    if i < t {
      StopAtUnique(src, i + 1, t);
    }
  }

  const TOP: bv64 := 0x8000_0000_0000_0000

  /** What a batch reader makes of the bytes from `start` on, and where it leaves the index. */
  function Read(src: Bytes, start: nat): (r: (Reading, nat))
    ensures start <= r.1 && (start <= |src| ==> r.1 <= |src|)
    ensures r.0.Ok? ==> start < r.1
  {
    if start >= |src| then (Err(Truncated), start) else
    var t := StopAt(src, start);
    if t == |src| then (Err(Truncated), |src|)
    else if t - start < 9 then (Ok(Groups(src[start..t + 1])), t + 1)
    else if t - start == 9 then
      if src[t] > 1 then (Err(TooBig), t + 1) else (Ok(Or(Groups(src[start..t]), TOP)), t + 1)
    else (Err(TooLong), t + 1)
  }

  // ----- bit facts

  lemma SplitDigit(u: bv64)
    ensures Or(Group(Low8(u | 0x80)), Up7(u >> 7)) == u
    ensures Low8(u | 0x80) >= 0x80
  {
  }

  lemma LastDigit(u: bv64)
    requires u < 0x80
    ensures Low8(u) < 0x80 && Group(Low8(u)) == u
  {
  }

  lemma {:induction false} GroupsOne(b: bv8)
    ensures Groups([b]) == Group(b)
  {
    assert [b][1..] == [];
  }

  /** The digits of the encoding give the number back. */
  lemma {:induction false} CanonicalValue(u: bv64)
    ensures Groups(Canonical(u)) == u
    decreases u
  {
    if u < 0x80 {
      LastDigit(u);
      GroupsOne(Low8(u));
    } else {
      CanonicalValue(u >> 7);
      SplitDigit(u);
      var first := [Low8(u | 0x80)];
      assert (first + Canonical(u >> 7))[1..] == Canonical(u >> 7);
    }
  }

  /** Only the last byte is unmarked. */
  lemma {:induction false} CanonicalMarks(u: bv64)
    ensures var b := Canonical(u); b[|b| - 1] < 0x80 && forall k :: 0 <= k < |b| - 1 ==> b[k] >= 0x80
    decreases u
  {
    if u < 0x80 {
      LastDigit(u);
    } else {
      CanonicalMarks(u >> 7);
      SplitDigit(u);
    }
  }

  // ----- the encoder

  /** `n` marked bytes: `u | 0x80`, `u >> 7 | 0x80`, and so on, each cut to a byte. */
  function Marked(u: bv64, n: nat): Bytes {
    if n == 0 then [] else [Low8(u | 0x80)] + Marked(u >> 7, n - 1)
  }

  /** `n` marked bytes and an unmarked one. */
  function Digits(u: bv64, n: nat): Bytes {
    if n == 0 then [Low8(u)] else [Low8(u | 0x80)] + Digits(u >> 7, n - 1)
  }

  /** `append_var_uint64`, branch by branch. */
  function AppendVarUint64(dst: Bytes, u: bv64): Bytes {
    if u < 0x80 then dst + [Low8(u)]
    else if u < 0x4000 then dst + Digits(u, 1)
    else if u < 0x20_0000 then dst + Digits(u, 2)
    else if u >= 0x100_0000_0000_0000 then
      if u < 0x8000_0000_0000_0000 then dst + Digits(u, 8) else dst + (Marked(u, 9) + [1])
    else if u < 0x1000_0000 then dst + Digits(u, 3)
    else if u < 0x8_0000_0000 then dst + Digits(u, 4)
    else if u < 0x400_0000_0000 then dst + Digits(u, 5)
    else if u < 0x2_0000_0000_0000 then dst + Digits(u, 6)
    else dst + Digits(u, 7)
  }

  /** `u` has exactly `n + 1` base 128 digits. */
  predicate HasDigits(u: bv64, n: nat) {
    match n
    case 0 => u < 0x80
    case 1 => 0x80 <= u < 0x4000
    case 2 => 0x4000 <= u < 0x20_0000
    case 3 => 0x20_0000 <= u < 0x1000_0000
    case 4 => 0x1000_0000 <= u < 0x8_0000_0000
    case 5 => 0x8_0000_0000 <= u < 0x400_0000_0000
    case 6 => 0x400_0000_0000 <= u < 0x2_0000_0000_0000
    case 7 => 0x2_0000_0000_0000 <= u < 0x100_0000_0000_0000
    case 8 => 0x100_0000_0000_0000 <= u < 0x8000_0000_0000_0000
    case 9 => 0x8000_0000_0000_0000 <= u
    case _ => false
  }

  /** `u` has exactly `n + 1` base 128 digits and the top one is 1. */
  predicate TopDigitOne(u: bv64, n: nat) {
    match n
    case 0 => 0x1 <= u < 0x2
    case 1 => 0x80 <= u < 0x100
    case 2 => 0x4000 <= u < 0x8000
    case 3 => 0x20_0000 <= u < 0x40_0000
    case 4 => 0x1000_0000 <= u < 0x2000_0000
    case 5 => 0x8_0000_0000 <= u < 0x10_0000_0000
    case 6 => 0x400_0000_0000 <= u < 0x800_0000_0000
    case 7 => 0x2_0000_0000_0000 <= u < 0x4_0000_0000_0000
    case 8 => 0x100_0000_0000_0000 <= u < 0x200_0000_0000_0000
    case 9 => 0x8000_0000_0000_0000 <= u
    case _ => false
  }

  lemma HasDigitsStep(u: bv64, n: nat)
    requires n > 0 && HasDigits(u, n)
    ensures HasDigits(u >> 7, n - 1) && u >> 7 != 0
  {
  }

  lemma TopDigitOneStep(u: bv64, n: nat)
    requires n > 0 && TopDigitOne(u, n)
    ensures TopDigitOne(u >> 7, n - 1) && u >> 7 != 0
  {
  }

  lemma Unfold(u: bv64)
    requires u >> 7 != 0
    ensures Canonical(u) == [Low8(u | 0x80)] + Canonical(u >> 7)
  {
  }

  lemma LastIsCanonical(u: bv64)
    requires u < 0x80
    ensures Canonical(u) == [Low8(u)]
  {
  }

  /** A number of `n + 1` digits has `n` marked bytes. */
  lemma {:induction false} CanonicalDigits(u: bv64, n: nat)
    requires HasDigits(u, n)
    ensures Canonical(u) == Digits(u, n)
  {
    if n == 0 {
      LastIsCanonical(u);
    } else {
      hide Canonical, Low8, HasDigits;
      HasDigitsStep(u, n);
      Unfold(u);
      CanonicalDigits(u >> 7, n - 1);
    }
  }

  /** A number whose top digit is 1 ends in the byte 1. */
  lemma {:induction false} CanonicalTop(u: bv64, n: nat)
    requires TopDigitOne(u, n)
    ensures Canonical(u) == Marked(u, n) + [1]
  {
    if n == 0 {
      LastIsCanonical(u);
      assert Low8(1) == 1;
    } else {
      hide Canonical, Low8, TopDigitOne;
      TopDigitOneStep(u, n);
      Unfold(u);
      CanonicalTop(u >> 7, n - 1);
    }
  }

  /** Every branch of the encoder appends the digits of the number. */
  lemma AppendIsCanonical(dst: Bytes, u: bv64)
    ensures AppendVarUint64(dst, u) == dst + Canonical(u)
  {
    hide Canonical, Low8, Digits, Marked;
    if u >= 0x8000_0000_0000_0000 {
      CanonicalTop(u, 9);
    } else if u < 0x80 {
      LastIsCanonical(u);
    } else {
      var n := if u < 0x4000 then 1 else if u < 0x20_0000 then 2 else if u < 0x1000_0000 then 3
        else if u < 0x8_0000_0000 then 4 else if u < 0x400_0000_0000 then 5
        else if u < 0x2_0000_0000_0000 then 6 else if u < 0x100_0000_0000_0000 then 7 else 8;
      CanonicalDigits(u, n);
    }
  }
}
