/** The byte-wise reader and the word-at-a-time reader of one variable-length integer. */
module VarintReader {
  import opened Options
  import opened Varint

  /** `x << (7 * k)`. */
  function Shl7(x: bv64, k: nat): bv64 {
    if k == 0 then x else Up7(Shl7(x, k - 1))
  }

  /** `w >> (8 * k)`. */
  function Shr8(w: bv64, k: nat): bv64 {
    if k == 0 then w else Shr8(Down8(w), k - 1)
  }

  /** The bitwise or of `Group(b[i]) << (7 * (k + i))`. */
  function Shifted(b: Bytes, k: nat): bv64 {
    if b == [] then 0 else Or(Shl7(Group(b[0]), k), Shifted(b[1..], k + 1))
  }

  // ----- shifts against digits

  lemma ShiftOr(x: bv64, y: bv64)
    ensures Up7(Or(x, y)) == Or(Up7(x), Up7(y))
  {
  }

  lemma OrAssociative(x: bv64, y: bv64, z: bv64)
    ensures Or(Or(x, y), z) == Or(x, Or(y, z))
  {
  }

  lemma OrZero(x: bv64)
    ensures Or(x, 0) == x && Or(0, x) == x
  {
  }

  lemma {:induction false} Shl7Or(x: bv64, y: bv64, k: nat)
    ensures Shl7(Or(x, y), k) == Or(Shl7(x, k), Shl7(y, k))
  {
    hide Or, Up7;
    if k > 0 {
      Shl7Or(x, y, k - 1);
      ShiftOr(Shl7(x, k - 1), Shl7(y, k - 1));
    }
  }

  lemma {:induction false} Shl7Add(x: bv64, k: nat)
    ensures Shl7(Up7(x), k) == Shl7(x, k + 1)
  {
    hide Up7;
    if k > 0 {
      Shl7Add(x, k - 1);
    }
  }

  lemma {:induction false} Shl7Zero(k: nat)
    ensures Shl7(0, k) == 0
  {
    if k > 0 {
      Shl7Zero(k - 1);
    }
  }

  /** Gathering the digits by shifts gives the number they stand for. */
  lemma {:induction false} ShiftedIsGroups(b: Bytes, k: nat)
    ensures Shifted(b, k) == Shl7(Groups(b), k)
  {
    if b == [] {
      Shl7Zero(k);
    } else {
      hide Or, Up7, Shl7, Group;
      ShiftedIsGroups(b[1..], k + 1);
      Shl7Or(Group(b[0]), Up7(Groups(b[1..])), k);
      Shl7Add(Groups(b[1..]), k);
    }
  }

  /** Appending a byte adds its digit above the others. */
  lemma {:induction false} ShiftedSnoc(b: Bytes, c: bv8, k: nat)
    ensures Shifted(b + [c], k) == Or(Shifted(b, k), Shl7(Group(c), k + |b|))
  {
    hide Or, Shl7, Group;
    if b == [] {
      assert [] + [c] == [c] && [c][1..] == [];
      OrZero(Shl7(Group(c), k));
    } else {
      assert (b + [c])[1..] == b[1..] + [c];
      ShiftedSnoc(b[1..], c, k + 1);
      OrAssociative(Shl7(Group(b[0]), k), Shifted(b[1..], k + 1), Shl7(Group(c), k + |b|));
    }
  }

  lemma GroupOfLast(b: bv8)
    requires b < 0x80
    ensures Group(b) == b as bv64
  {
  }

  lemma {:induction false} GroupsIsShifted(b: Bytes)
    ensures Groups(b) == Shifted(b, 0)
  {
    ShiftedIsGroups(b, 0);
  }

  lemma {:induction false} ShiftedConcat(a: Bytes, b: Bytes, k: nat)
    ensures Shifted(a + b, k) == Or(Shifted(a, k), Shifted(b, k + |a|))
  {
    hide Or, Shl7, Group;
    if a == [] {
      assert [] + b == b;
      OrZero(Shifted(b, k));
    } else {
      assert (a + b)[1..] == a[1..] + b;
      ShiftedConcat(a[1..], b, k + 1);
      OrAssociative(Shl7(Group(a[0]), k), Shifted(a[1..], k + 1), Shifted(b, k + |a|));
    }
  }

  // ----- the byte-wise reader

  lemma {:induction false} FirstDigit(c: bv8)
    ensures Shifted([c], 0) == Group(c)
  {
    assert [] + [c] == [c];
    ShiftedSnoc([], c, 0);
    OrZero(Group(c));
  }

  lemma SecondDigit(c: bv8, d: bv8)
    ensures Shifted([c, d], 0) == Or(Group(c), Shl7(Group(d), 1))
  {
    hide Or, Group, Shl7, Shifted;
    FirstDigit(c);
    assert [c] + [d] == [c, d];
    ShiftedSnoc([c], d, 0);
  }

  lemma ThirdDigit(c: bv8, d: bv8, e: bv8)
    ensures Shifted([c, d, e], 0) == Or(Or(Group(c), Shl7(Group(d), 1)), Shl7(Group(e), 2))
  {
    hide Or, Group, Shl7, Shifted;
    SecondDigit(c, d);
    assert [c, d] + [e] == [c, d, e];
    ShiftedSnoc([c, d], e, 0);
  }

  /** One arm of the reader's `match`: the bytes after the third, the last one unmasked. */
  function Arm(b: Bytes): bv64
    requires b != []
  {
    var n := |b| - 1;
    Or(Shifted(b[..n], 3), Shl7(b[n] as bv64, n + 3))
  }

  lemma ArmIsShifted(b: Bytes)
    requires b != [] && b[|b| - 1] < 0x80
    ensures Arm(b) == Shifted(b, 3)
  {
    var n := |b| - 1;
    GroupOfLast(b[n]);
    hide Or, Group, Shl7, Shifted;
    assert b[..n] + [b[n]] == b;
    ShiftedSnoc(b[..n], b[n], 3);
  }

  lemma TopIsShifted()
    ensures Shl7(1, 9) == TOP
  {
    assert Shl7(1, 3) == 0x20_0000;
    assert Shl7(1, 6) == 0x400_0000_0000;
  }

  /** The first three digits and an arm make the number. */
  lemma ArmCompletes(b: Bytes)
    requires |b| > 3 && b[|b| - 1] < 0x80
    ensures Or(Shifted(b[..3], 0), Arm(b[3..])) == Groups(b)
  {
    hide Or, Group, Shl7, Shifted, Groups;
    assert b[..3] + b[3..] == b;
    ShiftedConcat(b[..3], b[3..], 0);
    ArmIsShifted(b[3..]);
    GroupsIsShifted(b);
  }

  lemma TopCompletes(b: Bytes)
    requires |b| == 9
    ensures Or(Shifted(b[..3], 0), Or(Shifted(b[3..], 3), Shl7(1, 9))) == Or(Groups(b), TOP)
  {
    hide Or, Group, Shl7, Shifted, Groups;
    assert b[..3] + b[3..] == b;
    ShiftedConcat(b[..3], b[3..], 0);
    TopIsShifted();
    OrAssociative(Shifted(b[..3], 0), Shifted(b[3..], 3), TOP);
    GroupsIsShifted(b);
  }

  /** `read_var_uint64_slow`. */
  method ReadVarUint64Slow(src: Bytes, start: nat) returns (r: Reading, idx: nat)
    ensures (r, idx) == Read(src, start)
  {
    hide Or, Group, Shl7, Shifted, Groups;
    idx := start;
    if idx >= |src| {
      return Err(Truncated), idx;
    }
    var c := src[idx];
    idx := idx + 1;
    if c < 0x80 {
      StopAtUnique(src, start, start);
      assert src[start..idx] == [c];
      GroupsIsShifted([c]);
      FirstDigit(c);
      GroupOfLast(c);
      return Ok(c as bv64), idx;
    }
    if idx >= |src| {
      return Err(Truncated), idx;
    }
    var d := src[idx];
    idx := idx + 1;
    if d < 0x80 {
      StopAtUnique(src, start, start + 1);
      assert src[start..idx] == [c, d];
      GroupsIsShifted([c, d]);
      SecondDigit(c, d);
      GroupOfLast(d);
      return Ok(Or(Group(c), Shl7(d as bv64, 1))), idx;
    }
    if idx >= |src| {
      return Err(Truncated), idx;
    }
    var e := src[idx];
    idx := idx + 1;
    ThirdDigit(c, d, e);
    assert src[start..idx] == [c, d, e];
    if e < 0x80 {
      StopAtUnique(src, start, start + 2);
      GroupsIsShifted([c, d, e]);
      GroupOfLast(e);
      return Ok(Or(Or(Group(c), Shl7(Group(d), 1)), Shl7(e as bv64, 2))), idx;
    }
    var u := Or(Or(Group(c), Shl7(Group(d), 1)), Shl7(Group(e), 2));
    var j := idx;
    r, idx := ReadLong(src, start, j, u);
  }

  /** The slow path: scan to the unmarked byte, then choose the arm by the length. */
  method ReadLong(src: Bytes, ghost start: nat, j: nat, u: bv64) returns (r: Reading, idx: nat)
    requires j == start + 3 && j <= |src| && u == Shifted(src[start..j], 0)
    requires forall k :: start <= k < j ==> src[k] >= 0x80
    ensures (r, idx) == Read(src, start)
  {
    hide Or, Group, Shl7, Shifted, Groups;
    idx := j;
    while true
      invariant j <= idx <= |src|
      invariant forall k :: start <= k < idx ==> src[k] >= 0x80
      decreases |src| - idx
    {
      if idx >= |src| {
        return Err(Truncated), idx;
      }
      var c := src[idx];
      idx := idx + 1;
      if c < 0x80 {
        break;
      }
    }
    StopAtUnique(src, start, idx - 1);
    var b := src[j..idx];
    if 1 <= |b| <= 6 {
      ghost var all := src[start..idx];
      ArmCompletes(all);
      assert all[..3] == src[start..j] && all[3..] == b;
      return Ok(Or(u, Arm(b))), idx;
    }
    if |b| == 7 {
      if b[6] > 1 {
        return Err(TooBig), idx;
      }
      ghost var all := src[start..idx - 1];
      TopCompletes(all);
      assert all[..3] == src[start..j] && all[3..] == b[..6];
      return Ok(Or(u, Or(Shifted(b[..6], 3), Shl7(1, 9)))), idx;
    }
    return Err(TooLong), idx;
  }

  // ----- the word-at-a-time reader

  function Up8(x: bv64): bv64 {
    x << 8
  }

  function Down2(x: bv64): bv64 {
    x >> 2
  }

  function Down4(x: bv64): bv64 {
    x >> 4
  }

  function Down8(x: bv64): bv64 {
    x >> 8
  }

  function Low7(x: bv64): bv64 {
    x & 0x7f
  }

  /** The little-endian word of up to eight bytes. */
  function Word(b: Bytes): bv64 {
    if b == [] then 0 else Or(b[0] as bv64, Up8(Word(b[1..])))
  }

  function TrailingZeros(x: bv64): nat
    requires x != 0
    decreases x
  {
    if x & 1 != 0 then 0 else 1 + TrailingZeros(x >> 1)
  }

  const MARKS: bv64 := 0x8080_8080_8080_8080

  /** `x` is a word of `n` bytes. */
  predicate Below(x: bv64, n: nat) {
    match n
    case 0 => x == 0
    case 1 => x <= 0xff
    case 2 => x <= 0xffff
    case 3 => x <= 0xff_ffff
    case 4 => x <= 0xffff_ffff
    case 5 => x <= 0xff_ffff_ffff
    case 6 => x <= 0xffff_ffff_ffff
    case 7 => x <= 0xff_ffff_ffff_ffff
    case 8 => true
    case _ => false
  }

  /** The top bit of each of the first `n` bytes. */
  function Tops(n: nat): bv64 {
    match n
    case 0 => 0
    case 1 => 0x80
    case 2 => 0x8080
    case 3 => 0x80_8080
    case 4 => 0x8080_8080
    case 5 => 0x80_8080_8080
    case 6 => 0x8080_8080_8080
    case 7 => 0x80_8080_8080_8080
    case _ => MARKS
  }

  function Stops(x: bv64, n: nat): bv64 {
    !x & Tops(n)
  }

  lemma BelowSeven(y: bv64, n: nat)
    requires n <= 7 && Below(y, n)
    ensures y <= 0xff_ffff_ffff_ffff
  {
  }

  lemma DownUp(a: bv8, y: bv64)
    requires y <= 0xff_ffff_ffff_ffff
    ensures Down8(Or(a as bv64, Up8(y))) == y && Low7(Or(a as bv64, Up8(y))) == Group(a)
  {
  }

  lemma BelowStep(a: bv8, y: bv64, n: nat)
    requires 1 <= n <= 8 && Below(y, n - 1)
    ensures Below(Or(a as bv64, Up8(y)), n)
  {
  }

  lemma StopsStep(a: bv8, y: bv64, n: nat)
    requires 1 <= n <= 8 && Below(y, n - 1)
    ensures Stops(Or(a as bv64, Up8(y)), n) == Or((!a & 0x80) as bv64, Up8(Stops(y, n - 1)))
  {
  }

  lemma StopsSmall(y: bv64, n: nat)
    requires n <= 7
    ensures Stops(y, n) <= 0xff_ffff_ffff_ffff
  {
  }

  lemma {:induction false} WordBelow(b: Bytes)
    requires |b| <= 8
    ensures Below(Word(b), |b|)
  {
    if b != [] {
      hide Or, Up8;
      WordBelow(b[1..]);
      BelowStep(b[0], Word(b[1..]), |b|);
    }
  }

  /** Shifting the word drops its first bytes. */
  lemma {:induction false} WordByte(b: Bytes, k: nat)
    requires k < |b| <= 8
    ensures Low7(Shr8(Word(b), k)) == Group(b[k])
    decreases k
  {
    hide Or, Up8, Group, Below, Down8, Low7;
    WordBelow(b[1..]);
    BelowSeven(Word(b[1..]), |b| - 1);
    DownUp(b[0], Word(b[1..]));
    if k > 0 {
      WordByte(b[1..], k - 1);
    }
  }

  /** The `n` low bits of a non-zero `x` are clear. */
  predicate Clear(x: bv64, n: nat) {
    x != 0 && (if n == 2 then x & 3 == 0 else if n == 4 then x & 0xf == 0 else x & 0xff == 0)
  }

  lemma ClearHalves(x: bv64)
    ensures Clear(x, 4) ==> Clear(x, 2) && Clear(Down2(x), 2) && Down2(Down2(x)) == Down4(x) && Down4(x) != 0
    ensures Clear(x, 8) ==> Clear(x, 4) && Clear(Down4(x), 4) && Down4(Down4(x)) == Down8(x) && Down8(x) != 0
  {
  }

  lemma ZerosTwo(x: bv64)
    requires Clear(x, 2)
    ensures Down2(x) != 0 && TrailingZeros(x) == 2 + TrailingZeros(Down2(x))
  {
    var h := x >> 1;
    assert h != 0 && h & 1 == 0 && h >> 1 == Down2(x);
  }

  lemma ZerosFour(x: bv64)
    requires Clear(x, 4)
    ensures Down4(x) != 0 && TrailingZeros(x) == 4 + TrailingZeros(Down4(x))
  {
    ClearHalves(x);
    ZerosTwo(x);
    ZerosTwo(Down2(x));
    hide *;
  }

  lemma ZerosByte(x: bv64)
    requires Clear(x, 8)
    ensures Down8(x) != 0 && TrailingZeros(x) == 8 + TrailingZeros(Down8(x))
  {
    ClearHalves(x);
    ZerosFour(x);
    ZerosFour(Down4(x));
    hide *;
  }

  lemma ZerosSeven(x: bv64)
    requires x & 0xff == 0x80
    ensures x != 0 && TrailingZeros(x) == 7
  {
    var h := Down4(x);
    var g := Down2(h);
    assert Clear(x, 4) && Clear(h, 2);
    ZerosFour(x);
    ZerosTwo(h);
    assert g & 1 == 0 && (g >> 1) & 1 != 0;
  }

  /** The mark bits of a byte, moved in front of those of the other bytes. */
  lemma MarkFirst(a: bv8, z: bv64)
    requires z <= 0xff_ffff_ffff_ffff
    ensures var x := Or((!a & 0x80) as bv64, Up8(z));
            if a < 0x80 then x & 0xff == 0x80 else (x == 0 <==> z == 0) && (z != 0 ==> Clear(x, 8)) && Down8(x) == z
  {
  }

  /** The lowest stop bit is the top bit of the first unmarked byte, and there is none without one. */
  lemma {:induction false} StopBit(b: Bytes)
    requires |b| <= 8
    ensures var s, t := Stops(Word(b), |b|), StopAt(b, 0);
            (s == 0 <==> t == |b|) && (s != 0 ==> TrailingZeros(s) == 8 * t + 7)
  {
    hide Or, Up8, Below, Stops, StopAt, TrailingZeros;
    if b == [] {
      StopsNone();
      assert StopAt(b, 0) == 0 by {
        StopAtNone();
      }
    } else {
      var tail := b[1..];
      WordBelow(tail);
      StopsStep(b[0], Word(tail), |b|);
      StopsSmall(Word(tail), |b| - 1);
      assert Word(b) == Or(b[0] as bv64, Up8(Word(tail)));
      hide Word;
      StopBit(tail);
      StopAtTail(b);
      MarkZeros(b[0], Stops(Word(tail), |b| - 1));
    }
  }

  /** A byte before the others: its own stop bit comes first, or theirs come eight places later. */
  lemma MarkZeros(a: bv8, z: bv64)
    requires z <= 0xff_ffff_ffff_ffff
    ensures var x := Or((!a & 0x80) as bv64, Up8(z));
            if a < 0x80 then x != 0 && TrailingZeros(x) == 7
            else (x == 0 <==> z == 0) && (z != 0 ==> TrailingZeros(x) == 8 + TrailingZeros(z))
  {
    hide Or, Up8, TrailingZeros, Down8, Clear;
    MarkFirst(a, z);
    var x := Or((!a & 0x80) as bv64, Up8(z));
    if a < 0x80 {
      ZerosSeven(x);
    } else if z != 0 {
      ZerosByte(x);
    }
  }

  lemma StopAtNone()
    ensures StopAt([], 0) == 0
  {
  }

  lemma StopsNone()
    ensures Stops(Word([]), 0) == 0
  {
  }

  lemma StopAtTail(b: Bytes)
    requires b != []
    ensures StopAt(b, 0) == if b[0] < 0x80 then 0 else 1 + StopAt(b[1..], 0)
  {
    if b[0] >= 0x80 {
      StopAtMoved(b, 1);
    }
  }

  lemma {:induction false} StopAtMoved(b: Bytes, i: nat)
    requires 1 <= i <= |b|
    ensures StopAt(b, i) == 1 + StopAt(b[1..], i - 1)
    decreases |b| - i
  {
    if i < |b| && b[i] >= 0x80 {
      StopAtMoved(b, i + 1);
    }
  }

  lemma {:induction false} StopBeyond(src: Bytes, i: nat, m: nat)
    requires i <= m <= |src| && forall k :: i <= k < m ==> src[k] >= 0x80
    ensures StopAt(src, i) >= m
    decreases m - i
  {
    if i < m {
      StopBeyond(src, i + 1, m);
    }
  }

  /** A stop in the window is the stop of the whole input. */
  lemma StopInWindow(src: Bytes, start: nat)
    requires start + 8 <= |src|
    ensures var t := StopAt(src[start..start + 8], 0);
            if t < 8 then StopAt(src, start) == start + t else StopAt(src, start) >= start + 8
  {
    var b := src[start..start + 8];
    var t := StopAt(b, 0);
    assert forall k :: start <= k < start + t ==> src[k] == b[k - start];
    if t < 8 {
      StopAtUnique(src, start, start + t);
    } else {
      StopBeyond(src, start, start + 8);
    }
  }

  /** `read_var_uint64_fast`: the same value, index and failure as the byte-wise reader. */
  method ReadVarUint64Fast(src: Bytes, start: nat) returns (r: Reading, idx: nat)
    ensures (r, idx) == Read(src, start)
  {
    hide Or, Group, Shl7, Shr8, Groups, Shifted, Word, TrailingZeros;
    if start + 8 <= |src| {
      var window := src[start..start + 8];
      var w := Word(window);
      var stop := !w & MARKS;
      StopBit(window);
      StopInWindow(src, start);
      if stop != 0 {
        var nbytes := TrailingZeros(stop) / 8 + 1;
        var u := GatherWord(window, w, nbytes);
        assert src[start..start + nbytes] == window[..nbytes];
        idx := start + nbytes;
        return Ok(u), idx;
      }
    }
    r, idx := ReadVarUint64Slow(src, start);
  }

  /** The loop that gathers seven bits from each byte of the word. */
  method GatherWord(ghost window: Bytes, w: bv64, nbytes: nat) returns (u: bv64)
    requires |window| == 8 && w == Word(window) && 1 <= nbytes <= 8
    ensures u == Groups(window[..nbytes])
  {
    hide Or, Group, Shl7, Shr8, Groups, Shifted, Word, Low7;
    u := Low7(w);
    Shr8None(w);
    WordByte(window, 0);
    assert window[..1] == [window[0]];
    FirstDigit(window[0]);
    var k := 1;
    while k < nbytes
      invariant 1 <= k <= nbytes
      invariant u == Shifted(window[..k], 0)
    {
      WordByte(window, k);
      assert window[..k] + [window[k]] == window[..k + 1];
      ShiftedSnoc(window[..k], window[k], 0);
      u := Or(u, Shl7(Low7(Shr8(w, k)), k));
      k := k + 1;
    }
    GroupsIsShifted(window[..nbytes]);
  }

  lemma Shr8None(w: bv64)
    ensures Shr8(w, 0) == w
  {
  }

  // ----- the byte-at-a-time decoder of a single number

  /** `uvarint`: the value and the size, zero when the input ends early and negative on overflow. */
  method Uvarint(src: Bytes) returns (x: bv64, size: int)
    ensures (x, size) == UvarintOf(src)
  {
    hide Or, Group, Shl7, Shifted, Groups;
    x := 0;
    var i := 0;
    assert Shifted(src[..0], 0) == 0 by {
      NoDigits();
      assert src[..0] == [];
    }
    while i < |src|
      invariant 0 <= i <= |src| && i <= 10
      invariant x == Shifted(src[..i], 0)
      invariant forall k :: 0 <= k < i ==> src[k] >= 0x80
    {
      var b := src[i];
      if i == 10 {
        return 0, -11;
      }
      assert src[..i] + [b] == src[..i + 1];
      ShiftedSnoc(src[..i], b, 0);
      if b < 0x80 {
        StopAtUnique(src, 0, i);
        if i == 9 && b > 1 {
          return 0, -10;
        }
        GroupOfLast(b);
        GroupsIsShifted(src[..i + 1]);
        return Or(x, Shl7(b as bv64, i)), i + 1;
      }
      x := Or(x, Shl7(Group(b), i));
      i := i + 1;
    }
    return 0, 0;
  }

  lemma NoDigits()
    ensures Shifted([], 0) == 0
  {
  }

  function UvarintOf(src: Bytes): (bv64, int) {
    var t := StopAt(src, 0);
    if t < |src| && (t < 9 || (t == 9 && src[9] <= 1)) then (Groups(src[..t + 1]), t + 1)
    else if t == 9 && t < |src| then (0, -10)
    else if t >= 10 && |src| > 10 then (0, -11)
    else (0, 0)
  }
}
