/** 64-bit words as numbers: the two's complement bit pattern of an i64 and back. */
module Words {
  const TWO63: int := 0x8000_0000_0000_0000
  const TWO64: int := 0x1_0000_0000_0000_0000

  predicate IsI64(x: int) {
    -TWO63 <= x < TWO63
  }

  /** The i64 congruent to `x` modulo 2^64: what wrapping arithmetic keeps. */
  function Wrap(x: int): (w: int)
    ensures IsI64(w) && (w - x) % TWO64 == 0
  {
    (x + TWO63) % TWO64 - TWO63
  }

  /** Congruent modulo 2^64. */
  predicate Cong(x: int, y: int) {
    (x - y) % TWO64 == 0
  }

  lemma CongAdd(a: int, b: int, c: int, d: int)
    requires Cong(a, b) && Cong(c, d)
    ensures Cong(a + c, b + d) && Cong(a - c, b - d) && Cong(-c, -d)
  {
    var k, l := (a - b) / TWO64, (c - d) / TWO64;
    assert a - b == k * TWO64 && c - d == l * TWO64;
    assert (a + c) - (b + d) == (k + l) * TWO64;
    assert (a - c) - (b - d) == (k - l) * TWO64;
    assert (-c) - (-d) == (-l) * TWO64;
    Multiple(k + l);
    Multiple(k - l);
    Multiple(-l);
  }

  lemma Multiple(k: int)
    ensures (k * TWO64) % TWO64 == 0
  {
  }

  lemma CongTrans(a: int, b: int, c: int)
    requires Cong(a, b) && Cong(b, c)
    ensures Cong(a, c)
  {
    CongAdd(a, b, b, c);
  }

  lemma CongWrap(x: int)
    ensures Cong(Wrap(x), x) && Cong(x, Wrap(x)) && Cong(x, x)
  {
  }

  /** Congruent numbers have the same wrapped value, and an i64 is its own. */
  lemma WrapCong(x: int, y: int)
    requires Cong(x, y)
    ensures Wrap(x) == Wrap(y) && (IsI64(y) ==> Wrap(x) == y)
  {
  }

  function Pow2(n: nat): (p: int)
    ensures p > 0
  {
    if n == 0 then 1 else 2 * Pow2(n - 1)
  }

  // ----- bits

  function Half(u: bv64): bv64 {
    u >> 1
  }

  function Odd(u: bv64): bool {
    u & 1 != 0
  }

  /** The word with lowest bit `b` above which stands `y`. */
  function Push(b: bool, y: bv64): bv64 {
    (y << 1) | (if b then 1 else 0)
  }

  function Shr(u: bv64, n: nat): bv64 {
    if n == 0 then u else Shr(Half(u), n - 1)
  }

  lemma HalfSmaller(u: bv64)
    requires u != 0
    ensures Half(u) < u
  {
  }

  lemma PushHalf(b: bool, y: bv64)
    requires y & 0x8000_0000_0000_0000 == 0
    ensures Half(Push(b, y)) == y && Odd(Push(b, y)) == b && (Push(b, y) == 0 <==> !b && y == 0)
  {
  }

  lemma {:induction false} ShrJoin(u: bv64, m: nat, n: nat)
    ensures Shr(u, m + n) == Shr(Shr(u, m), n)
    decreases m
  {
    hide Half;
    if m > 0 {
      ShrJoin(Half(u), m - 1, n);
    }
  }

  lemma {:induction false} ShrZero(n: nat)
    ensures Shr(0, n) == 0
  {
    if n > 0 {
      ShrZero(n - 1);
    }
  }

  function Down4(x: bv64): bv64 {
    x >> 4
  }

  function Down16(x: bv64): bv64 {
    x >> 16
  }

  lemma HalfFourTimes(u: bv64)
    ensures Half(Half(Half(Half(u)))) == Down4(u)
  {
  }

  lemma Down4FourTimes(u: bv64)
    ensures Down4(Down4(Down4(Down4(u)))) == Down16(u)
  {
  }

  lemma Down16Top(u: bv64)
    requires Half(Half(Half(Down4(Down4(Down4(Down16(Down16(Down16(u))))))))) == 0
    ensures u & 0x8000_0000_0000_0000 == 0
  {
  }

  lemma ShrThree(u: bv64)
    ensures Shr(u, 3) == Half(Half(Half(u)))
  {
    hide Half;
    assert Shr(u, 2) == Shr(Half(u), 1);
    assert Shr(Half(u), 2) == Shr(Half(Half(u)), 1);
  }

  lemma ShrFour(u: bv64)
    ensures Shr(u, 4) == Down4(u)
  {
    hide Half, Down4;
    ShrThree(Half(u));
    HalfFourTimes(u);
  }

  lemma ShrTwelve(u: bv64)
    ensures Shr(u, 12) == Down4(Down4(Down4(u)))
  {
    hide Shr, Down4;
    ShrFour(u);
    ShrFour(Down4(u));
    ShrFour(Down4(Down4(u)));
    ShrJoin(u, 4, 8);
    ShrJoin(Down4(u), 4, 4);
  }

  lemma ShrSixteen(u: bv64)
    ensures Shr(u, 16) == Down16(u)
  {
    hide Shr, Down4, Down16;
    ShrTwelve(u);
    ShrFour(Down4(Down4(Down4(u))));
    ShrJoin(u, 12, 4);
    Down4FourTimes(u);
  }

  /** A word that 63 halvings bring to zero has a clear top bit. */
  lemma ShrTop(u: bv64)
    requires Shr(u, 63) == 0
    ensures u & 0x8000_0000_0000_0000 == 0
  {
    hide Shr, Down4, Down16, Half;
    var v := Down16(Down16(Down16(u)));
    ShrSixteen(u);
    ShrSixteen(Down16(u));
    ShrSixteen(Down16(Down16(u)));
    ShrJoin(u, 16, 47);
    ShrJoin(Down16(u), 16, 31);
    ShrJoin(Down16(Down16(u)), 16, 15);
    ShrTwelve(v);
    ShrJoin(v, 12, 3);
    ShrThree(Down4(Down4(Down4(v))));
    Down16Top(u);
  }

  // ----- numbers

  /** The unsigned value of a word. */
  function Num(u: bv64): nat
    decreases u
  {
    if u == 0 then 0 else HalfSmaller(u); (if Odd(u) then 1 else 0) + 2 * Num(Half(u))
  }

  /** The word of the `k` low bits of `n`. */
  function OfNum(n: nat, k: nat): bv64 {
    if k == 0 then 0 else Push(n % 2 == 1, OfNum(n / 2, k - 1))
  }

  lemma {:induction false} OfNumShort(n: nat, k: nat)
    requires k <= 64
    ensures Shr(OfNum(n, k), k) == 0
    ensures k <= 63 ==> OfNum(n, k) & 0x8000_0000_0000_0000 == 0
  {
    hide Half, Push;
    if k > 0 {
      OfNumShort(n / 2, k - 1);
      PushHalf(n % 2 == 1, OfNum(n / 2, k - 1));
    }
    if k <= 63 {
      ShrJoin(OfNum(n, k), k, 63 - k);
      ShrZero(63 - k);
      ShrTop(OfNum(n, k));
    }
  }

  lemma {:induction false} NumOfNum(n: nat, k: nat)
    requires k <= 64 && n < Pow2(k)
    ensures Num(OfNum(n, k)) == n
  {
    if k > 0 {
      NumOfNum(n / 2, k - 1);
      OfNumShort(n / 2, k - 1);
      hide Half, Push, Odd;
      PushHalf(n % 2 == 1, OfNum(n / 2, k - 1));
    }
  }

  lemma Pow64()
    ensures Pow2(64) == TWO64
  {
    assert Pow2(8) == 256;
    PowAdd(8, 8);
    PowAdd(16, 16);
    PowAdd(32, 32);
  }

  lemma {:induction false} PowAdd(m: nat, n: nat)
    ensures Pow2(m + n) == Pow2(m) * Pow2(n)
  {
    if m > 0 {
      PowAdd(m - 1, n);
    }
  }

  /** The bit pattern of an i64. */
  function ToWord(v: int): bv64 {
    OfNum(v % TWO64, 64)
  }

  function FromWord(u: bv64): (v: int) {
    Wrap(Num(u))
  }

  lemma WordRoundTrip(v: int)
    requires IsI64(v)
    ensures FromWord(ToWord(v)) == v
  {
    Pow64();
    hide Num, OfNum;
    NumOfNum(v % TWO64, 64);
  }

  function ToWords(vs: seq<int>): (us: seq<bv64>)
    ensures |us| == |vs| && forall i :: 0 <= i < |vs| ==> us[i] == ToWord(vs[i])
  {
    seq(|vs|, i requires 0 <= i < |vs| => ToWord(vs[i]))
  }

  function FromWords(us: seq<bv64>): (vs: seq<int>)
    ensures |vs| == |us| && forall i :: 0 <= i < |us| ==> vs[i] == FromWord(us[i])
    ensures forall i :: 0 <= i < |us| ==> IsI64(vs[i])
  {
    seq(|us|, i requires 0 <= i < |us| => FromWord(us[i]))
  }

  ghost predicate AllI64(vs: seq<int>) {
    forall i :: 0 <= i < |vs| ==> IsI64(vs[i])
  }

  lemma WordsRoundTrip(vs: seq<int>)
    requires AllI64(vs)
    ensures FromWords(ToWords(vs)) == vs
  {
    hide FromWord, ToWord;
    forall i | 0 <= i < |vs| ensures FromWord(ToWord(vs[i])) == vs[i] {
      WordRoundTrip(vs[i]);
    }
  }
}
