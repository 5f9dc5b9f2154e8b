/** Relations between text positions: what a pattern matches is the set of its (start, end) spans. */
module Spans {

  type Rel = iset<(int, int)>

  /** The empty spans of a text of length `n`. */
  ghost function Id(n: nat): Rel {
    iset p: (int, int) | 0 <= p.0 <= n && p.1 == p.0
  }

  /** All spans of a text of length `n`. */
  ghost predicate Within(r: Rel, n: nat) {
    forall p :: p in r ==> 0 <= p.0 <= p.1 <= n
  }

  /** Position `k` joins a span of `r` to a span of `s`. */
  ghost predicate Joins(r: Rel, s: Rel, i: int, k: int, j: int) {
    (i, k) in r && (k, j) in s
  }

  /** A span of `r` followed by a span of `s`. */
  ghost function Then(r: Rel, s: Rel): Rel {
    iset p: (int, int) | exists k :: Joins(r, s, p.0, k, p.1)
  }

  ghost function Power(n: nat, r: Rel, k: nat): Rel {
    if k == 0 then Id(n) else Then(r, Power(n, r, k - 1))
  }

  /** Repetition count `k` is allowed by the bounds; `max == -1` means unbounded. */
  predicate Allowed(min: int, max: int, k: nat) {
    min <= k && (max == -1 || k <= max)
  }

  ghost predicate RepeatedIn(n: nat, r: Rel, min: int, max: int, p: (int, int), k: nat) {
    Allowed(min, max, k) && p in Power(n, r, k)
  }

  ghost predicate SomeRepetition(n: nat, r: Rel, min: int, max: int, p: (int, int)) {
    exists k: nat :: RepeatedIn(n, r, min, max, p, k)
  }

  /** Between `min` and `max` consecutive spans of `r`. */
  ghost function Repeated(n: nat, r: Rel, min: int, max: int): Rel {
    iset p: (int, int) | SomeRepetition(n, r, min, max, p)
  }

  // ----- algebra

  lemma ThenMember(r: Rel, s: Rel, i: int, k: int, j: int)
    requires (i, k) in r && (k, j) in s
    ensures (i, j) in Then(r, s)
  {
    assert Joins(r, s, i, k, j);
  }

  lemma ThenAssociative(r: Rel, s: Rel, t: Rel)
    ensures Then(Then(r, s), t) == Then(r, Then(s, t))
  {
    forall i, j | (i, j) in Then(Then(r, s), t) ensures (i, j) in Then(r, Then(s, t)) {
      var k :| Joins(Then(r, s), t, i, k, j);
      var m :| Joins(r, s, i, m, k);
      ThenMember(s, t, m, k, j);
      ThenMember(r, Then(s, t), i, m, j);
    }
    forall i, j | (i, j) in Then(r, Then(s, t)) ensures (i, j) in Then(Then(r, s), t) {
      var m :| Joins(r, Then(s, t), i, m, j);
      var k :| Joins(s, t, m, k, j);
      ThenMember(r, s, i, m, k);
      ThenMember(Then(r, s), t, i, k, j);
    }
    assert forall p :: p in Then(Then(r, s), t) <==> (p.0, p.1) in Then(r, Then(s, t));
  }

  lemma ThenUnion(r: Rel, s: Rel, t: Rel)
    ensures Then(r, s + t) == Then(r, s) + Then(r, t)
  {
    forall i, j ensures (i, j) in Then(r, s + t) <==> (i, j) in Then(r, s) + Then(r, t) {
      if (i, j) in Then(r, s + t) {
        var k :| Joins(r, s + t, i, k, j);
        assert Joins(r, s, i, k, j) || Joins(r, t, i, k, j);
      }
      if (i, j) in Then(r, s) {
        var k :| Joins(r, s, i, k, j);
        ThenMember(r, s + t, i, k, j);
      }
      if (i, j) in Then(r, t) {
        var k :| Joins(r, t, i, k, j);
        ThenMember(r, s + t, i, k, j);
      }
    }
    assert forall p :: p in Then(r, s + t) <==> (p.0, p.1) in Then(r, s) + Then(r, t);
  }

  lemma ThenNothing(r: Rel)
    ensures Then(r, iset{}) == iset{}
  {
    assert forall i, k, j :: !Joins(r, iset{}, i, k, j);
  }

  lemma ThenId(n: nat, r: Rel)
    requires Within(r, n)
    ensures Then(r, Id(n)) == r
  {
    forall i, j ensures (i, j) in Then(r, Id(n)) <==> (i, j) in r {
      if (i, j) in Then(r, Id(n)) {
        var k :| Joins(r, Id(n), i, k, j);
      }
      if (i, j) in r {
        ThenMember(r, Id(n), i, j, j);
      }
    }
    assert forall p :: p in Then(r, Id(n)) <==> (p.0, p.1) in r;
  }

  lemma IdThen(n: nat, r: Rel)
    requires Within(r, n)
    ensures Then(Id(n), r) == r
  {
    forall i, j ensures (i, j) in Then(Id(n), r) <==> (i, j) in r {
      if (i, j) in Then(Id(n), r) {
        var k :| Joins(Id(n), r, i, k, j);
      }
      if (i, j) in r {
        ThenMember(Id(n), r, i, i, j);
      }
    }
    assert forall p :: p in Then(Id(n), r) <==> (p.0, p.1) in r;
  }

  lemma ThenWithin(n: nat, r: Rel, s: Rel)
    requires Within(r, n) && Within(s, n)
    ensures Within(Then(r, s), n)
  {
    forall p | p in Then(r, s) ensures 0 <= p.0 <= p.1 <= n {
      var k :| Joins(r, s, p.0, k, p.1);
      assert (p.0, k) in r && (k, p.1) in s;
    }
  }

  lemma {:induction false} PowerWithin(n: nat, r: Rel, k: nat)
    requires Within(r, n)
    ensures Within(Power(n, r, k), n)
  {
    if k > 0 {
      PowerWithin(n, r, k - 1);
      ThenWithin(n, r, Power(n, r, k - 1));
    }
  }

  lemma RepeatedWithin(n: nat, r: Rel, min: int, max: int)
    requires Within(r, n)
    ensures Within(Repeated(n, r, min, max), n)
  {
    forall p | p in Repeated(n, r, min, max) ensures 0 <= p.0 <= p.1 <= n {
      var k: nat :| RepeatedIn(n, r, min, max, p, k);
      PowerWithin(n, r, k);
    }
  }

  lemma {:induction false} PowerAdds(n: nat, r: Rel, a: nat, b: nat)
    requires Within(r, n)
    ensures Then(Power(n, r, a), Power(n, r, b)) == Power(n, r, a + b)
  {
    if a == 0 {
      PowerWithin(n, r, b);
      IdThen(n, Power(n, r, b));
    } else {
      PowerAdds(n, r, a - 1, b);
      ThenAssociative(r, Power(n, r, a - 1), Power(n, r, b));
    }
  }

  lemma PowerOne(n: nat, r: Rel)
    requires Within(r, n)
    ensures Power(n, r, 1) == r
  {
    ThenId(n, r);
    assert Power(n, r, 0) == Id(n);
  }

  /** `a` spans, then between `min` and `max` more. */
  lemma PowerThenRepeated(n: nat, r: Rel, a: nat, min: nat, max: int)
    requires Within(r, n) && max >= -1
    ensures Then(Power(n, r, a), Repeated(n, r, min, max)) == Repeated(n, r, a + min, if max == -1 then -1 else a + max)
  {
    hide Then, Power, Repeated, Within;
    var top := if max == -1 then -1 else a + max;
    var both, whole := Then(Power(n, r, a), Repeated(n, r, min, max)), Repeated(n, r, a + min, top);
    forall i, j ensures (i, j) in both <==> (i, j) in whole {
      if (i, j) in both {
        MoreCopies(n, r, a, min, max, i, j);
      }
      if (i, j) in whole {
        FewerCopies(n, r, a, min, max, i, j);
      }
    }
    assert forall p :: p in both <==> (p.0, p.1) in whole;
  }

  lemma MoreCopies(n: nat, r: Rel, a: nat, min: nat, max: int, i: int, j: int)
    requires Within(r, n) && max >= -1 && (i, j) in Then(Power(n, r, a), Repeated(n, r, min, max))
    ensures (i, j) in Repeated(n, r, a + min, if max == -1 then -1 else a + max)
  {
    hide Power, Within;
    var k :| Joins(Power(n, r, a), Repeated(n, r, min, max), i, k, j);
    var b: nat :| RepeatedIn(n, r, min, max, (k, j), b);
    ThenMember(Power(n, r, a), Power(n, r, b), i, k, j);
    PowerAdds(n, r, a, b);
    assert RepeatedIn(n, r, a + min, if max == -1 then -1 else a + max, (i, j), a + b);
  }

  lemma FewerCopies(n: nat, r: Rel, a: nat, min: nat, max: int, i: int, j: int)
    requires Within(r, n) && max >= -1 && (i, j) in Repeated(n, r, a + min, if max == -1 then -1 else a + max)
    ensures (i, j) in Then(Power(n, r, a), Repeated(n, r, min, max))
  {
    hide Power, Within;
    var c: nat :| RepeatedIn(n, r, a + min, if max == -1 then -1 else a + max, (i, j), c);
    PowerAdds(n, r, a, c - a);
    assert (i, j) in Then(Power(n, r, a), Power(n, r, c - a));
    var k :| Joins(Power(n, r, a), Power(n, r, c - a), i, k, j);
    assert RepeatedIn(n, r, min, max, (k, j), c - a);
    ThenMember(Power(n, r, a), Repeated(n, r, min, max), i, k, j);
  }

  lemma RepeatedExactly(n: nat, r: Rel, a: nat)
    ensures Repeated(n, r, a, a) == Power(n, r, a)
  {
    forall p ensures p in Repeated(n, r, a, a) <==> p in Power(n, r, a) {
      if p in Repeated(n, r, a, a) {
        var k: nat :| RepeatedIn(n, r, a, a, p, k);
      }
      if p in Power(n, r, a) {
        assert RepeatedIn(n, r, a, a, p, a);
      }
    }
  }

  lemma NoneOrSome(n: nat, r: Rel, top: nat)
    requires top >= 1
    ensures Repeated(n, r, 0, top) == Id(n) + Repeated(n, r, 1, top)
  {
    hide Id;
    forall p ensures p in Repeated(n, r, 0, top) <==> p in Id(n) + Repeated(n, r, 1, top) {
      if p in Repeated(n, r, 0, top) {
        var k: nat :| RepeatedIn(n, r, 0, top, p, k);
        assert k > 0 ==> RepeatedIn(n, r, 1, top, p, k);
      }
      if p in Id(n) {
        assert RepeatedIn(n, r, 0, top, p, 0);
      }
      if p in Repeated(n, r, 1, top) {
        var k: nat :| RepeatedIn(n, r, 1, top, p, k);
        assert RepeatedIn(n, r, 0, top, p, k);
      }
    }
  }

  /** At most one more than `m`: either nothing, or one and then at most `m`. */
  lemma OptionalStep(n: nat, r: Rel, m: nat)
    requires Within(r, n)
    ensures Repeated(n, r, 0, m + 1) == Id(n) + Then(r, Repeated(n, r, 0, m))
  {
    hide Id, Then, Repeated, Power, Within;
    PowerOne(n, r);
    PowerThenRepeated(n, r, 1, 0, m);
    NoneOrSome(n, r, m + 1);
  }

  lemma OptionalIsUnion(n: nat, r: Rel)
    requires Within(r, n)
    ensures Repeated(n, r, 0, 1) == Id(n) + r
  {
    hide *;
    OptionalStep(n, r, 0);
    RepeatedNone(n, r);
    ThenId(n, r);
  }

  lemma RepeatedNone(n: nat, r: Rel)
    ensures Repeated(n, r, 0, 0) == Id(n)
  {
    RepeatedExactly(n, r, 0);
  }

  /** Repeating the empty span gives the empty span. */
  lemma {:induction false} PowerOfId(n: nat, k: nat)
    ensures Power(n, Id(n), k) == Id(n)
  {
    if k > 0 {
      PowerOfId(n, k - 1);
      IdThen(n, Id(n));
    }
  }

  lemma RepeatedId(n: nat, min: nat, max: int)
    requires max == -1 || min <= max
    ensures Repeated(n, Id(n), min, max) == Id(n)
  {
    forall p ensures p in Repeated(n, Id(n), min, max) <==> p in Id(n) {
      if p in Repeated(n, Id(n), min, max) {
        var k: nat :| RepeatedIn(n, Id(n), min, max, p, k);
        PowerOfId(n, k);
      }
      if p in Id(n) {
        PowerOfId(n, min);
        assert RepeatedIn(n, Id(n), min, max, p, min);
      }
    }
  }

  // ----- stacked repetition

  /** Powers of an unbounded repetition stay inside it. */
  lemma {:induction false} PowerOfRepeated(n: nat, r: Rel, min: nat, k: nat, i: int, j: int) returns (c: nat)
    requires Within(r, n) && min <= 1 && (i, j) in Power(n, Repeated(n, r, min, -1), k)
    ensures c >= k * min && (i, j) in Power(n, r, c)
  {
    if k == 0 {
      c := 0;
    } else {
      var s := Repeated(n, r, min, -1);
      var m :| Joins(s, Power(n, s, k - 1), i, m, j);
      var a: nat :| RepeatedIn(n, r, min, -1, (i, m), a);
      var b := PowerOfRepeated(n, r, min, k - 1, m, j);
      ThenMember(Power(n, r, a), Power(n, r, b), i, m, j);
      PowerAdds(n, r, a, b);
      c := a + b;
    }
  }

  /** `(r*)*` is `r*` and `(r+)+` is `r+`. */
  lemma StackedUnbounded(n: nat, r: Rel, min: nat)
    requires Within(r, n) && min <= 1
    ensures Repeated(n, Repeated(n, r, min, -1), min, -1) == Repeated(n, r, min, -1)
  {
    var s := Repeated(n, r, min, -1);
    RepeatedWithin(n, r, min, -1);
    forall i, j ensures (i, j) in Repeated(n, s, min, -1) <==> (i, j) in s {
      if (i, j) in Repeated(n, s, min, -1) {
        var k: nat :| RepeatedIn(n, s, min, -1, (i, j), k);
        var c := PowerOfRepeated(n, r, min, k, i, j);
        assert c >= min;
        assert RepeatedIn(n, r, min, -1, (i, j), c);
      }
      if (i, j) in s {
        PowerOne(n, s);
        assert RepeatedIn(n, s, min, -1, (i, j), 1);
      }
    }
    assert forall p :: p in Repeated(n, s, min, -1) <==> (p.0, p.1) in s;
  }

  /** `(r?)?` is `r?`. */
  lemma StackedOptional(n: nat, r: Rel)
    requires Within(r, n)
    ensures Repeated(n, Repeated(n, r, 0, 1), 0, 1) == Repeated(n, r, 0, 1)
  {
    RepeatedWithin(n, r, 0, 1);
    OptionalIsUnion(n, r);
    OptionalIsUnion(n, Repeated(n, r, 0, 1));
  }
}
