/** Sequences that list finite sets of integers without repetition. */
module Listing {

  ghost predicate Ascending(q: seq<int>) {
    forall i, j :: 0 <= i < j < |q| ==> q[i] < q[j]
  }

  ghost predicate Distinct<T>(q: seq<T>) {
    forall i, j :: 0 <= i < j < |q| ==> q[i] != q[j]
  }

  ghost function Elements<T>(q: seq<T>): set<T> {
    set v | v in q
  }

  /** `q` lists exactly the members of `s`, each once. */
  ghost predicate Lists(q: seq<int>, s: set<int>) {
    Distinct(q) && Elements(q) == s
  }

  /** The set `{c + y | y in s}`. */
  ghost function Shift(c: int, s: set<int>): set<int> {
    set y | y in s :: c + y
  }

  lemma UnionAssociative(s: set<int>, t: set<int>, u: set<int>)
    ensures s + t + u == s + (t + u)
  {
  }

  lemma Pick<T>(s: set<T>) returns (y: T)
    requires s != {}
    ensures y in s
  {
    y :| y in s;
  }

  lemma ShiftMember(c: int, s: set<int>, v: int)
    ensures v in Shift(c, s) <==> v - c in s
  {
    if v - c in s {
      assert c + (v - c) in Shift(c, s);
    }
  }

  lemma {:induction false} ShiftCardinality(c: int, s: set<int>)
    ensures |Shift(c, s)| == |s|
    decreases |s|
  {
    if s == {} {
      assert Shift(c, s) == {};
    } else {
      var y := Pick(s);
      ShiftCardinality(c, s - {y});
      forall v ensures v in Shift(c, s) <==> v in Shift(c, s - {y}) + {c + y} {
        ShiftMember(c, s, v);
        ShiftMember(c, s - {y}, v);
      }
      assert Shift(c, s) == Shift(c, s - {y}) + {c + y};
      ShiftMember(c, s - {y}, c + y);
    }
  }

  lemma {:induction false} DistinctCardinality<T>(q: seq<T>)
    requires Distinct(q)
    ensures |Elements(q)| == |q|
  {
    if q != [] {
      var last := |q| - 1;
      DistinctCardinality(q[..last]);
      assert Elements(q) == Elements(q[..last]) + {q[last]};
    }
  }

  lemma AscendingSpliced(q: seq<int>, pos: nat, x: int)
    requires Ascending(q) && pos <= |q|
    requires forall i :: 0 <= i < pos ==> q[i] < x
    requires forall i :: pos <= i < |q| ==> x < q[i]
    ensures Ascending(q[..pos] + [x] + q[pos..])
  {
    var r := q[..pos] + [x] + q[pos..];
    assert forall i :: 0 <= i < |r| ==> r[i] == if i < pos then q[i] else if i == pos then x else q[i - 1];
  }

  /** Inserts `x` before the first greater element. */
  function Insert(q: seq<int>, x: int): (r: seq<int>)
    ensures multiset(r) == multiset(q) + multiset{x}
  {
    if q == [] then [x]
    else if x <= q[0] then [x] + q
    else
      assert q == [q[0]] + q[1..];
      [q[0]] + Insert(q[1..], x)
  }

  /** The library sort of a slice of integers. */
  function Sort(q: seq<int>): (r: seq<int>)
    ensures multiset(r) == multiset(q)
  {
    if q == [] then []
    else
      assert q == [q[0]] + q[1..];
      Insert(Sort(q[1..]), q[0])
  }

  lemma InsertElements(q: seq<int>, x: int)
    ensures forall v :: v in Insert(q, x) <==> v == x || v in q
  {
    forall v ensures v in Insert(q, x) <==> v == x || v in q {
      assert v in Insert(q, x) <==> v in multiset(Insert(q, x));
      assert v in q <==> v in multiset(q);
    }
  }

  lemma AscendingCons(x: int, q: seq<int>)
    requires Ascending(q) && forall v :: v in q ==> x < v
    ensures Ascending([x] + q)
  {
    var r := [x] + q;
    forall i, j | 0 <= i < j < |r| ensures r[i] < r[j] {
      assert r[j] == q[j - 1] && q[j - 1] in q;
      assert i > 0 ==> r[i] == q[i - 1];
    }
  }

  lemma {:induction false} InsertAscending(q: seq<int>, x: int)
    requires Ascending(q) && x !in q
    ensures Ascending(Insert(q, x))
  {
    if q == [] {
    } else if x <= q[0] {
      AscendingCons(x, q);
    } else {
      InsertAscending(q[1..], x);
      InsertElements(q[1..], x);
      AscendingCons(q[0], Insert(q[1..], x));
    }
  }

  lemma {:induction false} SortListsAscending(q: seq<int>)
    requires Distinct(q)
    ensures Ascending(Sort(q)) && Elements(Sort(q)) == Elements(q)
  {
    SameElements(q, Sort(q));
    if q != [] {
      SortListsAscending(q[1..]);
      assert q[0] !in q[1..];
      assert forall v :: v in Sort(q[1..]) ==> v in Elements(q[1..]);
      InsertAscending(Sort(q[1..]), q[0]);
    }
  }

  lemma SameElements(p: seq<int>, q: seq<int>)
    requires multiset(p) == multiset(q)
    ensures Elements(p) == Elements(q)
  {
    forall v ensures v in Elements(p) <==> v in Elements(q) {
      assert v in multiset(p) <==> v in p;
      assert v in multiset(q) <==> v in q;
    }
  }

  /** `q` lists, in ascending order, `base` plus each value of `s`. */
  ghost predicate ListsFrom(q: seq<int>, base: int, s: set<int>) {
    Ascending(q) && forall v :: v in q <==> v - base in s
  }

  lemma AscendingSnoc(q: seq<int>, x: int)
    requires Ascending(q) && forall v :: v in q ==> v < x
    ensures Ascending(q + [x])
  {
    var r := q + [x];
    forall i, j | 0 <= i < j < |r| ensures r[i] < r[j] {
      assert r[i] == q[i] && q[i] in q;
    }
  }

  lemma ListsFromZero(q: seq<int>, s: set<int>)
    requires ListsFrom(q, 0, s)
    ensures Elements(q) == s
  {
    forall v ensures v in q <==> v in s {
      assert v - 0 == v;
    }
  }

  /** Listings of a low part and of a part at offset `c` above it concatenate. */
  lemma ListsConcat(q: seq<int>, base: int, s: set<int>, p: seq<int>, c: int, t: set<int>)
    requires ListsFrom(q, base, s) && ListsFrom(p, base + c, t)
    requires forall x, y :: x in s && y in t ==> x < c + y
    ensures ListsFrom(q + p, base, s + Shift(c, t))
  {
    var r := q + p;
    forall i, j | 0 <= i < j < |r| ensures r[i] < r[j] {
      if i < |q| <= j {
        assert r[i] == q[i] && r[j] == p[j - |q|];
        assert q[i] in q && p[j - |q|] in p;
        assert q[i] - base in s && p[j - |q|] - (base + c) in t;
        assert q[i] - base < c + (p[j - |q|] - (base + c));
      }
    }
    forall v ensures v in r <==> v - base in s + Shift(c, t) {
      ShiftMember(c, t, v - base);
      assert v - base - c == v - (base + c);
    }
  }
}
