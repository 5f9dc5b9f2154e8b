/** Unions of sets stored in slots, each slot at its own base; and the stable sort of keyed slots. */
module Slots {
  import opened Listing

  /** The union over all slots `i` of `bases[i] + y` for `y` in `sets[i]`. */
  ghost function Total(bases: seq<int>, sets: seq<set<int>>): set<int>
    requires |bases| == |sets|
  {
    if bases == [] then {}
    else
      Total(bases[..|bases| - 1], sets[..|bases| - 1]) + Shift(bases[|bases| - 1], sets[|bases| - 1])
  }

  /** Value `v` is stored in some slot. */
  ghost predicate Stored(bases: seq<int>, sets: seq<set<int>>, v: int)
    requires |bases| == |sets|
  {
    exists i :: 0 <= i < |bases| && v - bases[i] in sets[i]
  }

  lemma {:induction false} TotalMember(bases: seq<int>, sets: seq<set<int>>, v: int)
    requires |bases| == |sets|
    ensures v in Total(bases, sets) <==> Stored(bases, sets, v)
  {
    if bases != [] {
      var n := |bases| - 1;
      TotalMember(bases[..n], sets[..n], v);
      ShiftMember(bases[n], sets[n], v);
      if Stored(bases[..n], sets[..n], v) {
        var i :| 0 <= i < n && v - bases[..n][i] in sets[..n][i];
        assert v - bases[i] in sets[i];
      }
      if Stored(bases, sets, v) {
        var i :| 0 <= i < |bases| && v - bases[i] in sets[i];
        assert i < n ==> v - bases[..n][i] in sets[..n][i];
      }
    }
  }

  lemma TotalPush(bases: seq<int>, sets: seq<set<int>>, base: int, s: set<int>)
    requires |bases| == |sets|
    ensures Total(bases + [base], sets + [s]) == Total(bases, sets) + Shift(base, s)
  {
    assert (bases + [base])[..|bases|] == bases;
    assert (sets + [s])[..|sets|] == sets;
  }

  lemma {:induction false} TotalGrow(bases: seq<int>, sets: seq<set<int>>, i: nat, extra: set<int>)
    requires |bases| == |sets| && i < |bases|
    ensures Total(bases, sets[i := sets[i] + extra]) == Total(bases, sets) + Shift(bases[i], extra)
  {
    var n := |bases| - 1;
    var after := sets[i := sets[i] + extra];
    if i == n {
      assert after[..n] == sets[..n];
      ShiftUnion(bases[n], sets[n], extra);
    } else {
      TotalGrow(bases[..n], sets[..n], i, extra);
      assert after[..n] == sets[..n][i := sets[..n][i] + extra];
    }
  }

  lemma ShiftUnion(c: int, s: set<int>, t: set<int>)
    ensures Shift(c, s + t) == Shift(c, s) + Shift(c, t)
  {
    forall v ensures v in Shift(c, s + t) <==> v in Shift(c, s) + Shift(c, t) {
      ShiftMember(c, s, v);
      ShiftMember(c, t, v);
      ShiftMember(c, s + t, v);
    }
  }

  lemma SplicedFront<T>(q: seq<T>, pos: nat, x: T)
    requires pos < |q|
    ensures var r, n := q[..pos] + [x] + q[pos..], |q| - 1;
            |r| == n + 2 && r[n + 1] == q[n] && r[..n + 1] == q[..n][..pos] + [x] + q[..n][pos..]
  {
    var r, n := q[..pos] + [x] + q[pos..], |q| - 1;
    assert q[..n][..pos] == q[..pos];
    assert q[pos..] == q[..n][pos..] + [q[n]];
    assert r == q[..pos] + [x] + q[..n][pos..] + [q[n]];
  }

  lemma {:induction false} TotalInsertEmpty(bases: seq<int>, sets: seq<set<int>>, pos: nat, base: int)
    requires |bases| == |sets| && pos <= |bases|
    ensures Total(bases[..pos] + [base] + bases[pos..], sets[..pos] + [{}] + sets[pos..]) == Total(bases, sets)
  {
    var b2, s2 := bases[..pos] + [base] + bases[pos..], sets[..pos] + [{}] + sets[pos..];
    var n := |bases| - 1;
    if pos == |bases| {
      assert b2 == bases + [base] && s2 == sets + [{}];
      TotalPush(bases, sets, base, {});
      assert Shift(base, {}) == {};
    } else {
      TotalInsertEmpty(bases[..n], sets[..n], pos, base);
      SplicedFront(bases, pos, base);
      SplicedFront(sets, pos, {});
    }
  }

  /** No value is stored by two slots. */
  ghost predicate Separate(bases: seq<int>, sets: seq<set<int>>)
    requires |bases| == |sets|
  {
    forall i, j, x, y :: 0 <= i < j < |bases| && x in sets[i] && y in sets[j] ==> bases[i] + x != bases[j] + y
  }

  ghost function SumSizes(sets: seq<set<int>>): nat {
    if sets == [] then 0 else SumSizes(sets[..|sets| - 1]) + |sets[|sets| - 1]|
  }

  lemma {:induction false} SumSizesUpdate(sets: seq<set<int>>, n: nat, s: set<int>)
    requires n < |sets|
    ensures SumSizes(sets[n := s]) == SumSizes(sets) - |sets[n]| + |s|
  {
    var last := |sets| - 1;
    if n == last {
      assert sets[n := s][..last] == sets[..last];
    } else {
      SumSizesUpdate(sets[..last], n, s);
      assert sets[n := s][..last] == sets[..last][n := s];
    }
  }

  lemma {:induction false} TotalCardinality(bases: seq<int>, sets: seq<set<int>>)
    requires |bases| == |sets| && Separate(bases, sets)
    ensures |Total(bases, sets)| == SumSizes(sets)
  {
    if bases != [] {
      var n := |bases| - 1;
      TotalCardinality(bases[..n], sets[..n]);
      ShiftCardinality(bases[n], sets[n]);
      forall v | v in Total(bases[..n], sets[..n]) ensures v !in Shift(bases[n], sets[n]) {
        TotalMember(bases[..n], sets[..n], v);
        ShiftMember(bases[n], sets[n], v);
        var i :| 0 <= i < n && v - bases[..n][i] in sets[..n][i];
        assert bases[..n][i] == bases[i] && sets[..n][i] == sets[i];
      }
      var low, high := Total(bases[..n], sets[..n]), Shift(bases[n], sets[n]);
      assert low !! high;
    }
  }

  lemma EmptyTotal(bases: seq<int>, sets: seq<set<int>>)
    requires |bases| == |sets| == 0
    ensures Total(bases, sets) == {}
  {
  }

  // ----- stable sorting by key

  predicate SortedByKey<T>(q: seq<(int, T)>) {
    forall i, j :: 0 <= i < j < |q| ==> q[i].0 <= q[j].0
  }

  /** Inserts `x` before the first element whose key is not smaller. */
  function InsertByKey<T>(q: seq<(int, T)>, x: (int, T)): (r: seq<(int, T)>)
    ensures multiset(r) == multiset(q) + multiset{x}
  {
    if q == [] then [x]
    else if x.0 <= q[0].0 then [x] + q
    else
      assert q == [q[0]] + q[1..];
      [q[0]] + InsertByKey(q[1..], x)
  }

  /** The library's stable sort by key. */
  function StableSort<T>(q: seq<(int, T)>): (r: seq<(int, T)>)
    ensures multiset(r) == multiset(q)
  {
    if q == [] then []
    else
      assert q == [q[0]] + q[1..];
      InsertByKey(StableSort(q[1..]), q[0])
  }

  lemma InsertMember<T>(q: seq<(int, T)>, x: (int, T), v: (int, T))
    ensures v in InsertByKey(q, x) <==> v == x || v in q
  {
    assert v in InsertByKey(q, x) <==> v in multiset(InsertByKey(q, x));
    assert v in q <==> v in multiset(q);
  }

  lemma StableSortMember<T>(q: seq<(int, T)>, v: (int, T))
    ensures v in StableSort(q) <==> v in q
  {
    assert v in StableSort(q) <==> v in multiset(StableSort(q));
    assert v in q <==> v in multiset(q);
  }

  lemma SortedCons<T>(x: (int, T), q: seq<(int, T)>)
    requires SortedByKey(q) && forall k :: 0 <= k < |q| ==> x.0 <= q[k].0
    ensures SortedByKey([x] + q)
  {
    var r := [x] + q;
    forall i, j | 0 <= i < j < |r| ensures r[i].0 <= r[j].0 {
      assert r[j] == q[j - 1] && q[j - 1] in q;
      assert i > 0 ==> r[i] == q[i - 1];
    }
  }

  lemma SortedTail<T>(q: seq<(int, T)>)
    requires SortedByKey(q) && q != []
    ensures SortedByKey(q[1..])
    ensures forall k :: 0 <= k < |q[1..]| ==> q[0].0 <= q[1..][k].0
  {
  }

  lemma {:induction false} InsertSorted<T>(q: seq<(int, T)>, x: (int, T))
    requires SortedByKey(q)
    ensures SortedByKey(InsertByKey(q, x))
  {
    if q == [] {
    } else if x.0 <= q[0].0 {
      SortedTail(q);
      assert q == [q[0]] + q[1..];
      SortedCons(x, q);
    } else {
      SortedTail(q);
      InsertSorted(q[1..], x);
      var r := InsertByKey(q[1..], x);
      forall k | 0 <= k < |r| ensures q[0].0 <= r[k].0 {
        InsertMember(q[1..], x, r[k]);
      }
      SortedCons(q[0], r);
    }
  }

  lemma {:induction false} StableSortSorts<T>(q: seq<(int, T)>)
    ensures SortedByKey(StableSort(q))
  {
    if q != [] {
      StableSortSorts(q[1..]);
      InsertSorted(StableSort(q[1..]), q[0]);
    }
  }

  /** Among slots with one key, only the first may be outside `quiet`. */
  ghost predicate FirstOnly<T>(q: seq<(int, T)>, quiet: iset<T>) {
    forall i, j :: 0 <= i < j < |q| && q[i].0 == q[j].0 ==> q[j].1 in quiet
  }

  lemma FirstOnlyCons<T>(x: (int, T), q: seq<(int, T)>, quiet: iset<T>)
    requires FirstOnly(q, quiet)
    requires forall k :: 0 <= k < |q| && q[k].0 == x.0 ==> q[k].1 in quiet
    ensures FirstOnly([x] + q, quiet)
  {
    var r := [x] + q;
    forall i, j | 0 <= i < j < |r| && r[i].0 == r[j].0 ensures r[j].1 in quiet {
      assert r[j] == q[j - 1] && q[j - 1] in q;
      assert i > 0 ==> r[i] == q[i - 1];
    }
  }

  lemma FirstOnlyTail<T>(q: seq<(int, T)>, quiet: iset<T>)
    requires FirstOnly(q, quiet) && q != []
    ensures FirstOnly(q[1..], quiet)
    ensures forall k :: 0 <= k < |q[1..]| && q[1..][k].0 == q[0].0 ==> q[1..][k].1 in quiet
  {
    var t := q[1..];
    forall i, j | 0 <= i < j < |t| && t[i].0 == t[j].0 ensures t[j].1 in quiet {
      assert t[i] == q[i + 1] && t[j] == q[j + 1];
    }
    forall k | 0 <= k < |t| && t[k].0 == q[0].0 ensures t[k].1 in quiet {
      assert t[k] == q[k + 1];
    }
  }

  lemma {:induction false} InsertKeepsFirst<T>(q: seq<(int, T)>, x: (int, T), quiet: iset<T>)
    requires FirstOnly(q, quiet)
    requires forall k :: 0 <= k < |q| && q[k].0 == x.0 ==> q[k].1 in quiet
    ensures FirstOnly(InsertByKey(q, x), quiet)
  {
    if q == [] {
    } else if x.0 <= q[0].0 {
      FirstOnlyCons(x, q, quiet);
    } else {
      FirstOnlyTail(q, quiet);
      assert q == [q[0]] + q[1..];
      InsertKeepsFirst(q[1..], x, quiet);
      var r := InsertByKey(q[1..], x);
      forall k | 0 <= k < |r| && r[k].0 == q[0].0 ensures r[k].1 in quiet {
        InsertMember(q[1..], x, r[k]);
      }
      FirstOnlyCons(q[0], r, quiet);
    }
  }

  /** Stability: the first slot of each key stays first. */
  lemma {:induction false} StableSortKeepsFirst<T>(q: seq<(int, T)>, quiet: iset<T>)
    requires FirstOnly(q, quiet)
    ensures FirstOnly(StableSort(q), quiet)
  {
    if q != [] {
      FirstOnlyTail(q, quiet);
      StableSortKeepsFirst(q[1..], quiet);
      var r := StableSort(q[1..]);
      forall k | 0 <= k < |r| && r[k].0 == q[0].0 ensures r[k].1 in quiet {
        StableSortMember(q[1..], r[k]);
      }
      InsertKeepsFirst(r, q[0], quiet);
    }
  }
}
