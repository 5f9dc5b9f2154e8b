/** Splitting files into parts, checking a list of parts, and rebuilding files from it. */
module BackupRestore {
  import opened Octets
  import opened Options
  import opened BackupParts
  import PathClean
  import PathPlace

  const MAX_PART_SIZE := 0x4000_0000

  // ----- splitting

  /** The parts of one file, in order, without gaps or overlaps, all but the last of the greatest size. */
  ghost predicate Tiles(ps: seq<Part>, path: string, fileSize: nat) {
    && ps != [] && ps[0].offset == 0 && ps[|ps| - 1].offset + ps[|ps| - 1].size == fileSize
    && (forall k :: 0 <= k < |ps| - 1 ==> ps[k + 1].offset == ps[k].offset + ps[k].size)
    && (forall k :: 0 <= k < |ps| ==> PartOfFile(ps[k], path, fileSize))
    && (forall k :: 0 <= k < |ps| - 1 ==> ps[k].size == MAX_PART_SIZE)
    && (|ps| > 1 ==> ps[|ps| - 1].size > 0)
  }

  predicate PartOfFile(p: Part, path: string, fileSize: nat) {
    p.path == path && p.fileSize == fileSize && p.actualSize == p.size <= MAX_PART_SIZE
  }

  /** Parts that tile the file up to `offset`. */
  ghost predicate Tiled(ps: seq<Part>, path: string, fileSize: nat, offset: nat) {
    && ps != [] && ps[0].offset == 0 && ps[|ps| - 1].offset + ps[|ps| - 1].size == offset
    && (forall k :: 0 <= k < |ps| - 1 ==> ps[k + 1].offset == ps[k].offset + ps[k].size)
    && (forall k :: 0 <= k < |ps| ==> PartOfFile(ps[k], path, fileSize) && ps[k].size == MAX_PART_SIZE)
  }

  lemma TileNext(ps: seq<Part>, path: string, fileSize: nat, offset: nat, n: nat)
    requires ps == [] <==> offset == 0
    requires ps != [] ==> Tiled(ps, path, fileSize, offset)
    requires n <= MAX_PART_SIZE && (n == 0 ==> fileSize == offset == 0)
    ensures var next := ps + [Part(path, fileSize, offset, n, n)];
            && (n == MAX_PART_SIZE ==> Tiled(next, path, fileSize, offset + n))
            && (offset + n == fileSize ==> Tiles(next, path, fileSize))
  {
    var next := ps + [Part(path, fileSize, offset, n, n)];
    assert forall k :: 0 <= k < |ps| ==> next[k] == ps[k];
  }

  /** `split_into_parts`. */
  method SplitIntoParts(path: string, fileSize: nat) returns (ps: seq<Part>)
    ensures Tiles(ps, path, fileSize)
  {
    ps := [];
    var offset := 0;
    while true
      invariant offset < fileSize || offset == 0
      invariant ps == [] <==> offset == 0
      invariant ps != [] ==> Tiled(ps, path, fileSize, offset)
      decreases fileSize - offset
    {
      var n := if fileSize - offset < MAX_PART_SIZE then fileSize - offset else MAX_PART_SIZE;
      TileNext(ps, path, fileSize, offset, n);
      hide Tiled, Tiles;
      ps := ps + [Part(path, fileSize, offset, n, n)];
      offset := offset + n;
      if offset >= fileSize {
        return;
      }
    }
  }

  // ----- the order of parts

  predicate PathLess(a: string, b: string) {
    if b == "" then false
    else if a == "" then true
    else if a[0] != b[0] then a[0] < b[0]
    else PathLess(a[1..], b[1..])
  }

  lemma {:induction false} PathLessTotal(a: string, b: string)
    ensures PathLess(a, b) || PathLess(b, a) || a == b
    ensures !(PathLess(a, b) && PathLess(b, a)) && !PathLess(a, a)
    decreases |a|
  {
    if a != "" {
      PathLessTotal(a[1..], a[1..]);
      if b != "" && a[0] == b[0] {
        PathLessTotal(a[1..], b[1..]);
        assert a == [a[0]] + a[1..] && b == [b[0]] + b[1..];
      }
    }
  }

  lemma {:induction false} PathLessTransitive(a: string, b: string, c: string)
    requires PathLess(a, b) && PathLess(b, c)
    ensures PathLess(a, c)
    decreases |a|
  {
    if a != "" && a[0] == b[0] && b[0] == c[0] {
      PathLessTransitive(a[1..], b[1..], c[1..]);
    }
  }

  /** The sorting order: by path, then by offset. */
  predicate Before(p: Part, q: Part) {
    PathLess(p.path, q.path) || (p.path == q.path && p.offset < q.offset)
  }

  lemma BeforeOrder(p: Part, q: Part, r: Part)
    ensures Before(p, q) || Before(q, p) || (p.path == q.path && p.offset == q.offset)
    ensures !(Before(p, q) && Before(q, p)) && !Before(p, p)
    ensures Before(p, q) && Before(q, r) ==> Before(p, r)
    ensures !Before(q, p) && !Before(r, q) ==> !Before(r, p)
  {
    PathLessTotal(p.path, q.path);
    PathLessTotal(p.path, p.path);
    PathLessTotal(q.path, r.path);
    PathLessTotal(p.path, r.path);
    if PathLess(p.path, q.path) && PathLess(q.path, r.path) {
      PathLessTransitive(p.path, q.path, r.path);
    }
    if PathLess(r.path, p.path) && PathLess(p.path, q.path) {
      PathLessTransitive(r.path, p.path, q.path);
    }
    if PathLess(q.path, r.path) && PathLess(r.path, p.path) {
      PathLessTransitive(q.path, r.path, p.path);
    }
  }

  ghost predicate Sorted(ps: seq<Part>) {
    forall i, j :: 0 <= i < j < |ps| ==> !Before(ps[j], ps[i])
  }

  ghost predicate StrictlySorted(ps: seq<Part>) {
    forall i, j :: 0 <= i < j < |ps| ==> Before(ps[i], ps[j])
  }

  function InsertPart(ps: seq<Part>, p: Part): (r: seq<Part>)
    ensures |r| == |ps| + 1 && multiset(r) == multiset(ps) + multiset{p}
  {
    if ps == [] || !Before(ps[0], p) then [p] + ps
    else
      assert ps == [ps[0]] + ps[1..];
      [ps[0]] + InsertPart(ps[1..], p)
  }

  /** The stable sort of a list of parts. */
  function SortParts(ps: seq<Part>): (r: seq<Part>)
    ensures |r| == |ps| && multiset(r) == multiset(ps)
  {
    if ps == [] then []
    else
      assert ps == [ps[0]] + ps[1..];
      InsertPart(SortParts(ps[1..]), ps[0])
  }

  lemma InsertHead(ps: seq<Part>, p: Part)
    ensures InsertPart(ps, p)[0] == p || (ps != [] && InsertPart(ps, p)[0] == ps[0])
  {
  }

  lemma SortedCons(x: Part, q: seq<Part>)
    requires Sorted(q) && (q != [] ==> !Before(q[0], x))
    ensures Sorted([x] + q)
  {
    var s := [x] + q;
    forall i, j | 0 <= i < j < |s| ensures !Before(s[j], s[i]) {
      if i == 0 && j > 1 {
        assert !Before(q[j - 1], q[0]);
        BeforeOrder(x, q[0], q[j - 1]);
      }
    }
  }

  lemma SortedTail(q: seq<Part>)
    requires Sorted(q) && q != []
    ensures Sorted(q[1..])
  {
  }

  lemma {:induction false} InsertSorted(ps: seq<Part>, p: Part)
    requires Sorted(ps)
    ensures Sorted(InsertPart(ps, p))
  {
    if ps == [] || !Before(ps[0], p) {
      SortedCons(p, ps);
    } else {
      SortedTail(ps);
      InsertSorted(ps[1..], p);
      InsertHead(ps[1..], p);
      var rest := InsertPart(ps[1..], p);
      BeforeOrder(ps[0], p, p);
      SortedCons(ps[0], rest);
    }
  }

  lemma {:induction false} SortSorts(ps: seq<Part>)
    ensures Sorted(SortParts(ps))
  {
    if ps != [] {
      SortSorts(ps[1..]);
      InsertSorted(SortParts(ps[1..]), ps[0]);
    }
  }

  lemma IndexOf(q: seq<Part>, x: Part) returns (i: nat)
    requires x in multiset(q)
    ensures i < |q| && q[i] == x
  {
    assert x in q;
    i :| i < |q| && q[i] == x;
  }

  lemma SameHead(p: seq<Part>, q: seq<Part>)
    requires Sorted(p) && StrictlySorted(q) && multiset(p) == multiset(q) && p != [] && q != []
    ensures p[0] == q[0]
  {
    var i := IndexOf(p, q[0]);
    var j := IndexOf(q, p[0]);
  }

  lemma TailMultiset(q: seq<Part>)
    requires q != []
    ensures multiset(q) == multiset{q[0]} + multiset(q[1..])
  {
    assert q == [q[0]] + q[1..];
  }

  lemma SameTails(p: seq<Part>, q: seq<Part>)
    requires p != [] && q != [] && p[0] == q[0] && multiset(p) == multiset(q)
    ensures multiset(p[1..]) == multiset(q[1..])
  {
    TailMultiset(p);
    TailMultiset(q);
    assert multiset(p[1..]) == multiset(p) - multiset{p[0]};
    assert multiset(q[1..]) == multiset(q) - multiset{q[0]};
  }

  /** A strictly sorted list is the only sorted list of its parts. */
  lemma {:induction false} SortedUnique(p: seq<Part>, q: seq<Part>)
    requires Sorted(p) && StrictlySorted(q) && multiset(p) == multiset(q)
    ensures p == q
    decreases |p|
  {
    hide Before, Sorted, StrictlySorted;
    assert |p| == |multiset(p)| && |q| == |multiset(q)|;
    if p != [] {
      SameHead(p, q);
      SameTails(p, q);
      SortedTail(p);
      StrictTail(q);
      SortedUnique(p[1..], q[1..]);
      assert p == [p[0]] + p[1..] && q == [q[0]] + q[1..];
    }
  }

  lemma StrictTail(q: seq<Part>)
    requires StrictlySorted(q) && q != []
    ensures StrictlySorted(q[1..])
  {
  }

  // ----- validation

  /** A path that stays inside the restore directory. */
  ghost predicate PathOk(path: string) {
    && path != "" && path[0] != '/'
    && forall k :: 0 <= k < |PathClean.Split(path, 0)| ==> ComponentOk(PathClean.Split(path, 0)[k])
  }

  predicate ComponentOk(c: string) {
    c != "" && c != "." && c != ".."
  }

  /**
   * A path is accepted exactly when, from any directory, every component leads one further down: the file is
   * below the restore directory, and under the names the path gives.
   */
  lemma PathStaysInside(path: string)
    ensures PathOk(path) <==>
      forall at: seq<string> :: PathPlace.Where(at, PathClean.Split(path, 0)) == at + PathClean.Split(path, 0)
  {
    hide PathPlace.Where, PathClean.Split;
    var cs := PathClean.Split(path, 0);
    SplitStart(path);
    assert (forall k :: 0 <= k < |cs| ==> PathPlace.GoesDown(cs[k])) <==> (forall k :: 0 <= k < |cs| ==> ComponentOk(cs[k]));
    if PathOk(path) {
      forall at: seq<string> ensures PathPlace.Where(at, cs) == at + cs {
        PathPlace.OnlyDown(at, cs);
      }
    } else {
      PathPlace.OnlyDown([], cs);
      assert PathPlace.Where([], cs) != [] + cs;
    }
  }

  lemma SplitStart(path: string)
    ensures path == "" || path[0] == '/' ==> PathClean.Split(path, 0)[0] == ""
  {
    assert path == "" ==> path[0..] == "";
  }

  /** Whether the k-th part of a sorted list starts its file. */
  predicate Starts(q: seq<Part>, k: nat)
    requires k < |q|
  {
    k == 0 || q[k - 1].path != q[k].path
  }

  predicate Ends(q: seq<Part>, k: nat)
    requires k < |q|
  {
    k == |q| - 1 || q[k + 1].path != q[k].path
  }

  /** One part in its place: at the start of its file, or right after the part before it. */
  predicate InPlace(q: seq<Part>, k: nat)
    requires k < |q|
  {
    && q[k].size == q[k].actualSize
    && (if Starts(q, k) then q[k].offset == 0
        else q[k].offset == q[k - 1].offset + q[k - 1].size && q[k].fileSize == q[k - 1].fileSize)
    && (Ends(q, k) ==> q[k].offset + q[k].size == q[k].fileSize)
  }

  /** The files of a sorted list are whole up to the n-th part. */
  ghost predicate ChainedTo(q: seq<Part>, n: nat) {
    n <= |q| && forall k :: 0 <= k < n ==> InPlace(q, k)
  }

  ghost predicate Accepted(ps: seq<Part>) {
    (forall k :: 0 <= k < |ps| ==> PathOk(ps[k].path)) && ChainedTo(SortParts(ps), |ps|)
  }

  method CheckPath(path: string) returns (ok: bool)
    ensures ok == PathOk(path)
  {
    if path == "" || path[0] == '/' {
      return false;
    }
    var cs := PathClean.Split(path, 0);
    var i := 0;
    while i < |cs|
      invariant 0 <= i <= |cs| && forall k :: 0 <= k < i ==> ComponentOk(cs[k])
    {
      if !ComponentOk(cs[i]) {
        return false;
      }
      i := i + 1;
    }
    return true;
  }

  /** `validate_parts`; the sorted list is what the slice holds afterwards. */
  method ValidateParts(ps: seq<Part>) returns (ok: bool, q: seq<Part>)
    ensures ok == Accepted(ps) && (ok ==> q == SortParts(ps))
  {
    q := ps;
    var n := 0;
    while n < |ps|
      invariant 0 <= n <= |ps| && forall k :: 0 <= k < n ==> PathOk(ps[k].path)
    {
      ok := CheckPath(ps[n].path);
      if !ok {
        return;
      }
      n := n + 1;
    }
    q := SortParts(ps);
    ok := CheckChains(q);
  }

  method CheckChains(q: seq<Part>) returns (ok: bool)
    ensures ok == ChainedTo(q, |q|)
  {
    var i := 0;
    while i < |q|
      invariant 0 <= i <= |q| && ChainedTo(q, i) && (i < |q| ==> Starts(q, i))
      decreases |q| - i
    {
      var path, fileSize := q[i].path, q[i].fileSize;
      var expected := 0;
      var j := i;
      while j < |q| && q[j].path == path
        invariant i <= j <= |q| && ChainedTo(q, i)
        invariant forall k :: i <= k < j ==> q[k].path == path && q[k].fileSize == fileSize && q[k].size == q[k].actualSize
        invariant forall k :: i < k < j ==> q[k].offset == q[k - 1].offset + q[k - 1].size
        invariant j > i ==> q[i].offset == 0
        invariant expected == if j == i then 0 else q[j - 1].offset + q[j - 1].size
      {
        if q[j].offset != expected || q[j].size != q[j].actualSize || q[j].fileSize != fileSize {
          assert !InPlace(q, j);
          return false;
        }
        expected := expected + q[j].size;
        j := j + 1;
      }
      if expected != fileSize {
        assert Ends(q, j - 1) && !InPlace(q, j - 1);
        return false;
      }
      forall k | i <= k < j ensures InPlace(q, k) {
        if k > i {
          assert q[k - 1].path == path;
        }
        if k < j - 1 {
          assert q[k + 1].path == path;
        }
      }
      i := j;
    }
    return true;
  }

  // ----- what an accepted list covers

  predicate Covers(p: Part, path: string, b: nat) {
    p.path == path && p.offset <= b < p.offset + p.size
  }

  /** How many parts hold byte `b` of the file. */
  function Count(ps: seq<Part>, path: string, b: nat): nat {
    if ps == [] then 0 else (if Covers(ps[0], path, b) then 1 else 0) + Count(ps[1..], path, b)
  }

  lemma {:induction false} InsertCount(ps: seq<Part>, p: Part, path: string, b: nat)
    ensures Count(InsertPart(ps, p), path, b) == Count(ps, path, b) + if Covers(p, path, b) then 1 else 0
  {
    if ps == [] || !Before(ps[0], p) {
      assert ([p] + ps)[1..] == ps;
    } else {
      InsertCount(ps[1..], p, path, b);
      assert ([ps[0]] + InsertPart(ps[1..], p))[1..] == InsertPart(ps[1..], p);
    }
  }

  lemma {:induction false} SortCount(ps: seq<Part>, path: string, b: nat)
    ensures Count(SortParts(ps), path, b) == Count(ps, path, b)
  {
    if ps != [] {
      SortCount(ps[1..], path, b);
      InsertCount(SortParts(ps[1..]), ps[0], path, b);
    }
  }

  lemma CountStep(q: seq<Part>, i: nat, path: string, b: nat)
    requires i < |q|
    ensures Count(q[i..], path, b) == (if Covers(q[i], path, b) then 1 else 0) + Count(q[i + 1..], path, b)
  {
    assert q[i..][1..] == q[i + 1..];
  }

  /** Parts of other files do not count. */
  lemma {:induction false} CountOthers(q: seq<Part>, i: nat, j: nat, path: string, b: nat)
    requires i <= j <= |q| && forall k :: i <= k < j ==> q[k].path != path
    ensures Count(q[i..], path, b) == Count(q[j..], path, b)
    decreases j - i
  {
    if i < j {
      CountStep(q, i, path, b);
      CountOthers(q, i + 1, j, path, b);
    }
  }

  /** Parts of one file stand together in a sorted list. */
  lemma PathsTogether(q: seq<Part>, i: nat, k: nat, j: nat)
    requires Sorted(q) && i <= k <= j < |q| && q[i].path == q[j].path
    ensures q[k].path == q[i].path
  {
    if i < k < j {
      assert !Before(q[k], q[i]) && !Before(q[j], q[k]);
      PathLessTotal(q[i].path, q[k].path);
    }
  }

  /** The parts of a whole file agree on its size and stay within it. */
  lemma {:induction false} WithinFile(q: seq<Part>, i: nat, j: nat)
    requires Sorted(q) && ChainedTo(q, |q|) && i <= j < |q| && q[i].path == q[j].path
    ensures q[i].fileSize == q[j].fileSize && q[i].offset + q[i].size <= q[i].fileSize
    ensures i < j ==> q[i].offset + q[i].size <= q[j].offset
    decreases |q| - i, j - i
  {
    assert InPlace(q, i);
    if i < j {
      PathsTogether(q, i, i + 1, j);
      assert InPlace(q, i + 1);
      WithinFile(q, i + 1, j);
    } else if !Ends(q, i) {
      assert InPlace(q, i + 1);
      WithinFile(q, i + 1, i + 1);
    }
  }

  /** From a part on, a file covers each byte from its offset to the end once. */
  lemma {:induction false} CountFile(q: seq<Part>, i: nat, b: nat)
    requires Sorted(q) && ChainedTo(q, |q|) && i < |q|
    ensures Count(q[i..], q[i].path, b) == if q[i].offset <= b < q[i].fileSize then 1 else 0
    decreases |q| - i
  {
    var path := q[i].path;
    assert InPlace(q, i);
    CountStep(q, i, path, b);
    WithinFile(q, i, i);
    if Ends(q, i) {
      forall k | i + 1 <= k < |q| ensures q[k].path != path {
        if q[k].path == path {
          PathsTogether(q, i, i + 1, k);
        }
      }
      CountOthers(q, i + 1, |q|, path, b);
      assert q[|q|..] == [];
    } else {
      assert InPlace(q, i + 1);
      CountFile(q, i + 1, b);
    }
  }

  lemma FirstOfFile(q: seq<Part>, j: nat) returns (i: nat)
    requires j < |q|
    ensures i <= j && q[i].path == q[j].path && forall k :: 0 <= k < i ==> q[k].path != q[j].path
  {
    i := j;
    var k: nat := j;
    while k > 0
      invariant k <= i <= j && q[i].path == q[j].path
      invariant forall m :: k <= m < i ==> q[m].path != q[j].path
    {
      k := k - 1;
      if q[k].path == q[j].path {
        i := k;
      }
    }
  }

  /** In an accepted list every byte of every file is held by exactly one part, and no part reaches beyond its file. */
  lemma AcceptedCovers(ps: seq<Part>, k: nat, b: nat)
    requires Accepted(ps) && k < |ps|
    ensures Count(ps, ps[k].path, b) == if b < ps[k].fileSize then 1 else 0
    ensures ps[k].size == ps[k].actualSize && ps[k].offset + ps[k].size <= ps[k].fileSize
  {
    var q := SortParts(ps);
    SortSorts(ps);
    assert ps[k] in multiset(q);
    var j := IndexOf(q, ps[k]);
    assert InPlace(q, j);
    WithinFile(q, j, j);
    var i := FirstOfFile(q, j);
    WithinFile(q, i, j);
    assert InPlace(q, i);
    CountFile(q, i, b);
    CountOthers(q, 0, i, q[j].path, b);
    assert q[0..] == q;
    SortCount(ps, q[j].path, b);
  }

  // ----- what is accepted

  /** Files to back up, in the order of their paths. */
  datatype File = File(path: string, content: Bytes)

  ghost predicate Files(fs: seq<File>) {
    && (forall k :: 0 <= k < |fs| ==> PathOk(fs[k].path))
    && (forall i, j :: 0 <= i < j < |fs| ==> PathLess(fs[i].path, fs[j].path))
  }

  /** `q` lists the parts of the files, one file after another. */
  ghost predicate PartsOfFiles(q: seq<Part>, fs: seq<File>)
    decreases |fs|
  {
    if fs == [] then q == []
    else
      exists n: nat :: n <= |q| && Tiles(q[n..], fs[|fs| - 1].path, |fs[|fs| - 1].content|) && PartsOfFiles(q[..n], fs[..|fs| - 1])
  }

  lemma {:induction false} TilesGrow(ps: seq<Part>, path: string, fileSize: nat, i: nat, j: nat)
    requires Tiles(ps, path, fileSize) && i < j < |ps|
    ensures ps[i].offset < ps[j].offset
    decreases j - i
  {
    assert ps[i + 1].offset == ps[i].offset + ps[i].size;
    if i + 1 < j {
      TilesGrow(ps, path, fileSize, i + 1, j);
    }
  }

  ghost predicate OfFiles(q: seq<Part>, fs: seq<File>) {
    forall k :: 0 <= k < |q| ==> OfFile(q[k], fs)
  }

  ghost predicate OfFile(p: Part, fs: seq<File>) {
    exists n :: 0 <= n < |fs| && fs[n].path == p.path
  }

  /** One more file after the others keeps the list sorted and its files whole. */
  lemma OneMoreFile(a: seq<Part>, t: seq<Part>, path: string, fileSize: nat)
    requires StrictlySorted(a) && ChainedTo(a, |a|) && Tiles(t, path, fileSize)
    requires forall k :: 0 <= k < |a| ==> PathLess(a[k].path, path)
    ensures StrictlySorted(a + t) && ChainedTo(a + t, |a + t|)
  {
    var q := a + t;
    forall i, j | 0 <= i < j < |q| ensures Before(q[i], q[j]) {
      if j >= |a| {
        assert PartOfFile(t[j - |a|], path, fileSize);
        if i >= |a| {
          assert PartOfFile(t[i - |a|], path, fileSize);
          TilesGrow(t, path, fileSize, i - |a|, j - |a|);
        }
      }
    }
    PathLessTotal(path, path);
    forall k | 0 <= k < |q| ensures InPlace(q, k) {
      if k < |a| {
        assert InPlace(a, k);
        if k == |a| - 1 {
          assert PartOfFile(t[0], path, fileSize);
        }
      } else {
        assert PartOfFile(t[k - |a|], path, fileSize);
        if k > |a| {
          assert PartOfFile(t[k - |a| - 1], path, fileSize);
        }
        if k < |q| - 1 {
          assert PartOfFile(t[k - |a| + 1], path, fileSize);
        }
      }
    }
  }

  lemma OfFilesBefore(a: seq<Part>, fs: seq<File>)
    requires fs != [] && Files(fs) && OfFiles(a, fs[..|fs| - 1])
    ensures forall k :: 0 <= k < |a| ==> PathLess(a[k].path, fs[|fs| - 1].path)
  {
    var front := fs[..|fs| - 1];
    forall k | 0 <= k < |a| ensures PathLess(a[k].path, fs[|fs| - 1].path) {
      assert OfFile(a[k], front);
      var m :| 0 <= m < |front| && front[m].path == a[k].path;
      assert fs[m] == front[m];
    }
  }

  lemma OfFilesMore(a: seq<Part>, t: seq<Part>, fs: seq<File>)
    requires fs != [] && OfFiles(a, fs[..|fs| - 1]) && Tiles(t, fs[|fs| - 1].path, |fs[|fs| - 1].content|)
    ensures OfFiles(a + t, fs)
  {
    var q, front, f := a + t, fs[..|fs| - 1], fs[|fs| - 1];
    forall k | 0 <= k < |q| ensures OfFile(q[k], fs) {
      if k < |a| {
        assert OfFile(a[k], front);
        var m :| 0 <= m < |front| && front[m].path == a[k].path;
        assert fs[m].path == q[k].path;
      } else {
        assert PartOfFile(t[k - |a|], f.path, |f.content|);
        assert fs[|fs| - 1].path == q[k].path;
      }
    }
  }

  lemma LastFile(q: seq<Part>, fs: seq<File>) returns (n: nat)
    requires fs != [] && PartsOfFiles(q, fs)
    ensures n <= |q| && Tiles(q[n..], fs[|fs| - 1].path, |fs[|fs| - 1].content|) && PartsOfFiles(q[..n], fs[..|fs| - 1])
  {
    hide Tiles;
    n :| n <= |q| && Tiles(q[n..], fs[|fs| - 1].path, |fs[|fs| - 1].content|) && PartsOfFiles(q[..n], fs[..|fs| - 1]);
  }

  lemma {:induction false} PartsOfFilesGood(q: seq<Part>, fs: seq<File>)
    requires Files(fs) && PartsOfFiles(q, fs)
    ensures StrictlySorted(q) && ChainedTo(q, |q|) && OfFiles(q, fs)
    decreases |fs|
  {
    if fs != [] {
      var f, front := fs[|fs| - 1], fs[..|fs| - 1];
      assert Files(front);
      hide Files, StrictlySorted, ChainedTo, OfFiles, Tiles;
      var n := LastFile(q, fs);
      hide PartsOfFiles;
      var a, t := q[..n], q[n..];
      PartsOfFilesGood(a, front);
      OfFilesBefore(a, fs);
      OneMoreFile(a, t, f.path, |f.content|);
      OfFilesMore(a, t, fs);
      assert q == a + t;
    }
  }

  /** The parts of any files are accepted, in whatever order they are listed. */
  lemma FilesAccepted(fs: seq<File>, q: seq<Part>, ps: seq<Part>)
    requires Files(fs) && PartsOfFiles(q, fs) && multiset(ps) == multiset(q)
    ensures Accepted(ps) && SortParts(ps) == q
  {
    PartsOfFilesGood(q, fs);
    SortSorts(ps);
    SortedUnique(SortParts(ps), q);
    forall k | 0 <= k < |ps| ensures PathOk(ps[k].path) {
      assert ps[k] in multiset(q);
      var j := IndexOf(q, ps[k]);
      var m :| 0 <= m < |fs| && fs[m].path == q[j].path;
    }
    assert |ps| == |multiset(ps)| == |q|;
  }

  /** The listing of files, each split into its parts. */
  lemma AddFile(q: seq<Part>, t: seq<Part>, fs: seq<File>, i: nat)
    requires i < |fs| && PartsOfFiles(q, fs[..i]) && Tiles(t, fs[i].path, |fs[i].content|)
    ensures PartsOfFiles(q + t, fs[..i + 1])
  {
    hide Tiles;
    var all, more := q + t, fs[..i + 1];
    assert all[|q|..] == t && all[..|q|] == q;
    assert more[..|more| - 1] == fs[..i] && more[|more| - 1] == fs[i];
  }

  method ListFiles(fs: seq<File>) returns (q: seq<Part>)
    ensures PartsOfFiles(q, fs)
  {
    q := [];
    var i := 0;
    while i < |fs|
      invariant 0 <= i <= |fs| && PartsOfFiles(q, fs[..i])
    {
      var t := SplitIntoParts(fs[i].path, |fs[i].content|);
      AddFile(q, t, fs, i);
      q := q + t;
      i := i + 1;
    }
    assert fs[..i] == fs;
  }

  /** Any sequence of exchanges: every order of the list is one. */
  method Shuffle(q: seq<Part>, swaps: seq<(nat, nat)>) returns (ps: seq<Part>)
    ensures multiset(ps) == multiset(q)
  {
    ps := q;
    var i := 0;
    while i < |swaps|
      invariant 0 <= i <= |swaps| && multiset(ps) == multiset(q)
    {
      var (x, y) := swaps[i];
      if x < |ps| && y < |ps| {
        ps := ps[x := ps[y]][y := ps[x]];
      }
      i := i + 1;
    }
  }

  /** Files listed, their parts exchanged in any way, and validated: accepted, and sorted back. */
  method ListAndValidate(fs: seq<File>, swaps: seq<(nat, nat)>) returns (ok: bool, q: seq<Part>)
    requires Files(fs)
    ensures ok && PartsOfFiles(q, fs)
  {
    hide Files, PartsOfFiles, Accepted;
    var listed := ListFiles(fs);
    var ps := Shuffle(listed, swaps);
    FilesAccepted(fs, listed, ps);
    ok, q := ValidateParts(ps);
  }

  // ----- rebuilding

  function Resize(f: Bytes, n: nat): (g: Bytes)
    ensures |g| == n && (|f| == n ==> g == f)
  {
    if n <= |f| then f[..n] else f + seq(n - |f|, _ => 0)
  }

  predicate FitsFile(p: Part) {
    p.offset + p.size <= p.fileSize
  }

  /** The file after a part is written over it. */
  function Written(f: Bytes, p: Part, data: Bytes): (g: Bytes)
    requires FitsFile(p) && |data| <= p.size
    ensures |g| == p.fileSize
  {
    var r := Resize(f, p.fileSize);
    r[..p.offset] + data + r[p.offset + |data|..]
  }

  /** `write_part_at`: nothing for a part that exceeds its file, and an error when the data is short. */
  method WritePartAt(file: Option<Bytes>, p: Part, data: Bytes) returns (out: Option<Bytes>, ok: bool)
    ensures ok <==> FitsFile(p) && |data| >= p.size
    ensures !FitsFile(p) ==> out == file
    ensures FitsFile(p) ==> out == Some(Written(if file.Some? then file.value else [], p, if |data| < p.size then data else data[..p.size]))
  {
    out := file;
    if p.offset + p.size > p.fileSize {
      return out, false;
    }
    var f := if file.Some? then file.value else [];
    if |f| != p.fileSize {
      f := Resize(f, p.fileSize);
    }
    var copied := if |data| < p.size then data else data[..p.size];
    f := f[..p.offset] + copied + f[p.offset + |copied|..];
    return Some(f), |copied| == p.size;
  }

  /** The parts of one file with the bytes the content has there. */
  function DataOf(p: Part, content: Bytes): Bytes
    requires p.offset + p.size <= |content|
  {
    content[p.offset..p.offset + p.size]
  }

  ghost predicate PartsOf(ps: seq<Part>, content: Bytes) {
    forall k :: 0 <= k < |ps| ==> ps[k].fileSize == |content| && FitsFile(ps[k])
  }

  /** The file after all parts are written, one after another. */
  function Rebuilt(old0: Bytes, ps: seq<Part>, content: Bytes): (f: Bytes)
    requires PartsOf(ps, content)
    ensures ps != [] ==> |f| == |content|
  {
    if ps == [] then old0
    else
      var n := |ps| - 1;
      Written(Rebuilt(old0, ps[..n], content), ps[n], DataOf(ps[n], content))
  }

  ghost predicate Held(ps: seq<Part>, b: nat) {
    exists k :: 0 <= k < |ps| && ps[k].offset <= b < ps[k].offset + ps[k].size
  }

  /** A byte held by a part that was written has its content, whatever is written after it. */
  lemma {:induction false} RebuiltByte(old0: Bytes, ps: seq<Part>, content: Bytes, b: nat)
    requires PartsOf(ps, content) && b < |content| && Held(ps, b)
    ensures Rebuilt(old0, ps, content)[b] == content[b]
    decreases |ps|
  {
    var n := |ps| - 1;
    var p, front := ps[n], ps[..n];
    if !(p.offset <= b < p.offset + p.size) {
      var k :| 0 <= k < |ps| && ps[k].offset <= b < ps[k].offset + ps[k].size;
      assert front[k] == ps[k];
      RebuiltByte(old0, front, content, b);
      assert front != [];
    }
  }

  /** A byte that no part holds keeps what the old file has there. */
  lemma {:induction false} RebuiltKept(old0: Bytes, ps: seq<Part>, content: Bytes, b: nat)
    requires PartsOf(ps, content) && b < |content| && b < |old0| && !Held(ps, b)
    ensures b < |Rebuilt(old0, ps, content)| && Rebuilt(old0, ps, content)[b] == old0[b]
    decreases |ps|
  {
    if ps != [] {
      var n := |ps| - 1;
      var front := ps[..n];
      assert forall k :: 0 <= k < |front| ==> front[k] == ps[k];
      RebuiltKept(old0, front, content, b);
      assert ps[n] in ps;
    }
  }

  /** The old file holds the bytes of the part already. */
  predicate Present(old0: Bytes, p: Part, content: Bytes) {
    p.offset + p.size <= |old0| && p.offset + p.size <= |content| && old0[p.offset..p.offset + p.size] == content[p.offset..p.offset + p.size]
  }

  /** Parts of one file of an accepted list, in some order: all that the old file does not hold already. */
  ghost predicate GroupOf(group: seq<Part>, ps: seq<Part>, path: string, old0: Bytes, content: Bytes) {
    && (forall k :: 0 <= k < |group| ==> group[k] in ps && group[k].path == path)
    && (forall k :: 0 <= k < |ps| && ps[k].path == path ==> ps[k] in group || Present(old0, ps[k], content))
  }

  lemma {:induction false} CountedIsHeld(ps: seq<Part>, path: string, b: nat) returns (k: nat)
    requires Count(ps, path, b) > 0
    ensures k < |ps| && Covers(ps[k], path, b)
  {
    if Covers(ps[0], path, b) {
      k := 0;
    } else {
      k := CountedIsHeld(ps[1..], path, b);
      k := k + 1;
    }
  }

  /**
   * Writing the parts of a file of an accepted list that the old file lacks, in any order, gives the content
   * whatever else the old file held, if and only if there is something to write or the old file has the size:
   * with nothing to write a longer old file keeps its tail.
   */
  lemma AcceptedRebuilds(ps: seq<Part>, k: nat, group: seq<Part>, content: Bytes, old0: Bytes)
    requires Accepted(ps) && k < |ps| && ps[k].fileSize == |content| && GroupOf(group, ps, ps[k].path, old0, content)
    ensures PartsOf(group, content) && (Rebuilt(old0, group, content) == content <==> group != [] || |old0| == |content|)
  {
    GroupParts(ps, k, group, content, old0);
    if group != [] || |old0| == |content| {
      GroupRebuilds(ps, k, group, content, old0);
    } else {
      assert Rebuilt(old0, group, content) == old0;
    }
  }

  lemma GroupRebuilds(ps: seq<Part>, k: nat, group: seq<Part>, content: Bytes, old0: Bytes)
    requires Accepted(ps) && k < |ps| && ps[k].fileSize == |content| && GroupOf(group, ps, ps[k].path, old0, content)
    requires PartsOf(group, content) && (group != [] || |old0| == |content|)
    ensures Rebuilt(old0, group, content) == content
  {
    hide Accepted, GroupOf, PartsOf;
    var f := Rebuilt(old0, group, content);
    assert |f| == |content|;
    forall b | 0 <= b < |content| ensures f[b] == content[b] {
      if Held(group, b) {
        RebuiltByte(old0, group, content, b);
      } else {
        UnheldKept(ps, k, group, content, old0, b);
      }
    }
  }

  /** A byte that no part of the group holds is one the old file has. */
  lemma UnheldKept(ps: seq<Part>, k: nat, group: seq<Part>, content: Bytes, old0: Bytes, b: nat)
    requires Accepted(ps) && k < |ps| && ps[k].fileSize == |content| && GroupOf(group, ps, ps[k].path, old0, content)
    requires PartsOf(group, content) && b < |content| && !Held(group, b)
    ensures b < |Rebuilt(old0, group, content)| && Rebuilt(old0, group, content)[b] == content[b]
  {
    hide Accepted, PartsOf, Present, Held, Count, Rebuilt;
    AcceptedCovers(ps, k, b);
    var j := CountedIsHeld(ps, ps[k].path, b);
    NotInGroup(group, ps[j], b);
    PresentByte(old0, ps[j], content, b);
    RebuiltKept(old0, group, content, b);
  }

  lemma PresentByte(old0: Bytes, p: Part, content: Bytes, b: nat)
    requires Present(old0, p, content) && p.offset <= b < p.offset + p.size
    ensures b < |old0| && b < |content| && old0[b] == content[b]
  {
    assert old0[p.offset..p.offset + p.size][b - p.offset] == content[p.offset..p.offset + p.size][b - p.offset];
  }

  /** The parts of a group belong to the content. */
  lemma GroupParts(ps: seq<Part>, k: nat, group: seq<Part>, content: Bytes, old0: Bytes)
    requires Accepted(ps) && k < |ps| && ps[k].fileSize == |content| && GroupOf(group, ps, ps[k].path, old0, content)
    ensures PartsOf(group, content)
  {
    hide Accepted, Present;
    forall m | 0 <= m < |group| ensures group[m].fileSize == |content| && FitsFile(group[m]) {
      SameSize(ps, k, group[m]);
    }
  }

  lemma NotInGroup(group: seq<Part>, p: Part, b: nat)
    requires !Held(group, b) && p.offset <= b < p.offset + p.size
    ensures p !in group
  {
  }

  lemma SameSize(ps: seq<Part>, k: nat, p: Part)
    requires Accepted(ps) && k < |ps| && p in ps && p.path == ps[k].path
    ensures p.fileSize == ps[k].fileSize && FitsFile(p)
  {
    var j :| 0 <= j < |ps| && ps[j] == p;
    AcceptedCovers(ps, j, 0);
    var q := SortParts(ps);
    SortSorts(ps);
    assert ps[k] in multiset(q) && p in multiset(q);
    var a := IndexOf(q, ps[k]);
    var b := IndexOf(q, p);
    if a <= b {
      WithinFile(q, a, b);
    } else {
      WithinFile(q, b, a);
    }
  }
}
