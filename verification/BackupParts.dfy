/** Backup parts, their keys, and the differences of part lists. */
module BackupParts {
  import opened Options
  import opened Listing

  /** A part of a file in a listing; `actualSize` is what was found, `size` what should be there. */
  datatype Part = Part(path: string, fileSize: nat, offset: nat, size: nat, actualSize: nat)

  /** The remote object that holds a part. */
  datatype Name = Name(path: string, fileSize: nat, offset: nat, size: nat)

  function NameOf(p: Part): Name {
    Name(p.path, p.fileSize, p.offset, p.size)
  }

  /** Files whose content may change under the same path. */
  predicate IsMutable(path: string) {
    path == "parts.json" || (|path| >= 11 && path[|path| - 11..] == "/parts.json")
  }

  /** A file called `parts.json`, at the top or in some directory. */
  ghost predicate PartsFile(path: string) {
    path == "parts.json" || exists dir: string :: InDirectory(path, dir)
  }

  ghost predicate InDirectory(path: string, dir: string) {
    path == dir + "/parts.json"
  }

  /** The mutable files are those called `parts.json`. */
  lemma MutableMeaning(path: string)
    ensures IsMutable(path) <==> PartsFile(path)
  {
    if IsMutable(path) && path != "parts.json" {
      assert InDirectory(path, path[..|path| - 11]);
    }
  }

  /** Two parts that stand for the same bytes of a file, whatever the size of the file. */
  predicate SameKey(p: Part, q: Part) {
    p.path == q.path && p.offset == q.offset && p.size == q.size && p.actualSize == q.actualSize
  }

  datatype Key = Unique(n: nat) | Fixed(path: string, offset: nat, size: nat, actualSize: nat)

  function FixedKey(p: Part): Key {
    Fixed(p.path, p.offset, p.size, p.actualSize)
  }

  /** The counter behind the keys of mutable files. */
  class KeyCounter {
    var next: nat

    constructor ()
      ensures next == 0
    {
      next := 0;
    }

    /** `Part::key`: never the same twice for a mutable file. */
    method KeyOf(p: Part) returns (k: Key)
      modifies this
      ensures PartsFile(p.path) ==> k == Unique(old(next)) && next == old(next) + 1
      ensures !PartsFile(p.path) ==> k == FixedKey(p) && next == old(next)
    {
      MutableMeaning(p.path);
      if IsMutable(p.path) {
        next := next + 1;
        return Unique(next - 1);
      }
      return FixedKey(p);
    }
  }

  /** A part with the same key is in the list; a `parts.json` never is. */
  ghost predicate Known(p: Part, ps: seq<Part>) {
    !PartsFile(p.path) && exists k :: 0 <= k < |ps| && SameKey(ps[k], p)
  }

  /** The parts of `a` with `Known(_, b) == known`, in order. */
  ghost function Filter(a: seq<Part>, b: seq<Part>, known: bool): seq<Part> {
    if a == [] then []
    else Filter(a[..|a| - 1], b, known) + if Known(a[|a| - 1], b) == known then [a[|a| - 1]] else []
  }

  lemma FilterStep(a: seq<Part>, b: seq<Part>, known: bool, i: nat)
    requires i < |a|
    ensures Filter(a[..i + 1], b, known) == Filter(a[..i], b, known) + if Known(a[i], b) == known then [a[i]] else []
  {
    assert a[..i + 1][..i] == a[..i];
  }

  lemma {:induction false} FilterMember(a: seq<Part>, b: seq<Part>, known: bool, p: Part)
    ensures p in Filter(a, b, known) <==> p in a && Known(p, b) == known
  {
    if a != [] {
      var front, last := a[..|a| - 1], a[|a| - 1];
      FilterMember(front, b, known, p);
      assert a == front + [last];
    }
  }

  /** The set of keys of a list: fixed ones of its immutable parts, and used-up unique ones. */
  ghost predicate KeysOf(keys: set<Key>, ps: seq<Part>, next: nat) {
    && (forall k :: 0 <= k < |ps| && !PartsFile(ps[k].path) ==> FixedKey(ps[k]) in keys)
    && (forall key :: key in keys && key.Fixed? ==> exists k :: 0 <= k < |ps| && !PartsFile(ps[k].path) && FixedKey(ps[k]) == key)
    && (forall key :: key in keys && key.Unique? ==> key.n < next)
  }

  method CollectKeys(c: KeyCounter, ps: seq<Part>) returns (keys: set<Key>)
    modifies c
    ensures KeysOf(keys, ps, c.next)
  {
    keys := {};
    var i := 0;
    while i < |ps|
      invariant 0 <= i <= |ps| && KeysOf(keys, ps[..i], c.next)
    {
      ghost var before := c.next;
      var k := c.KeyOf(ps[i]);
      KeysGrow(keys, ps, i, k, before, c.next);
      keys := keys + {k};
      i := i + 1;
    }
    assert ps[..i] == ps;
  }

  lemma KeysGrow(keys: set<Key>, ps: seq<Part>, i: nat, k: Key, before: nat, next: nat)
    requires i < |ps| && before <= next && KeysOf(keys, ps[..i], before)
    requires if PartsFile(ps[i].path) then k.Unique? && k.n < next else k == FixedKey(ps[i])
    ensures KeysOf(keys + {k}, ps[..i + 1], next)
  {
    var more := ps[..i + 1];
    assert forall j :: 0 <= j < i ==> more[j] == ps[..i][j];
    forall key | key in keys + {k} && key.Fixed? ensures exists j :: 0 <= j < |more| && !PartsFile(more[j].path) && FixedKey(more[j]) == key {
      if key in keys {
        var j :| 0 <= j < i && !PartsFile(ps[..i][j].path) && FixedKey(ps[..i][j]) == key;
        assert FixedKey(more[j]) == key;
      } else {
        assert FixedKey(more[i]) == key;
      }
    }
    assert more[i] == ps[i];
  }

  lemma KeyInKeys(keys: set<Key>, ps: seq<Part>, next: nat, p: Part, k: Key)
    requires KeysOf(keys, ps, next)
    requires if PartsFile(p.path) then k == Unique(next) else k == FixedKey(p)
    ensures k in keys <==> Known(p, ps)
  {
    hide PartsFile;
    if Known(p, ps) {
      var j :| 0 <= j < |ps| && SameKey(ps[j], p);
      assert FixedKey(ps[j]) == k;
    }
    if k in keys && k.Fixed? {
      var j :| 0 <= j < |ps| && !PartsFile(ps[j].path) && FixedKey(ps[j]) == k;
      assert SameKey(ps[j], p);
    }
  }

  /** The filter loop of both list operations. */
  method FilterParts(c: KeyCounter, a: seq<Part>, b: seq<Part>, keys: set<Key>, known: bool) returns (r: seq<Part>)
    requires KeysOf(keys, b, c.next)
    modifies c
    ensures r == Filter(a, b, known)
  {
    hide Filter, KeysOf, Known, PartsFile;
    r := [];
    FilterNone(b, known);
    var i := 0;
    assert a[..0] == [];
    while i < |a|
      invariant 0 <= i <= |a| && r == Filter(a[..i], b, known) && KeysOf(keys, b, c.next)
    {
      ghost var before := c.next;
      var k := c.KeyOf(a[i]);
      KeyInKeys(keys, b, before, a[i], k);
      KeysLater(keys, b, before, c.next);
      FilterStep(a, b, known, i);
      if (k in keys) == known {
        r := r + [a[i]];
      }
      i := i + 1;
    }
    assert a[..i] == a;
  }

  lemma FilterNone(b: seq<Part>, known: bool)
    ensures Filter([], b, known) == []
  {
  }

  lemma KeysLater(keys: set<Key>, ps: seq<Part>, before: nat, next: nat)
    requires KeysOf(keys, ps, before) && before <= next
    ensures KeysOf(keys, ps, next)
  {
  }

  /** What the two filters keep, part by part. */
  lemma FilterMeaning(a: seq<Part>, b: seq<Part>)
    ensures forall p :: p in Filter(a, b, false) <==> p in a && (PartsFile(p.path) || forall q :: q in b ==> !SameKey(q, p))
    ensures forall p :: p in Filter(a, b, true) <==> p in a && !PartsFile(p.path) && exists q :: q in b && SameKey(q, p)
  {
    hide PartsFile, SameKey, Filter;
    forall p
      ensures p in Filter(a, b, false) <==> p in a && (PartsFile(p.path) || forall q :: q in b ==> !SameKey(q, p))
      ensures p in Filter(a, b, true) <==> p in a && !PartsFile(p.path) && exists q :: q in b && SameKey(q, p)
    {
      FilterMember(a, b, false, p);
      FilterMember(a, b, true, p);
      if Known(p, b) {
        var k :| 0 <= k < |b| && SameKey(b[k], p);
        assert b[k] in b;
      }
      if q :| q in b && SameKey(q, p) {
        var k :| 0 <= k < |b| && b[k] == q;
      }
    }
  }

  /** `parts_difference`: what is in `a` and not in `b`, with every mutable file of `a`. */
  method PartsDifference(c: KeyCounter, a: seq<Part>, b: seq<Part>) returns (r: seq<Part>)
    modifies c
    ensures r == Filter(a, b, false)
    ensures forall p :: p in r <==> p in a && (PartsFile(p.path) || forall q :: q in b ==> !SameKey(q, p))
  {
    FilterMeaning(a, b);
    var keys := CollectKeys(c, b);
    r := FilterParts(c, a, b, keys, false);
  }

  /** `parts_intersect`: what is in both, taken from `b`, without mutable files. */
  method PartsIntersect(c: KeyCounter, a: seq<Part>, b: seq<Part>) returns (r: seq<Part>)
    modifies c
    ensures r == Filter(b, a, true)
    ensures forall p :: p in r <==> p in b && !PartsFile(p.path) && exists q :: q in a && SameKey(q, p)
  {
    FilterMeaning(b, a);
    var keys := CollectKeys(c, a);
    r := FilterParts(c, b, a, keys, true);
  }
}
