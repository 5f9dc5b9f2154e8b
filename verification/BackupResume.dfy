/** Restoring one file over what a local directory already holds of it. */
module BackupResume {
  import opened Octets
  import opened Options
  import opened BackupParts
  import opened BackupRestore
  import PathClean

  // ----- the parts of a file by their number

  /** The size of the part that starts at `offset` in a file of `n` bytes. */
  function PartSize(n: nat, offset: nat): nat
    requires offset <= n
  {
    if n - offset < MAX_PART_SIZE then n - offset else MAX_PART_SIZE
  }

  lemma {:induction false} PartPlace(ps: seq<Part>, path: string, n: nat, k: nat)
    requires Tiles(ps, path, n) && k < |ps|
    ensures ps[k].offset == k * MAX_PART_SIZE <= n && ps[k].size == PartSize(n, k * MAX_PART_SIZE)
    ensures k < |ps| - 1 <==> (k + 1) * MAX_PART_SIZE < n
    ensures k == 0 || k * MAX_PART_SIZE < n
    decreases |ps| - k
  {
    PlaceFrom(ps, path, n, k);
    PlaceFrom(ps, path, n, |ps| - 1);
    if k < |ps| - 1 {
      PlaceFrom(ps, path, n, k + 1);
      LastBeyond(k, |ps| - 1);
    }
  }

  lemma {:induction false} PlaceFrom(ps: seq<Part>, path: string, n: nat, k: nat)
    requires Tiles(ps, path, n) && k < |ps|
    ensures ps[k].offset == k * MAX_PART_SIZE && PartOfFile(ps[k], path, n)
  {
    if k > 0 {
      PlaceFrom(ps, path, n, k - 1);
    }
  }

  lemma LastBeyond(k: nat, last: nat)
    requires k < last
    ensures (k + 1) * MAX_PART_SIZE <= last * MAX_PART_SIZE
  {
  }

  // ----- what is known of the one file in the parts of the other

  /**
   * A part of a file of `n` bytes has the key of a part of a file of `m` bytes under the same path exactly when
   * that file has a part of the same size there.
   */
  lemma KnownPart(a: seq<Part>, b: seq<Part>, path: string, n: nat, m: nat, k: nat)
    requires Tiles(a, path, n) && Tiles(b, path, m) && k < |a|
    ensures k * MAX_PART_SIZE <= n
    ensures Known(a[k], b) <==>
      !PartsFile(path) && k < |b| && k * MAX_PART_SIZE <= m && PartSize(n, k * MAX_PART_SIZE) == PartSize(m, k * MAX_PART_SIZE)
  {
    hide PartSize, PartsFile;
    PartPlace(a, path, n, k);
    PlaceFrom(a, path, n, k);
    if k < |b| {
      PartPlace(b, path, m, k);
      PlaceFrom(b, path, m, k);
      assert SameKey(b[k], a[k]) <==> b[k].size == a[k].size;
    }
    if Known(a[k], b) {
      var j :| 0 <= j < |b| && SameKey(b[j], a[k]);
      PartPlace(b, path, m, j);
      SameNumber(j, k);
    }
  }

  lemma SameNumber(j: nat, k: nat)
    requires j * MAX_PART_SIZE == k * MAX_PART_SIZE
    ensures j == k
  {
  }

  /** The old file is longer than the content, whose parts are all of the greatest size. */
  ghost predicate Stale(path: string, n: nat, m: nat) {
    !PartsFile(path) && n > 0 && n % MAX_PART_SIZE == 0 && m > n
  }

  /** Nothing is missing exactly when the sizes agree or the old file goes on after whole parts. */
  lemma NothingMissing(a: seq<Part>, b: seq<Part>, path: string, n: nat, m: nat)
    requires Tiles(a, path, n) && Tiles(b, path, m)
    ensures (forall k :: 0 <= k < |a| ==> Known(a[k], b)) <==> Stale(path, n, m) || (!PartsFile(path) && n == m)
  {
    hide PartsFile, Tiles;
    LastPart(a, path, n);
    if forall k :: 0 <= k < |a| ==> Known(a[k], b) {
      var k := |a| - 1;
      assert Known(a[k], b);
      KnownPart(a, b, path, n, m, k);
      PartPlace(a, path, n, k);
      PartPlace(b, path, m, k);
      LastSizes(n, m, k);
    }
    if Stale(path, n, m) || (!PartsFile(path) && n == m) {
      forall k | 0 <= k < |a| ensures Known(a[k], b) {
        KnownPart(a, b, path, n, m, k);
        PartPlace(a, path, n, k);
        FirstParts(b, path, n, m, k);
      }
    }
  }

  lemma LastPart(a: seq<Part>, path: string, n: nat)
    requires Tiles(a, path, n)
    ensures a != []
  {
  }

  /** The last part of `n` bytes is a part of `m` bytes too: the sizes agree, or `n` is whole parts. */
  lemma LastSizes(n: nat, m: nat, k: nat)
    requires k * MAX_PART_SIZE <= n <= (k + 1) * MAX_PART_SIZE && k * MAX_PART_SIZE <= m
    requires PartSize(n, k * MAX_PART_SIZE) == PartSize(m, k * MAX_PART_SIZE)
    ensures n == m || (n > 0 && n % MAX_PART_SIZE == 0 && m > n)
  {
    if n == (k + 1) * MAX_PART_SIZE {
      WholeParts(k + 1);
    }
  }

  lemma WholeParts(k: nat)
    ensures (k * MAX_PART_SIZE) % MAX_PART_SIZE == 0
  {
  }

  /** A file that is as long, or that goes on after whole parts, has the part as well. */
  lemma FirstParts(b: seq<Part>, path: string, n: nat, m: nat, k: nat)
    requires Tiles(b, path, m) && k * MAX_PART_SIZE <= n && (k == 0 || k * MAX_PART_SIZE < n)
    requires n == m || (n > 0 && n % MAX_PART_SIZE == 0 && m > n)
    ensures k < |b| && k * MAX_PART_SIZE <= m && PartSize(n, k * MAX_PART_SIZE) == PartSize(m, k * MAX_PART_SIZE)
  {
    var last := |b| - 1;
    PartPlace(b, path, m, last);
    if last < k {
      LastBeyond(last, k);
    }
    if n != m && n - k * MAX_PART_SIZE < MAX_PART_SIZE {
      NotWhole(n, k);
    }
  }

  lemma NotWhole(n: nat, k: nat)
    requires k * MAX_PART_SIZE <= n < (k + 1) * MAX_PART_SIZE && n % MAX_PART_SIZE == 0
    ensures n == k * MAX_PART_SIZE
  {
    var q := n / MAX_PART_SIZE;
    assert n == q * MAX_PART_SIZE;
    assert q == k;
  }

  // ----- restoring

  /** Where both files have a part of the same size at the same place, the bytes agree. */
  ghost predicate Agree(a: Bytes, b: Bytes) {
    forall k: nat :: AgreeAt(a, b, k)
  }

  ghost predicate AgreeAt(a: Bytes, b: Bytes, k: nat) {
    var lo := k * MAX_PART_SIZE;
    lo <= |a| && lo <= |b| && PartSize(|a|, lo) == PartSize(|b|, lo) ==> a[lo..lo + PartSize(|a|, lo)] == b[lo..lo + PartSize(|a|, lo)]
  }

  /** A part whose key the old file has is there already. */
  lemma KnownPresent(src: seq<Part>, local: seq<Part>, path: string, content: Bytes, old0: Bytes, k: nat)
    requires Tiles(src, path, |content|) && Tiles(local, path, |old0|) && k < |src| && Known(src[k], local) && Agree(content, old0)
    ensures Present(old0, src[k], content)
  {
    hide Tiles, Known;
    KnownPart(src, local, path, |content|, |old0|, k);
    PartPlace(src, path, |content|, k);
    assert AgreeAt(content, old0, k);
  }

  /** The parts to copy are those of the file that the old one does not hold. */
  lemma CopyGroup(src: seq<Part>, local: seq<Part>, path: string, content: Bytes, old0: Bytes)
    requires Tiles(src, path, |content|)
    requires local == [] || (Tiles(local, path, |old0|) && Agree(content, old0))
    ensures GroupOf(Filter(src, local, false), src, path, old0, content)
  {
    hide Tiles, Known, Present, Agree;
    var group := Filter(src, local, false);
    forall k | 0 <= k < |group| ensures group[k] in src && group[k].path == path {
      FilterMember(src, local, false, group[k]);
      var j :| 0 <= j < |src| && src[j] == group[k];
      PlaceFrom(src, path, |content|, j);
    }
    forall k | 0 <= k < |src| && src[k].path == path ensures src[k] in group || Present(old0, src[k], content) {
      FilterMember(src, local, false, src[k]);
      if Known(src[k], local) {
        KnownSome(src[k], local);
        KnownPresent(src, local, path, content, old0, k);
      }
    }
  }

  lemma KnownSome(p: Part, ps: seq<Part>)
    requires Known(p, ps)
    ensures ps != []
  {
  }

  /** The list to copy is empty exactly when every part is known. */
  lemma CopyNothing(src: seq<Part>, local: seq<Part>)
    ensures Filter(src, local, false) == [] <==> forall k :: 0 <= k < |src| ==> Known(src[k], local)
  {
    hide Known;
    var group := Filter(src, local, false);
    if group == [] {
      forall k | 0 <= k < |src| ensures Known(src[k], local) {
        FilterMember(src, local, false, src[k]);
      }
    } else {
      FilterMember(src, local, false, group[0]);
      assert group[0] in group;
    }
  }

  lemma OneFileAccepted(path: string, content: Bytes, src: seq<Part>)
    requires PathOk(path) && Tiles(src, path, |content|)
    ensures Accepted(src)
  {
    var fs := [File(path, content)];
    assert Files(fs);
    assert fs[..0] == [] && fs[..1] == fs && [] + src == src;
    assert PartsOfFiles([], []);
    hide Tiles, Files, PartsOfFiles, Accepted, PathOk;
    AddFile([], src, fs, 0);
    FilesAccepted(fs, src, src);
  }

  /** Whether a file is deleted before anything is copied: its first part is not in the backup. */
  method FirstMissing(parts: seq<Part>) returns (found: bool)
    ensures found <==> exists k :: 0 <= k < |parts| && parts[k].offset == 0
  {
    found := false;
    for i := 0 to |parts|
      invariant found <==> exists k :: 0 <= k < i && parts[k].offset == 0
    {
      if parts[i].offset == 0 {
        found := true;
      }
    }
  }

  /** The first part of a tiling is its only one at the start. */
  lemma FirstUnknown(a: seq<Part>, b: seq<Part>, path: string, n: nat)
    requires Tiles(a, path, n)
    ensures (exists k :: 0 <= k < |Filter(a, b, false)| && Filter(a, b, false)[k].offset == 0) <==> !Known(a[0], b)
  {
    hide Known;
    var group := Filter(a, b, false);
    FilterMember(a, b, false, a[0]);
    if k :| 0 <= k < |group| && group[k].offset == 0 {
      FilterMember(a, b, false, group[k]);
      var j :| 0 <= j < |a| && a[j] == group[k];
      PlaceFrom(a, path, n, j);
      SameNumber(j, 0);
    }
    if !Known(a[0], b) {
      var k :| 0 <= k < |group| && group[k] == a[0];
    }
  }

  /**
   * What `restore` does to one file: it is deleted if its first part is not in the backup, and then the parts
   * it lacks are written. The outcome is the content if and only if the old file is not a longer one after
   * whole parts; that one has nothing to copy and is left as it is.
   */
  method RestoreFile(counter: KeyCounter, path: string, content: Bytes, old0: Option<Bytes>) returns (out: Option<Bytes>)
    requires PathOk(path) && (old0.Some? ==> Agree(content, old0.value))
    modifies counter
    ensures out == Some(content) <==> !(old0.Some? && Stale(path, |content|, |old0.value|))
    ensures old0.Some? && Stale(path, |content|, |old0.value|) ==> out == old0
  {
    hide Tiles, Known, Present, Agree, Accepted, GroupOf, Filter, PartsFile;
    var src := SplitIntoParts(path, |content|);
    LastPart(src, path, |content|);
    var local: seq<Part> := [];
    out := old0;
    if old0.Some? {
      local := SplitIntoParts(path, |old0.value|);
      LastPart(local, path, |old0.value|);
      var extra := PartsDifference(counter, local, src);
      FirstUnknown(local, src, path, |old0.value|);
      var gone := FirstMissing(extra);
      FirstKept(src, local, path, |content|, |old0.value|);
      NothingMissing(src, local, path, |content|, |old0.value|);
      if gone {
        out, local := None, [];
      }
    }
    var missing := PartsDifference(counter, src, local);
    ghost var base := if out.Some? then out.value else [];
    CopyGroup(src, local, path, content, base);
    CopyNothing(src, local);
    OneFileAccepted(path, content, src);
    PlaceFrom(src, path, |content|, 0);
    AcceptedRebuilds(src, 0, missing, content, base);
    NoneKnown(src);
    out := CopyParts(missing, content, out);
  }

  lemma NoneKnown(src: seq<Part>)
    requires src != []
    ensures !Known(src[0], [])
  {
  }

  /** A file with nothing to copy is not deleted. */
  lemma FirstKept(src: seq<Part>, local: seq<Part>, path: string, n: nat, m: nat)
    requires Tiles(src, path, n) && Tiles(local, path, m) && src != [] && local != []
    ensures Known(local[0], src) <==> Known(src[0], local)
  {
    hide Tiles, Known;
    KnownPart(src, local, path, n, m, 0);
    KnownPart(local, src, path, m, n, 0);
  }

  lemma WroteNext(base: Bytes, parts: seq<Part>, content: Bytes, i: nat)
    requires PartsOf(parts, content) && i < |parts|
    ensures PartsOf(parts[..i], content) && PartsOf(parts[..i + 1], content) && (i == 0 ==> Rebuilt(base, parts[..i], content) == base)
    ensures var data := DataOf(parts[i], content);
            && |data| == parts[i].size && data[..parts[i].size] == data
            && Rebuilt(base, parts[..i + 1], content) == Written(Rebuilt(base, parts[..i], content), parts[i], data)
  {
    assert parts[..i + 1][..i] == parts[..i];
  }

  /** Writes the parts one after another. */
  method CopyParts(parts: seq<Part>, content: Bytes, old0: Option<Bytes>) returns (out: Option<Bytes>)
    requires PartsOf(parts, content)
    ensures parts == [] ==> out == old0
    ensures parts != [] ==> out == Some(Rebuilt(if old0.Some? then old0.value else [], parts, content))
  {
    out := old0;
    ghost var base := if old0.Some? then old0.value else [];
    for i := 0 to |parts|
      invariant out == (if i == 0 then old0 else Some(Rebuilt(base, parts[..i], content)))
    {
      var p := parts[i];
      WroteNext(base, parts, content, i);
      var ok;
      out, ok := WritePartAt(out, p, DataOf(p, content));
    }
    assert parts[..|parts|] == parts;
  }

  // ----- the old file that is left as it is

  function Zeros(n: nat): Bytes {
    seq(n, _ => 0)
  }

  lemma ZerosAgree(n: nat, m: nat)
    ensures Agree(Zeros(n), Zeros(m))
  {
    forall k: nat ensures AgreeAt(Zeros(n), Zeros(m), k) {
    }
  }

  /** A local file of two full parts whose backup is its first part keeps its second one. */
  method StaleTailKept(counter: KeyCounter) returns (out: Option<Bytes>)
    modifies counter
    ensures out == Some(Zeros(2 * MAX_PART_SIZE)) && out != Some(Zeros(MAX_PART_SIZE))
  {
    hide Zeros, Agree;
    ZerosAgree(MAX_PART_SIZE, 2 * MAX_PART_SIZE);
    assert |Zeros(MAX_PART_SIZE)| == MAX_PART_SIZE && |Zeros(2 * MAX_PART_SIZE)| == 2 * MAX_PART_SIZE by {
      ZerosLength(MAX_PART_SIZE);
      ZerosLength(2 * MAX_PART_SIZE);
    }
    PlainPath();
    out := RestoreFile(counter, "a", Zeros(MAX_PART_SIZE), Some(Zeros(2 * MAX_PART_SIZE)));
  }

  lemma ZerosLength(n: nat)
    ensures |Zeros(n)| == n
  {
  }

  lemma PlainPath()
    ensures PathOk("a") && !PartsFile("a")
  {
    assert PathClean.SegmentEnd("a", 0) == 1;
    assert PathClean.Split("a", 0) == ["a"];
  }
}
