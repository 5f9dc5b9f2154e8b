/** A backup as an ordered sequence of effects on the destination, cut off anywhere. */
module BackupRun {
  import opened Octets
  import opened Options
  import opened Listing
  import opened WorkQueue
  import opened BackupParts

  type Objects = map<Name, Bytes>

  function PartOf(n: Name, data: Bytes): Part {
    Part(n.path, n.fileSize, n.offset, n.size, |data|)
  }

  /** A listing: every object once, with the size found. */
  ghost predicate Inventory(ps: seq<Part>, objects: Objects) {
    && (forall k :: 0 <= k < |ps| ==> NameOf(ps[k]) in objects && ps[k] == PartOf(NameOf(ps[k]), objects[NameOf(ps[k])]))
    && (forall n :: n in objects ==> PartOf(n, objects[n]) in ps)
  }

  /** What becomes of one call: it works, or it fails and leaves nothing done or part of it done. */
  datatype Fate = Works | FailsUntouched | FailsPartial(left: nat)

  /** A parallel pass over `n` items: the order of completion, the fate of each, and what the pass returns. */
  datatype Pass = Pass(order: seq<nat>, fates: seq<Fate>, ok: bool)

  /** What every run of the work queue gives: no item twice, and on success every item with a call that worked. */
  ghost predicate PassOf(pass: Pass, n: nat) {
    && Order(pass.order, n) && |pass.fates| == |pass.order|
    && (pass.ok ==> CompleteOrder(pass.order, n) && forall k :: 0 <= k < |pass.fates| ==> pass.fates[k] == Works)
  }

  /** The destination: objects and the completion marker. */
  class Remote {
    var objects: Objects
    var marker: bool

    constructor (objects: Objects, marker: bool)
      ensures this.objects == objects && this.marker == marker
    {
      this.objects := objects;
      this.marker := marker;
    }

    method ListParts() returns (ps: seq<Part>)
      ensures Inventory(ps, objects)
    {
      ps := [];
      var left := objects.Keys;
      while left != {}
        invariant left <= objects.Keys
        invariant Inventory(ps, map n | n in objects && n !in left :: objects[n])
        decreases left
      {
        var n: Name :| n in left;
        ps := ps + [PartOf(n, objects[n])];
        left := left - {n};
      }
      assert (map n | n in objects && n !in left :: objects[n]) == objects;
    }

    /** A call that removes one object. */
    method Delete(n: Name, fate: Fate)
      modifies this`objects
      ensures objects == old(objects) || objects == old(objects) - {n}
      ensures fate == Works ==> objects == old(objects) - {n}
    {
      if fate != FailsUntouched {
        objects := objects - {n};
      }
    }

    /** A call that stores one object; a failed one may leave a first part of it. */
    method Store(n: Name, data: Bytes, fate: Fate)
      modifies this`objects
      ensures objects == old(objects) || exists k :: 0 <= k <= |data| && objects == old(objects)[n := data[..k]]
      ensures fate == Works ==> objects == old(objects)[n := data]
    {
      match fate
      case Works =>
        objects := objects[n := data];
        assert data[..|data|] == data;
      case FailsUntouched =>
      case FailsPartial(k) =>
        var m := if k < |data| then k else |data|;
        objects := objects[n := data[..m]];
    }
  }

  ghost predicate Named(ps: seq<Part>, n: Name) {
    exists k :: 0 <= k < |ps| && NameOf(ps[k]) == n
  }

  // ----- a pass of deletions

  /** Some of `before`, with nothing but items of `ps` gone. */
  ghost predicate Reduced(before: Objects, after: Objects, ps: seq<Part>) {
    && (forall n :: n in after ==> n in before && after[n] == before[n])
    && (forall n :: n in before && n !in after ==> Named(ps, n))
  }

  method DeleteAll(remote: Remote, ps: seq<Part>, pass: Pass) returns (ok: bool)
    requires PassOf(pass, |ps|)
    modifies remote`objects
    ensures ok == pass.ok && Reduced(old(remote.objects), remote.objects, ps)
    ensures ok ==> forall n :: n in remote.objects ==> !Named(ps, n)
  {
    var i := 0;
    while i < |pass.order|
      invariant 0 <= i <= |pass.order| && Reduced(old(remote.objects), remote.objects, ps)
      invariant pass.ok ==> forall k :: 0 <= k < i ==> NameOf(ps[pass.order[k]]) !in remote.objects
    {
      remote.Delete(NameOf(ps[pass.order[i]]), pass.fates[i]);
      i := i + 1;
    }
    if pass.ok {
      forall n | n in remote.objects ensures !Named(ps, n) {
        if Named(ps, n) {
          var j :| 0 <= j < |ps| && NameOf(ps[j]) == n;
          InOrder(pass.order, j);
        }
      }
    }
    ok := pass.ok;
  }

  lemma InOrder(order: seq<nat>, j: nat)
    requires j in order
    ensures exists k :: 0 <= k < |order| && order[k] == j
  {
  }

  // ----- a pass of stores

  /** `before`, and first parts of the data of some items of `ps`. */
  ghost predicate Extended(before: Objects, after: Objects, ps: seq<Part>, data: Objects) {
    && (forall n :: n in before && !Named(ps, n) ==> n in after && after[n] == before[n])
    && (forall n :: n in after ==> (n in before && after[n] == before[n]) || (Named(ps, n) && n in data && after[n] <= data[n]))
  }

  method StoreAll(remote: Remote, ps: seq<Part>, data: Objects, pass: Pass) returns (ok: bool)
    requires PassOf(pass, |ps|) && forall k :: 0 <= k < |ps| ==> NameOf(ps[k]) in data
    modifies remote`objects
    ensures ok == pass.ok && Extended(old(remote.objects), remote.objects, ps, data)
    ensures ok ==> forall n :: Named(ps, n) ==> n in remote.objects && n in data && remote.objects[n] == data[n]
  {
    var i := 0;
    while i < |pass.order|
      invariant 0 <= i <= |pass.order| && Extended(old(remote.objects), remote.objects, ps, data)
      invariant pass.ok ==> forall k :: 0 <= k < i ==>
        NameOf(ps[pass.order[k]]) in remote.objects && remote.objects[NameOf(ps[pass.order[k]])] == data[NameOf(ps[pass.order[k]])]
    {
      var n := NameOf(ps[pass.order[i]]);
      assert Named(ps, n);
      remote.Store(n, data[n], pass.fates[i]);
      i := i + 1;
    }
    if pass.ok {
      forall n | Named(ps, n) ensures n in remote.objects && n in data && remote.objects[n] == data[n] {
        var j :| 0 <= j < |ps| && NameOf(ps[j]) == n;
        InOrder(pass.order, j);
      }
    }
    ok := pass.ok;
  }

  // ----- what a source promises

  predicate SamePart(m: Name, n: Name) {
    m.path == n.path && m.offset == n.offset && m.size == n.size
  }

  /** The parts of a snapshot: whole, and one for each place in a file. */
  ghost predicate SourceOk(src: Objects) {
    && (forall n :: n in src ==> |src[n]| == n.size)
    && (forall m, n :: m in src && n in src && SamePart(m, n) ==> m == n)
  }

  /** A path determines its content: a whole object for a place in a file of the source holds the source's bytes. */
  ghost predicate Consistent(objects: Objects, src: Objects) {
    forall m, n :: m in objects && n in src && SamePart(m, n) && !PartsFile(m.path) && |objects[m]| == m.size ==>
      m == n && objects[m] == src[n]
  }

  /** Objects that differ only in files called `parts.json`, at any depth, are consistent: a run may start from them. */
  lemma PartsFilesMayDiffer(objects: Objects, src: Objects)
    requires SourceOk(src)
    requires forall n :: n in objects && n.path != "parts.json" && (forall dir: string :: !InDirectory(n.path, dir)) ==> n in src && objects[n] == src[n]
    ensures Consistent(objects, src)
  {
  }

  /** A part known to the source's listing is one of the source's objects. */
  lemma KnownIsSame(objects: Objects, ps: seq<Part>, src: Objects, qs: seq<Part>, p: Part)
    requires SourceOk(src) && Consistent(objects, src) && Inventory(ps, objects) && Inventory(qs, src)
    requires p in ps && Known(p, qs)
    ensures NameOf(p) in objects && NameOf(p) in src && objects[NameOf(p)] == src[NameOf(p)]
    ensures PartOf(NameOf(p), src[NameOf(p)]) == p
  {
    var n := NameOf(p);
    var k :| 0 <= k < |qs| && SameKey(qs[k], p);
    var m := NameOf(qs[k]);
    assert SamePart(n, m) && m in src && |src[m]| == m.size;
    assert |objects[n]| == p.actualSize == qs[k].actualSize == m.size;
  }

  /** Likewise the other way round: a source part known to a listing is an object there. */
  lemma SourceKnown(objects: Objects, ps: seq<Part>, src: Objects, qs: seq<Part>, q: Part)
    requires SourceOk(src) && Consistent(objects, src) && Inventory(ps, objects) && Inventory(qs, src)
    requires q in qs && Known(q, ps)
    ensures NameOf(q) in objects && NameOf(q) in src && objects[NameOf(q)] == src[NameOf(q)]
    ensures q in ps && Known(q, qs)
  {
    var m := NameOf(q);
    var k :| 0 <= k < |ps| && SameKey(ps[k], q);
    var n := NameOf(ps[k]);
    assert SamePart(n, m) && m in src && |src[m]| == m.size;
    assert |objects[n]| == ps[k].actualSize == m.size;
    assert n == m && ps[k] == q;
    var j :| 0 <= j < |qs| && qs[j] == q;
    assert SameKey(qs[j], q);
  }

  /** The source without the parts `ps`. */
  ghost predicate Without(objects: Objects, src: Objects, ps: seq<Part>) {
    && (forall n :: n in objects ==> n in src && objects[n] == src[n])
    && (forall n :: n in src && !Named(ps, n) ==> n in objects)
  }

  lemma NamedPart(ps: seq<Part>, objects: Objects, n: Name)
    requires Inventory(ps, objects) && n in objects
    ensures Named(ps, n) && PartOf(n, objects[n]) in ps
  {
    var p := PartOf(n, objects[n]);
    assert NameOf(p) == n;
    var k :| 0 <= k < |ps| && ps[k] == p;
  }

  /** After the deletions only objects of the source are left, and all it has but those to copy. */
  lemma AfterDeletions(before: Objects, after: Objects, src: Objects, dstParts: seq<Part>, srcParts: seq<Part>)
    requires SourceOk(src) && Consistent(before, src) && Inventory(dstParts, before) && Inventory(srcParts, src)
    requires Reduced(before, after, Filter(dstParts, srcParts, false))
    requires forall n :: n in after ==> !Named(Filter(dstParts, srcParts, false), n)
    ensures Without(after, src, Filter(srcParts, dstParts, false))
  {
    var gone, copy := Filter(dstParts, srcParts, false), Filter(srcParts, dstParts, false);
    forall n | n in after ensures n in src && after[n] == src[n] {
      NamedPart(dstParts, before, n);
      var p := PartOf(n, before[n]);
      FilterMember(dstParts, srcParts, false, p);
      if p in gone {
        MemberNamed(gone, p);
      }
      KnownIsSame(before, dstParts, src, srcParts, p);
    }
    forall n | n in src && !Named(copy, n) ensures n in after {
      NamedPart(srcParts, src, n);
      var q := PartOf(n, src[n]);
      FilterMember(srcParts, dstParts, false, q);
      if q in copy {
        MemberNamed(copy, q);
      }
      SourceKnown(before, dstParts, src, srcParts, q);
      if n !in after {
        NotDeleted(before, src, dstParts, srcParts, n);
      }
    }
  }

  lemma MemberNamed(ps: seq<Part>, p: Part)
    requires p in ps
    ensures Named(ps, NameOf(p))
  {
  }

  /** An object whose part is known to the source is not among the deletions. */
  lemma NotDeleted(before: Objects, src: Objects, dstParts: seq<Part>, srcParts: seq<Part>, n: Name)
    requires Inventory(dstParts, before) && n in before && Known(PartOf(n, before[n]), srcParts)
    ensures !Named(Filter(dstParts, srcParts, false), n)
  {
    var gone := Filter(dstParts, srcParts, false);
    if Named(gone, n) {
      var k :| 0 <= k < |gone| && NameOf(gone[k]) == n;
      FilterMember(dstParts, srcParts, false, gone[k]);
    }
  }

  // ----- the stores

  /** The parts to copy are those the origin has and those to upload. */
  lemma CopyOrUpload(srcParts: seq<Part>, dstParts: seq<Part>, originParts: seq<Part>, n: Name)
    ensures var copy := Filter(srcParts, dstParts, false);
            Named(copy, n) <==> Named(Filter(copy, originParts, true), n) || Named(Filter(copy, originParts, false), n)
  {
    var copy := Filter(srcParts, dstParts, false);
    var yes, no := Filter(copy, originParts, true), Filter(copy, originParts, false);
    if Named(copy, n) {
      var k :| 0 <= k < |copy| && NameOf(copy[k]) == n;
      FilterMember(copy, originParts, true, copy[k]);
      FilterMember(copy, originParts, false, copy[k]);
      if copy[k] in yes {
        MemberNamed(yes, copy[k]);
      } else {
        MemberNamed(no, copy[k]);
      }
    }
    if Named(yes, n) {
      var k :| 0 <= k < |yes| && NameOf(yes[k]) == n;
      FilterMember(copy, originParts, true, yes[k]);
      MemberNamed(copy, yes[k]);
    }
    if Named(no, n) {
      var k :| 0 <= k < |no| && NameOf(no[k]) == n;
      FilterMember(copy, originParts, false, no[k]);
      MemberNamed(copy, no[k]);
    }
  }

  /** The parts to copy belong to the source. */
  lemma CopyInSource(src: Objects, srcParts: seq<Part>, dstParts: seq<Part>, n: Name)
    requires Inventory(srcParts, src) && Named(Filter(srcParts, dstParts, false), n)
    ensures n in src
  {
    var copy := Filter(srcParts, dstParts, false);
    var k :| 0 <= k < |copy| && NameOf(copy[k]) == n;
    FilterMember(srcParts, dstParts, false, copy[k]);
  }

  /** A part taken from the origin has the source's bytes there. */
  lemma OriginData(origin: Objects, originParts: seq<Part>, src: Objects, srcParts: seq<Part>, dstParts: seq<Part>, n: Name)
    requires SourceOk(src) && Consistent(origin, src) && Inventory(originParts, origin) && Inventory(srcParts, src)
    requires Named(Filter(Filter(srcParts, dstParts, false), originParts, true), n)
    ensures n in origin && n in src && origin[n] == src[n]
  {
    var copy := Filter(srcParts, dstParts, false);
    var both := Filter(copy, originParts, true);
    var k :| 0 <= k < |both| && NameOf(both[k]) == n;
    FilterMember(copy, originParts, true, both[k]);
    FilterMember(srcParts, dstParts, false, both[k]);
    SourceKnown(origin, originParts, src, srcParts, both[k]);
  }

  /** First parts of the source's objects are consistent with the source. */
  ghost predicate PartsOfSource(objects: Objects, src: Objects) {
    forall n :: n in objects ==> n in src && objects[n] <= src[n]
  }

  lemma PartsConsistent(objects: Objects, src: Objects)
    requires SourceOk(src) && PartsOfSource(objects, src)
    ensures Consistent(objects, src)
  {
    forall m, n | m in objects && n in src && SamePart(m, n) && !PartsFile(m.path) && |objects[m]| == m.size
      ensures m == n && objects[m] == src[n]
    {
      assert m in src && SamePart(m, n);
      assert objects[m] <= src[m] && |src[m]| == m.size;
    }
  }

  lemma ReducedConsistent(before: Objects, after: Objects, src: Objects, ps: seq<Part>)
    requires Consistent(before, src) && Reduced(before, after, ps)
    ensures Consistent(after, src)
  {
  }

  // ----- the run

  /** What the world does to a run: the fates of the single calls and of the three parallel passes. */
  datatype Plan = Plan(unmark: Fate, listed: bool, deletes: nat -> Pass, dirs: bool, copies: nat -> Pass, uploads: nat -> Pass, metadata: bool, mark: Fate)

  ghost predicate PlanOk(plan: Plan) {
    forall n: nat :: PassOf(plan.deletes(n), n) && PassOf(plan.copies(n), n) && PassOf(plan.uploads(n), n)
  }

  /** Every call of the run works. */
  ghost predicate AllWork(plan: Plan) {
    && plan.unmark == Works && plan.listed && plan.dirs && plan.metadata && plan.mark == Works
    && forall n: nat :: plan.deletes(n).ok && plan.copies(n).ok && plan.uploads(n).ok
  }

  /** The deletions, and the listing they are based on. */
  method DeleteObsolete(remote: Remote, counter: KeyCounter, src: Objects, srcParts: seq<Part>, plan: Plan)
    returns (ok: bool, dstParts: seq<Part>)
    requires PlanOk(plan) && SourceOk(src) && Consistent(remote.objects, src) && Inventory(srcParts, src)
    modifies remote`objects, counter
    ensures Inventory(dstParts, old(remote.objects)) && Consistent(remote.objects, src)
    ensures ok ==> Without(remote.objects, src, Filter(srcParts, dstParts, false))
    ensures AllWork(plan) ==> ok
  {
    hide Consistent, Inventory, Reduced, Named;
    dstParts := remote.ListParts();
    var gone := PartsDifference(counter, dstParts, srcParts);
    ok := DeleteAll(remote, gone, plan.deletes(|gone|));
    ReducedConsistent(old(remote.objects), remote.objects, src, gone);
    if ok {
      AfterDeletions(old(remote.objects), remote.objects, src, dstParts, srcParts);
    }
    if gone != [] {
      ok := ok && plan.dirs;
    }
  }

  /** A pass of stores from data that agrees with the source. */
  method StoreMissing(remote: Remote, ps: seq<Part>, data: Objects, pass: Pass, ghost src: Objects, ghost missing: seq<Part>, ghost later: seq<Part>)
    returns (ok: bool)
    requires PassOf(pass, |ps|) && Without(remote.objects, src, missing)
    requires forall n :: Named(ps, n) ==> n in data && n in src && data[n] == src[n]
    requires forall n :: Named(missing, n) ==> Named(ps, n) || Named(later, n)
    modifies remote`objects
    ensures PartsOfSource(remote.objects, src) && ok == pass.ok
    ensures ok ==> Without(remote.objects, src, later)
  {
    hide Named;
    AllNamed(ps, data);
    ok := StoreAll(remote, ps, data, pass);
  }

  /** The copies from the origin and the uploads. */
  method CopyMissing(remote: Remote, counter: KeyCounter, src: Objects, srcParts: seq<Part>, dstParts: seq<Part>, origin: Option<Objects>, plan: Plan)
    returns (ok: bool)
    requires PlanOk(plan) && SourceOk(src) && Inventory(srcParts, src)
    requires origin.Some? ==> Consistent(origin.value, src)
    requires Without(remote.objects, src, Filter(srcParts, dstParts, false))
    modifies remote`objects, counter
    ensures PartsOfSource(remote.objects, src)
    ensures ok ==> remote.objects == src
    ensures AllWork(plan) ==> ok
  {
    hide Consistent, Inventory, Named, SourceOk, Without, Filter;
    var originParts: seq<Part> := [];
    if origin.Some? {
      var o := new Remote(origin.value, false);
      originParts := o.ListParts();
    }
    var copy := PartsDifference(counter, srcParts, dstParts);
    var shared := PartsIntersect(counter, originParts, copy);
    ghost var upload0 := Filter(copy, originParts, false);
    forall n | Named(copy, n) ensures n in src {
      CopyInSource(src, srcParts, dstParts, n);
    }
    forall n ensures Named(copy, n) <==> Named(shared, n) || Named(upload0, n) {
      CopyOrUpload(srcParts, dstParts, originParts, n);
    }
    if origin.Some? {
      forall n | Named(shared, n) ensures n in origin.value && origin.value[n] == src[n] {
        OriginData(origin.value, originParts, src, srcParts, dstParts, n);
      }
      ok := StoreMissing(remote, shared, origin.value, plan.copies(|shared|), src, copy, upload0);
      if !ok {
        return;
      }
    } else {
      NothingShared(copy, shared);
      FewerMissing(remote.objects, src, copy, upload0);
    }
    var upload := PartsDifference(counter, copy, originParts);
    ok := StoreMissing(remote, upload, src, plan.uploads(|upload|), src, upload, []);
    if ok {
      NothingMissing(remote.objects, src);
    }
  }

  lemma FewerMissing(objects: Objects, src: Objects, missing: seq<Part>, later: seq<Part>)
    requires Without(objects, src, missing) && forall n :: Named(missing, n) ==> Named(later, n)
    ensures Without(objects, src, later)
  {
  }

  lemma NothingMissing(objects: Objects, src: Objects)
    requires Without(objects, src, [])
    ensures objects == src
  {
    forall n | n in src ensures n in objects {
      assert !Named([], n);
    }
    assert objects.Keys == src.Keys;
  }

  lemma AllNamed(ps: seq<Part>, objects: Objects)
    requires forall n :: Named(ps, n) ==> n in objects
    ensures forall k :: 0 <= k < |ps| ==> NameOf(ps[k]) in objects
  {
    forall k | 0 <= k < |ps| ensures NameOf(ps[k]) in objects {
      assert Named(ps, NameOf(ps[k]));
    }
  }

  lemma {:induction false} NothingShared(copy: seq<Part>, shared: seq<Part>)
    requires shared == Filter(copy, [], true)
    ensures forall n :: !Named(shared, n)
  {
    forall p ensures p !in shared {
      FilterMember(copy, [], true, p);
    }
    assert forall k :: 0 <= k < |shared| ==> shared[k] in shared;
  }

  /**
   * `Backup::run`, stopped anywhere. On success the destination holds exactly the source's objects and the
   * marker, and a run whose calls all work succeeds. Wherever it stops, the marker stands only over a destination that equals the source, or over
   * one that was not touched at all; and what is left can be taken up by the next run.
   */
  method Run(remote: Remote, counter: KeyCounter, src: Objects, origin: Option<Objects>, plan: Plan) returns (ok: bool)
    requires PlanOk(plan) && SourceOk(src) && Consistent(remote.objects, src)
    requires origin.Some? ==> Consistent(origin.value, src)
    modifies remote, counter
    ensures ok ==> remote.marker && remote.objects == src
    ensures remote.marker ==> remote.objects == src || (old(remote.marker) && remote.objects == old(remote.objects))
    ensures Consistent(remote.objects, src)
    ensures AllWork(plan) ==> ok
  {
    hide Consistent, SourceOk, Without, PlanOk;
    if plan.unmark != FailsUntouched {
      remote.marker := false;
    }
    if plan.unmark != Works || !plan.listed {
      return false;
    }
    var source := new Remote(src, false);
    var srcParts := source.ListParts();
    var dstParts;
    ok, dstParts := DeleteObsolete(remote, counter, src, srcParts, plan);
    if !ok {
      return;
    }
    ok := CopyMissing(remote, counter, src, srcParts, dstParts, origin, plan);
    PartsConsistent(remote.objects, src);
    if !ok || !plan.metadata {
      return false;
    }
    if plan.mark != FailsUntouched {
      remote.marker := true;
    }
    ok := plan.mark == Works;
  }

  /** The items whose call had begun and not returned when the queue was stopped. */
  function Unfinished(workers: seq<Worker>): (r: seq<nat>)
    ensures |r| <= |workers|
  {
    if workers == [] then []
    else Unfinished(workers[..|workers| - 1]) + if workers[|workers| - 1].Running? then [workers[|workers| - 1].i] else []
  }

  lemma {:induction false} UnfinishedMember(workers: seq<Worker>, i: nat)
    ensures i in Unfinished(workers) <==> Running(i) in workers
  {
    if workers != [] {
      UnfinishedMember(workers[..|workers| - 1], i);
      assert workers == workers[..|workers| - 1] + [workers[|workers| - 1]];
    }
  }

  ghost predicate RunDifferent(workers: seq<Worker>) {
    forall v, w :: 0 <= v < w < |workers| && workers[v].Running? && workers[w].Running? ==> workers[v].i != workers[w].i
  }

  lemma {:induction false} UnfinishedDistinct(workers: seq<Worker>)
    requires RunDifferent(workers)
    ensures Distinct(Unfinished(workers))
  {
    if workers != [] {
      var front, last := workers[..|workers| - 1], workers[|workers| - 1];
      UnfinishedDistinct(front);
      if last.Running? {
        UnfinishedMember(front, last.i);
      }
    }
  }

  lemma DistinctJoin(a: seq<nat>, b: seq<nat>)
    requires Distinct(a) && Distinct(b) && forall x :: x in a ==> x !in b
    ensures Distinct(a + b)
  {
    var q := a + b;
    forall i, j | 0 <= i < j < |q| ensures q[i] != q[j] {
      if i < |a| <= j {
        assert q[i] in a && q[j] in b;
      }
    }
  }

  lemma {:induction false} NoneUnfinished(workers: seq<Worker>)
    requires forall w :: 0 <= w < |workers| ==> workers[w].Exited?
    ensures Unfinished(workers) == []
  {
    if workers != [] {
      NoneUnfinished(workers[..|workers| - 1]);
    }
  }

  /** All items the queue touched: done, failed, and begun but not finished. */
  ghost function Touched(s: State): seq<nat> {
    s.log + s.bad + Unfinished(s.workers)
  }

  /** The calls that returned Ok worked; the others had any fate. */
  ghost predicate FatesOf(fates: seq<Fate>, s: State) {
    && |fates| == |Touched(s)|
    && forall k :: 0 <= k < |s.log| ==> fates[k] == Works
  }

  lemma RunningApart(s: State)
    requires Inv(s)
    ensures RunDifferent(s.workers)
    ensures forall i :: i in Unfinished(s.workers) ==> i < s.items && i !in s.log && i !in s.bad
  {
    forall i | i in Unfinished(s.workers) ensures i < s.items && i !in s.log && i !in s.bad {
      UnfinishedMember(s.workers, i);
      var w :| 0 <= w < |s.workers| && s.workers[w] == Running(i);
      assert Open(s, s.workers[w].i);
    }
  }

  /** What the passes assume is what every interleaving of the work queue gives, stopped anywhere. */
  lemma QueueGivesPass(items: nat, workers: nat, turns: seq<Turn>, fates: seq<Fate>)
    requires items >= 1 && workers >= 1 && FatesOf(fates, WorkQueue.Run(Start(items, workers), turns))
    ensures var s := WorkQueue.Run(Start(items, workers), turns);
            PassOf(Pass(Touched(s), fates, Returned(s) && s.firstErr.None?), items)
  {
    var s := WorkQueue.Run(Start(items, workers), turns);
    EachItemOnce(items, workers, turns);
    QueueInv(items, workers, turns);
    RunningApart(s);
    UnfinishedDistinct(s.workers);
    DistinctJoin(s.log + s.bad, Unfinished(s.workers));
    var all := Touched(s);
    forall k | 0 <= k < |all| ensures all[k] < items {
      assert all[k] in s.log || all[k] in s.bad || all[k] in Unfinished(s.workers);
    }
    if Returned(s) && s.firstErr.None? {
      NoneUnfinished(s.workers);
      assert all == s.log;
    }
  }
}
