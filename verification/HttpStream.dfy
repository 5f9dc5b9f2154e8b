/** The two directions of a connection: reads and writes of any size, in any number of pieces. */
module HttpStream {
  import opened Octets
  import opened HttpFraming

  /** How a read fails: it times out, for the last time the server allows or not, or the connection fails. */
  datatype Failure = Timeout(expired: bool) | Fault

  /** A read at position `at` fails. */
  datatype Trouble = Trouble(at: nat, failure: Failure)

  datatype ReadResult = Got(bytes: Bytes) | TimedOut(expired: bool) | ReadFailed

  ghost predicate InOrder(troubles: seq<Trouble>) {
    forall i, j :: 0 <= i < j < |troubles| ==> troubles[i].at <= troubles[j].at
  }

  /** The positions at which reads fail. */
  ghost function Places(troubles: seq<Trouble>): set<nat> {
    set t | t in troubles :: t.at
  }

  /** Only time-outs that the server allows. */
  ghost predicate Harmless(troubles: seq<Trouble>) {
    forall k :: 0 <= k < |troubles| ==> troubles[k].failure == Timeout(false)
  }

  function Later<T>(q: seq<T>): seq<T> {
    if q == [] then [] else q[1..]
  }

  /** How many bytes there are from `pos` to the next trouble or the end. */
  function Within(len: nat, pos: nat, troubles: seq<Trouble>): nat
    requires pos <= len && (troubles != [] ==> pos <= troubles[0].at)
  {
    (if troubles != [] && troubles[0].at < len then troubles[0].at else len) - pos
  }

  /** How many bytes the next read gives, of `want` asked for and `avail` there. */
  function ReadSize(sizes: seq<nat>, want: nat, avail: nat): nat {
    var most := if sizes == [] then want else if sizes[0] == 0 then 1 else sizes[0];
    var n := if most < want then most else want;
    if n < avail then n else avail
  }

  /**
   * The reading side. `wire` is all the peer sends before closing. The bytes arrive in any pieces: the coming
   * reads give at most the given sizes, and those after them what is there; no read goes beyond the next
   * trouble, and a read that starts there fails, once for each trouble at that position. `places` holds the
   * positions of all troubles from the start, and `stops` records where reads ended.
   */
  class Stream {
    const wire: Bytes
    ghost const places: set<nat>
    var pos: nat
    var sizes: seq<nat>
    var troubles: seq<Trouble>
    ghost var stops: set<nat>

    constructor (wire: Bytes, sizes: seq<nat>, troubles: seq<Trouble>)
      requires InOrder(troubles)
      ensures this.wire == wire && this.sizes == sizes && this.troubles == troubles && places == Places(troubles)
      ensures Valid() && pos == 0 && stops == {}
    {
      this.wire := wire;
      this.sizes := sizes;
      this.troubles := troubles;
      places := Places(troubles);
      pos := 0;
      stops := {};
    }

    ghost predicate Valid()
      reads this
    {
      && pos <= |wire| && (forall b :: b in stops ==> b <= pos)
      && InOrder(troubles) && Places(troubles) <= places && (troubles != [] ==> pos <= troubles[0].at)
    }

    /** No read fails any more. */
    ghost predicate Quiet()
      reads this
    {
      troubles == []
    }

    /** No read fails, and no time-out is the last the server allows. */
    ghost predicate Patient()
      reads this
    {
      Harmless(troubles)
    }

    method Read(want: nat) returns (r: ReadResult)
      requires Valid()
      modifies this
      ensures Valid() && (old(Patient()) ==> Patient())
      ensures r.Got? <==> old(troubles) == [] || old(troubles)[0].at > old(pos)
      ensures r.Got? ==>
        && |r.bytes| == ReadSize(old(sizes), want, Within(|wire|, old(pos), old(troubles)))
        && pos == old(pos) + |r.bytes| && r.bytes == wire[old(pos)..pos]
        && sizes == Later(old(sizes)) && troubles == old(troubles) && stops == old(stops) + {pos}
        && |r.bytes| <= want && (r.bytes == [] ==> want == 0 || pos == |wire|)
      ensures !r.Got? ==>
        && old(pos) in places && old(troubles)[0] == Trouble(old(pos), FailureOf(r))
        && pos == old(pos) && sizes == old(sizes) && troubles == old(troubles)[1..] && stops == old(stops)
    {
      if troubles != [] && troubles[0].at == pos {
        FirstPlace(troubles);
        var failure := troubles[0].failure;
        troubles := troubles[1..];
        match failure
        case Timeout(expired) => return TimedOut(expired);
        case Fault => return ReadFailed;
      }
      var most := want;
      if sizes != [] {
        most := if sizes[0] == 0 then 1 else sizes[0];
        sizes := sizes[1..];
      }
      var n := if most < want then most else want;
      var end := if troubles != [] && troubles[0].at < |wire| then troubles[0].at else |wire|;
      if n > end - pos {
        n := end - pos;
      }
      r := Got(wire[pos..pos + n]);
      pos := pos + n;
      stops := stops + {pos};
    }
  }

  /** The trouble a failed read met. */
  function FailureOf(r: ReadResult): Failure
    requires !r.Got?
  {
    match r
    case TimedOut(expired) => Timeout(expired)
    case ReadFailed => Fault
  }

  /** The first trouble is at one of the places, and the others are not before it. */
  lemma FirstPlace(troubles: seq<Trouble>)
    requires troubles != [] && InOrder(troubles)
    ensures troubles[0].at in Places(troubles) && InOrder(troubles[1..]) && Places(troubles[1..]) <= Places(troubles)
    ensures |troubles| > 1 ==> troubles[0].at <= troubles[1].at
  {
    assert troubles[0] in troubles;
    forall t | t in troubles[1..] ensures t.at in Places(troubles) {
      assert t in troubles;
    }
  }

  // ----- the writing side

  /** What the next write does: accept up to `most` bytes, be interrupted, or fail. */
  datatype WriteEvent = Accept(most: nat) | Interrupt | Break

  datatype WriteResult = Wrote(count: nat) | Interrupted | Broken

  class Sink {
    var delivered: Bytes
    var schedule: seq<WriteEvent>

    constructor (schedule: seq<WriteEvent>)
      ensures delivered == [] && this.schedule == schedule
    {
      delivered := [];
      this.schedule := schedule;
    }

    /** Every write takes something or is interrupted. */
    ghost predicate Accepting()
      reads this
    {
      forall k :: 0 <= k < |schedule| ==> schedule[k] == Interrupt || (schedule[k].Accept? && schedule[k].most > 0)
    }

    /** A vectored write: some first part of the concatenated slices, possibly nothing. */
    method WriteVectored(slices: seq<Bytes>) returns (r: WriteResult)
      modifies this
      ensures |schedule| <= |old(schedule)|
      ensures r.Wrote? ==> r.count <= |Concat(slices)| && delivered == old(delivered) + Concat(slices)[..r.count]
      ensures !r.Wrote? ==> delivered == old(delivered) && |schedule| < |old(schedule)|
      ensures old(Accepting()) ==> Accepting() && r != Broken && (r.Wrote? && Concat(slices) != [] ==> r.count > 0)
    {
      var all := Concat(slices);
      var most := |all|;
      if schedule != [] {
        var next := schedule[0];
        schedule := schedule[1..];
        match next
        case Accept(k) => most := k;
        case Interrupt => return Interrupted;
        case Break => return Broken;
      }
      var n := if most < |all| then most else |all|;
      delivered := delivered + all[..n];
      r := Wrote(n);
    }
  }

  lemma ConcatSnoc(a: seq<Bytes>, x: Bytes)
    ensures Concat(a + [x]) == Concat(a) + x
  {
    assert (a + [x])[..|a|] == a;
  }

  /** The slices that are left after `done` bytes. */
  method Remaining(parts: seq<Bytes>, done: nat) returns (slices: seq<Bytes>)
    requires |parts| <= 3 && done <= |Concat(parts)|
    ensures |slices| <= |parts| && Concat(slices) == Concat(parts)[done..]
  {
    hide Concat;
    slices := [];
    var skip: nat := done;
    var i := 0;
    ConcatEmpty();
    assert parts[..0] == [];
    while i < |parts|
      invariant 0 <= i <= |parts| && |slices| <= i
      invariant skip > 0 ==> slices == [] && skip + |Concat(parts[..i])| == done
      invariant skip == 0 ==> done <= |Concat(parts[..i])| && Concat(slices) == Concat(parts[..i])[done..]
    {
      var part := parts[i];
      assert parts[..i + 1] == parts[..i] + [part];
      ConcatSnoc(parts[..i], part);
      if skip >= |part| {
        skip := skip - |part|;
      } else {
        ConcatSnoc(slices, part[skip..]);
        slices := slices + [part[skip..]];
        skip := 0;
      }
      i := i + 1;
    }
    assert parts[..i] == parts;
  }

  lemma ConcatEmpty()
    ensures Concat([]) == []
  {
  }

  /** `write_all_vectored`: everything is delivered, once and in order, or the write failed part way. */
  method WriteAllVectored(sink: Sink, parts: seq<Bytes>) returns (ok: bool)
    requires |parts| <= 3
    modifies sink
    ensures |sink.schedule| <= |old(sink.schedule)|
    ensures ok ==> sink.delivered == old(sink.delivered) + Concat(parts)
    ensures old(sink.delivered) <= sink.delivered <= old(sink.delivered) + Concat(parts)
    ensures old(sink.Accepting()) ==> ok && sink.Accepting()
  {
    hide Concat;
    var all := Concat(parts);
    var total := |all|;
    var done := 0;
    ghost var before := sink.delivered;
    while done < total
      invariant 0 <= done <= total && |sink.schedule| <= |old(sink.schedule)|
      invariant sink.delivered == before + all[..done]
      invariant old(sink.Accepting()) ==> sink.Accepting()
      decreases total - done, |sink.schedule|
    {
      var slices := Remaining(parts, done);
      var r := sink.WriteVectored(slices);
      match r
      case Wrote(n) =>
        if n == 0 {
          return false;
        }
        assert all[..done] + all[done..][..n] == all[..done + n];
        done := done + n;
      case Interrupted =>
      case Broken => return false;
    }
    assert all[..total] == all;
    return true;
  }
}
