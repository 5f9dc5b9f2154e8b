/** The request body reader: a buffered prefix first, then the connection, with the framing stripped. */
module HttpBody {
  import opened Octets
  import opened HttpFraming
  import opened HttpStream

  datatype BodyError = UnexpectedEof | InvalidChunk | IoError

  datatype Attempt<T> = Success(value: T) | Failed(error: BodyError)

  /** Whether a failure is the one the bytes call for. */
  ghost predicate Refused(o: Outcome, e: BodyError) {
    match e
    case UnexpectedEof => o == Outcome([], CutOff)
    case InvalidChunk => o == Outcome([], Malformed)
    case IoError => true
  }

  /** A read for up to `want` bytes took `b`, the next part of the payload, or ended the body. */
  ghost predicate Taken(before: Outcome, want: nat, b: Bytes, after: Outcome, offset: nat) {
    && |b| <= want && before == Prepend(b, after)
    && (b == [] && want > 0 ==> after == Outcome([], Complete(offset)))
  }

  ghost predicate Scanned<T>(s: Scan<T>, a: Attempt<T>, next: nat) {
    match a
    case Success(v) => s == Line(v, next)
    case Failed(UnexpectedEof) => s == CutLine
    case Failed(InvalidChunk) => s == BadLine
    case Failed(IoError) => s.Line? ==> next < s.next
  }

  class Body {
    const stream: Stream
    const prefix: Bytes
    ghost const base: nat
    var prefixPos: nat
    var kind: BodyKind

    ghost predicate Valid()
      reads this, stream
    {
      && stream.Valid()
      && prefixPos <= |prefix|
      && base + |prefix| <= stream.pos
      && prefix == stream.wire[base..base + |prefix|]
      && (prefixPos < |prefix| ==> stream.pos == base + |prefix|)
      && (kind.Chunked? && kind.state.Data? ==> kind.state.remaining > 0)
    }

    /** The position on the wire of the next byte of the body. */
    ghost function Offset(): (i: nat)
      reads this, stream
      requires Valid()
      ensures i <= |stream.wire|
    {
      if prefixPos < |prefix| then base + prefixPos else stream.pos
    }

    /** What is left of the body, from where the reader stands and in the state it is in. */
    ghost function Rest(): Outcome
      reads this, stream
      requires Valid()
    {
      HttpFraming.Rest(stream.wire, Offset(), kind)
    }

    /** What every call does to the stream; `io` says that it ended in a failed read. */
    twostate predicate Advanced(io: bool)
      reads this, stream
      requires old(Valid()) && Valid()
    {
      && Offset() >= old(Offset())
      && (if io then Met(old(stream.troubles), Offset(), stream.places) && stream.troubles == old(stream.troubles)[1..]
          else stream.troubles == old(stream.troubles))
      && (old(stream.Patient()) ==> stream.Patient())
      && (old(prefixPos == |prefix|) ==> prefixPos == |prefix|)
    }

    /** What a read does: it takes the next part of the payload, or fails as the bytes or the connection make it. */
    twostate predicate Answered(want: nat, new r: Attempt<Bytes>)
      reads this, stream
      requires old(Valid()) && Valid()
    {
      && Advanced(r == Failed(IoError))
      && match r {
        case Success(b) =>
          && Offset() >= old(Offset()) + |b| && Taken(old(Rest()), want, b, Rest(), Offset())
          && InStep(stream.wire, old(Offset()), old(kind), Offset(), kind)
        case Failed(IoError) =>
          && (old(Rest()).status.Complete? ==> Offset() < old(Rest()).status.end)
          && (!Cuts(stream.wire, old(Offset()), old(kind), Offset()) ==>
              Rest() == old(Rest()) && InStep(stream.wire, old(Offset()), old(kind), Offset(), kind))
        case Failed(e) => Refused(old(Rest()), e)
      }
    }

    /** A read that starts with a control line with a trouble inside stops there and keeps its state. */
    twostate predicate StopsInside(want: nat, new r: Attempt<Bytes>)
      reads this, stream
      requires old(Valid()) && Valid()
    {
      want > 0 && CutShort(stream.wire, old(Offset()), old(kind), old(stream.troubles)) ==>
        r == Failed(IoError) && kind == old(kind) && Offset() == old(stream.troubles)[0].at
    }

    /** `Body::new`. */
    constructor (stream: Stream, prefix: Bytes, chunked: bool, contentLength: int, ghost base: nat)
      requires stream.Valid() && stream.pos == base + |prefix| && prefix == stream.wire[base..stream.pos]
      ensures this.stream == stream && Valid() && Offset() == base
      ensures this.prefix == prefix && this.base == base && prefixPos == 0
      ensures kind == KindOf(chunked, contentLength)
    {
      this.stream := stream;
      this.prefix := prefix;
      this.base := base;
      prefixPos := 0;
      kind := KindOf(chunked, contentLength);
    }

    method ReadRaw(want: nat) returns (r: Attempt<Bytes>)
      requires Valid()
      modifies this`prefixPos, stream
      ensures Valid() && Advanced(r.Failed?)
      ensures r.Success? ==> |r.value| <= want && Offset() == old(Offset()) + |r.value| && r.value == stream.wire[old(Offset())..Offset()]
      ensures r.Success? && r.value == [] ==> want == 0 || Offset() == |stream.wire|
      ensures r.Failed? ==> r.error == IoError && Offset() == old(Offset())
    {
      if prefixPos < |prefix| {
        var n := if |prefix| - prefixPos < want then |prefix| - prefixPos else want;
        r := Success(prefix[prefixPos..prefixPos + n]);
        SliceOfSlice(stream.wire, base, |prefix|, prefixPos, n);
        prefixPos := prefixPos + n;
        assert Offset() == base + prefixPos && old(Offset()) == base + (prefixPos - n);
        assert r.value == stream.wire[old(Offset())..Offset()];
        return;
      }
      var got := stream.Read(want);
      match got
      case Got(b) => r := Success(b);
      case _ => r := Failed(IoError);
    }

    method ReadByte() returns (r: Attempt<Byte>)
      requires Valid()
      modifies this`prefixPos, stream
      ensures Valid() && Advanced(r == Failed(IoError))
      ensures r.Success? ==> old(Offset()) < |stream.wire| && r.value == stream.wire[old(Offset())] && Offset() == old(Offset()) + 1
      ensures r.Failed? ==> Offset() == old(Offset()) && r.error != InvalidChunk
      ensures r == Failed(UnexpectedEof) ==> Offset() == |stream.wire|
    {
      var b := ReadRaw(1);
      if b.Failed? {
        return Failed(b.error);
      }
      if b.value == [] {
        return Failed(UnexpectedEof);
      }
      return Success(b.value[0]);
    }

    /** `expect_lf` and `finish_chunk_size`. */
    method FinishSize(size: nat, digits: nat) returns (r: Attempt<nat>)
      requires Valid()
      modifies this`prefixPos, stream
      ensures Valid() && Advanced(r == Failed(IoError))
      ensures Scanned(EndOfSize(stream.wire, old(Offset()), size, digits), r, Offset())
    {
      var b := ReadByte();
      if b.Failed? {
        return Failed(b.error);
      }
      if b.value != LF || digits == 0 {
        return Failed(InvalidChunk);
      }
      return Success(size);
    }

    method SkipExtension() returns (r: Attempt<()>)
      requires Valid()
      modifies this`prefixPos, stream
      ensures Valid() && Advanced(r == Failed(IoError))
      ensures Scanned(SkipToCr(stream.wire, old(Offset())), r, Offset()) && r != Failed(InvalidChunk)
    {
      while true
        invariant Valid() && Advanced(false)
        invariant SkipToCr(stream.wire, old(Offset())) == SkipToCr(stream.wire, Offset())
        decreases |stream.wire| - Offset()
      {
        var b := ReadByte();
        if b.Failed? {
          return Failed(b.error);
        }
        if b.value == CR {
          return Success(());
        }
      }
    }

    /** The end of a size line after its digits: an extension up to the carriage return, and the line feed. */
    method FinishLine(first: Byte, size: nat, digits: nat) returns (r: Attempt<nat>)
      requires Valid() && (first == SEMICOLON || first == CR)
      modifies this`prefixPos, stream
      ensures Valid() && Advanced(r == Failed(IoError))
      ensures Scanned(AfterDigits(stream.wire, old(Offset()), first, size, digits), r, Offset())
    {
      hide EndOfSize, SkipToCr;
      if first == SEMICOLON {
        var skipped := SkipExtension();
        if skipped.Failed? {
          return Failed(skipped.error);
        }
        r := FinishSize(size, digits);
      } else {
        r := FinishSize(size, digits);
      }
    }

    /** `read_chunk_size`. */
    method ReadChunkSize() returns (r: Attempt<nat>)
      requires Valid()
      modifies this`prefixPos, stream
      ensures Valid() && Advanced(r == Failed(IoError))
      ensures Scanned(SizeLine(stream.wire, old(Offset()), 0, 0), r, Offset())
    {
      hide AfterDigits, SizeLine;
      var size, digits := 0, 0;
      while true
        invariant Valid() && Advanced(false)
        invariant size >= 0 && digits >= 0
        invariant SizeLine(stream.wire, old(Offset()), 0, 0) == SizeLine(stream.wire, Offset(), size, digits)
        decreases |stream.wire| - Offset()
      {
        SizeLineStep(stream.wire, Offset(), size, digits);
        var b := ReadByte();
        if b.Failed? {
          return Failed(b.error);
        }
        var digit := HexValue(b.value);
        if digit < 0 {
          if b.value == SEMICOLON || b.value == CR {
                r := FinishLine(b.value, size, digits);
            return;
          }
          return Failed(InvalidChunk);
        }
        digits := digits + 1;
        if digits > 16 {
          return Failed(InvalidChunk);
        }
        size := size * 16 + digit;
      }
    }

    /** `skip_trailers`. */
    method SkipTrailers() returns (r: Attempt<()>)
      requires Valid()
      modifies this`prefixPos, stream
      ensures Valid() && Advanced(r == Failed(IoError))
      ensures Scanned(TrailerLines(stream.wire, old(Offset()), 0), r, Offset())
    {
      var len := 0;
      while true
        invariant Valid() && Advanced(false)
        invariant len >= 0
        invariant TrailerLines(stream.wire, old(Offset()), 0) == TrailerLines(stream.wire, Offset(), len)
        decreases |stream.wire| - Offset()
      {
        var b := ReadByte();
        if b.Failed? {
          return Failed(b.error);
        }
        if b.value == LF {
          if len == 0 {
            return Success(());
          }
          len := 0;
        } else if b.value != CR {
          len := len + 1;
          if len > MAX_TRAILER_LINE {
            return Failed(InvalidChunk);
          }
        }
      }
    }

    /** The line break after chunk data. */
    method ReadDataEnd() returns (r: Attempt<()>)
      requires Valid()
      modifies this`prefixPos, stream
      ensures Valid() && Advanced(r == Failed(IoError))
      ensures Scanned(DataEnd(stream.wire, old(Offset())), r, Offset())
    {
      var b := ReadByte();
      if b.Failed? {
        return Failed(b.error);
      }
      if b.value != CR {
        return Failed(InvalidChunk);
      }
      b := ReadByte();
      if b.Failed? {
        return Failed(b.error);
      }
      if b.value != LF {
        return Failed(InvalidChunk);
      }
      return Success(());
    }

    /** The control line of the current state. */
    method ReadControl(state: ChunkState) returns (next: Attempt<ChunkState>)
      requires Valid() && IsControl(state)
      modifies this`prefixPos, stream
      ensures Valid() && Advanced(next == Failed(IoError))
      ensures Scanned(ControlLine(stream.wire, old(Offset()), state), next, Offset())
    {
      hide SizeLine, TrailerLines, DataEnd;
      match state
      case Size =>
        var size := ReadChunkSize();
        if size.Failed? {
          return Failed(size.error);
        }
        return Success(AfterSize(size.value));
      case DataCrlf =>
        var end := ReadDataEnd();
        if end.Failed? {
          return Failed(end.error);
        }
        return Success(Size);
      case Trailers =>
        var end := SkipTrailers();
        if end.Failed? {
          return Failed(end.error);
        }
        return Success(Done);
    }

    /** `read_chunked`. */
    method ReadChunked(want: nat) returns (r: Attempt<Bytes>)
      requires Valid() && kind.Chunked?
      modifies this`prefixPos, this`kind, stream
      ensures Valid() && kind.Chunked? && Answered(want, r) && StopsInside(want, r)
      ensures r == Success([]) && want > 0 ==> kind.state.Done?
    {
      hide ChunkedRest, ChunkedCuts, ControlLine, InStep, InOrder, Places, Harmless, CutShort;
      PrependNothing(Rest());
      InStepSelf(stream.wire, Offset(), kind);
      if want == 0 {
        return Success([]);
      }
      while true
        invariant Valid() && kind.Chunked? && Advanced(false)
        invariant Rest() == old(Rest()) && InStep(stream.wire, old(Offset()), old(kind), Offset(), kind)
        invariant (Offset() == old(Offset()) && kind == old(kind)) || !CutShort(stream.wire, old(Offset()), old(kind), old(stream.troubles))
        decreases |stream.wire| - Offset(), Rank(kind.state)
      {
        var state := kind.state;
        CutShortFacts(stream.wire, Offset(), kind, stream.troubles, Offset());
        if state.Done? {
          RestDone(stream.wire, Offset());
          return Success([]);
        }
        if state.Data? {
          ghost var i := Offset();
          r := ReadData(want, state.remaining);
          StepTaken(stream.wire, old(Offset()), old(kind), i, Chunked(state), Offset(), kind);
          return;
        }
        ghost var i := Offset();
        var next := ReadControl(state);
        ControlFacts(stream.wire, i, state, Offset());
        CutShortFacts(stream.wire, i, kind, old(stream.troubles), Offset());
        if next.Failed? {
          CutFacts(stream.wire, old(Offset()), old(kind), i, state, Offset());
          return Failed(next.error);
        }
        kind := Chunked(next.value);
        InStepTrans(stream.wire, old(Offset()), old(kind), i, Chunked(state), Offset(), kind);
        if state.Trailers? {
          RestDone(stream.wire, Offset());
          return Success([]);
        }
      }
    }

    /** The data of a chunk: as much of it as one read gives. */
    method ReadData(want: nat, remaining: nat) returns (r: Attempt<Bytes>)
      requires Valid() && want > 0 && kind == Chunked(Data(remaining))
      modifies this`prefixPos, this`kind, stream
      ensures Valid() && kind.Chunked? && Answered(want, r) && r != Success([])
      ensures r.Failed? ==> Offset() == old(Offset()) && kind == old(kind)
    {
      hide ChunkedRest, ChunkedCuts, InStep, InOrder, Places, Harmless;
      var most := if remaining < want then remaining else want;
      ghost var i := Offset();
      InStepSelf(stream.wire, i, kind);
      DataEndBeyond(stream.wire, i, remaining);
      r := ReadRaw(most);
      if r.Failed? {
        return;
      }
      if r.value == [] {
        DataAtEnd(stream.wire, remaining);
        return Failed(UnexpectedEof);
      }
      var left := remaining - |r.value|;
      kind := Chunked(if left == 0 then DataCrlf else Data(left));
      DataTaken(stream.wire, i, remaining, |r.value|);
      InStepData(stream.wire, i, remaining, |r.value|);
    }

    method ReadSized(want: nat, left: nat) returns (r: Attempt<Bytes>)
      requires Valid() && kind == Sized(left)
      modifies this`prefixPos, this`kind, stream
      ensures Valid() && Answered(want, r) && kind.Sized?
    {
      hide Prepend, InOrder, Places, Harmless, ChunkedCuts, ChunkedRest;
      PrependNothing(Rest());
      if left == 0 || want == 0 {
        return Success([]);
      }
      var most := if left < want then left else want;
      ghost var i := Offset();
      r := ReadRaw(most);
      if r.Failed? {
        return;
      }
      if r.value == [] {
        return Failed(UnexpectedEof);
      }
      kind := Sized(left - |r.value|);
      SizedTaken(stream.wire, i, left, |r.value|);
    }

    /** `Read for Body`. */
    method Read(want: nat) returns (r: Attempt<Bytes>)
      requires Valid()
      modifies this`prefixPos, this`kind, stream
      ensures Valid() && Answered(want, r) && StopsInside(want, r) && kind.Chunked? == old(kind).Chunked?
      ensures kind.Chunked? && r == Success([]) && want > 0 ==> kind.state.Done?
    {
      hide ChunkedRest, ChunkedCuts, ControlLine;
      match kind
      case EmptyBody =>
        PrependNothing(Rest());
        return Success([]);
      case Sized(left) =>
        r := ReadSized(want, left);
      case Chunked(_) =>
        r := ReadChunked(want);
    }

    /** `drain`: reads to the end of the body, unless more than `cap` bytes are left. */
    method Drain(cap: nat) returns (r: Attempt<bool>)
      requires Valid()
      modifies this`prefixPos, this`kind, stream
      ensures Valid() && Advanced(r == Failed(IoError))
      ensures r == Success(true) ==> old(Rest()).status == Complete(Offset()) && |old(Rest()).payload| <= cap
      ensures old(Rest()).status.Complete? ==>
        if r == Failed(IoError) then Offset() < old(Rest()).status.end else r == Success(|old(Rest()).payload| <= cap)
    {
      hide Prepend, Cuts, InStep, CutShort;
      var total := 0;
      ghost var before := Rest();
      ghost var dropped: Bytes := [];
      PrependNothing(before);
      while true
        invariant Valid() && Advanced(false)
        invariant total == |dropped| <= cap && before == Prepend(dropped, Rest())
        decreases |stream.wire| - Offset()
      {
        ghost var rest := Rest();
        Prepended(dropped, rest);
        if kind.Sized? && kind.left > cap - total {
          SizedLeft(stream.wire, Offset(), kind.left);
          return Success(false);
        }
        var got := Read(4096);
        if got.Failed? {
          return Failed(got.error);
        }
        PrependPrepend(dropped, got.value, Rest());
        Prepended(dropped + got.value, Rest());
        if got.value == [] {
          return Success(true);
        }
        total := total + |got.value|;
        dropped := dropped + got.value;
        if total > cap {
          return Success(false);
        }
      }
    }
  }

  lemma Prepended(all: Bytes, o: Outcome)
    ensures Prepend(all, o).status == o.status && |Prepend(all, o).payload| == |all| + |o.payload| && all <= Prepend(all, o).payload
  {
  }

  function Positives(wants: seq<nat>): nat {
    if wants == [] then 0 else Positives(wants[..|wants| - 1]) + if wants[|wants| - 1] > 0 then 1 else 0
  }

  lemma PositivesStep(wants: seq<nat>, i: nat)
    requires i < |wants|
    ensures Positives(wants[..i + 1]) == Positives(wants[..i]) + if wants[i] > 0 then 1 else 0
  {
    assert wants[..i + 1][..i] == wants[..i];
  }

  /** One of the places is inside a control line of the body. */
  ghost predicate Cut(w: Bytes, i: nat, kind: BodyKind, places: set<nat>) {
    exists p :: p in places && Cuts(w, i, kind, p)
  }

  /** The bytes from `i` on are `all` and then what comes from `j` on, with the reader in step. */
  ghost predicate Onward(w: Bytes, i: nat, kind: BodyKind, all: Bytes, j: nat, next: BodyKind) {
    HttpFraming.Rest(w, i, kind) == Prepend(all, HttpFraming.Rest(w, j, next)) && InStep(w, i, kind, j, next)
  }

  /**
   * A reader that asks for the given numbers of bytes in turn, until the body ends or a read fails; one that
   * persists goes on after failed reads of the connection. What it gets is a first part of the payload, for the
   * persistent one if no place of trouble is inside a control line; then more positive numbers than there are
   * bytes and troubles reach its end.
   */
  method Consume(body: Body, wants: seq<nat>, persist: bool) returns (all: Bytes, last: Attempt<Bytes>)
    requires body.Valid()
    modifies body`prefixPos, body`kind, body.stream
    ensures body.Valid() && body.Offset() >= old(body.Offset()) && body.kind.Chunked? == old(body.kind).Chunked?
    ensures |body.stream.troubles| <= |old(body.stream.troubles)| && (old(body.stream.Patient()) ==> body.stream.Patient())
    ensures last == Failed(IoError) ==> !persist && !old(body.stream.Quiet()) && body.Offset() in body.stream.places
    ensures var w, i, kind0 := body.stream.wire, old(body.Offset()), old(body.kind);
            var o := HttpFraming.Rest(w, i, kind0);
            !persist || old(body.stream.Quiet()) || !Cut(w, i, kind0, body.stream.places) ==>
              && all <= o.payload
              && (last.Success? || (last == Failed(IoError) && !Cuts(w, i, kind0, body.Offset())) ==>
                  Onward(w, i, kind0, all, body.Offset(), body.kind))
              && (last.Failed? && last.error != IoError ==> !o.status.Complete?)
              && (last == Failed(IoError) && o.status.Complete? ==> body.Offset() < o.status.end)
              && (last == Success([]) ==> o == Outcome(all, Complete(body.Offset())) && (body.kind.Chunked? ==> body.kind.state.Done?))
              && ((persist || old(body.stream.Quiet())) && o.status.Complete? && Positives(wants) > |o.payload| + |old(body.stream.troubles)| ==>
                  last == Success([]))
  {
    hide Prepend, Cuts, InStep, CutShort, Positives, InOrder, Places, Harmless, Onward, Cut;
    all, last := [], Success([0]);
    ghost var w, i0, kind0 := body.stream.wire, body.Offset(), body.kind;
    ghost var safe := !persist || body.stream.Quiet() || !Cut(w, i0, kind0, body.stream.places);
    OnwardStart(w, i0, kind0);
    NoWants();
    var i := 0;
    assert wants[..0] == [];
    while i < |wants|
      invariant 0 <= i <= |wants| && body.Valid() && body.Offset() >= i0 && last == Success([0])
      invariant body.kind.Chunked? == kind0.Chunked? && |body.stream.troubles| <= |old(body.stream.troubles)|
      invariant old(body.stream.Patient()) ==> body.stream.Patient()
      invariant safe ==> Onward(w, i0, kind0, all, body.Offset(), body.kind)
      invariant safe ==> Positives(wants[..i]) <= |all| + |old(body.stream.troubles)| - |body.stream.troubles|
      invariant !persist || old(body.stream.Quiet()) ==> body.stream.troubles == old(body.stream.troubles)
    {
      ghost var at, kind := body.Offset(), body.kind;
      PositivesStep(wants, i);
      last := body.Read(wants[i]);
      if safe {
        OnwardRead(w, i0, kind0, all, at, kind, wants[i], last, body.Offset(), body.kind, body.stream.places);
      }
      i := i + 1;
      if last.Failed? {
        if last.error == IoError && persist {
          last := Success([0]);
          continue;
        }
        return;
      }
      all := all + last.value;
      if last.value == [] && wants[i - 1] > 0 {
        return;
      }
      last := Success([0]);
    }
    assert wants[..i] == wants;
    if safe {
      OnwardPrefix(w, i0, kind0, all, body.Offset(), body.kind);
    }
  }

  lemma OnwardStart(w: Bytes, i: nat, kind: BodyKind)
    ensures Onward(w, i, kind, [], i, kind)
  {
    PrependNothing(HttpFraming.Rest(w, i, kind));
  }

  lemma OnwardPrefix(w: Bytes, i: nat, kind: BodyKind, all: Bytes, j: nat, next: BodyKind)
    requires Onward(w, i, kind, all, j, next)
    ensures var o, rest := HttpFraming.Rest(w, i, kind), HttpFraming.Rest(w, j, next);
            all <= o.payload && o.status == rest.status && |o.payload| == |all| + |rest.payload|
  {
    Prepended(all, HttpFraming.Rest(w, j, next));
  }

  /** What a read says about a body that was read onward so far. */
  lemma OnwardRead(w: Bytes, i: nat, kind: BodyKind, all: Bytes, at: nat, mid: BodyKind, want: nat, r: Attempt<Bytes>, j: nat, next: BodyKind,
    places: set<nat>)
    requires Onward(w, i, kind, all, at, mid) && at <= j
    requires match r {
      case Success(b) =>
        && Taken(HttpFraming.Rest(w, at, mid), want, b, HttpFraming.Rest(w, j, next), j)
        && InStep(w, at, mid, j, next)
      case Failed(IoError) =>
        && (HttpFraming.Rest(w, at, mid).status.Complete? ==> j < HttpFraming.Rest(w, at, mid).status.end)
        && (!Cuts(w, at, mid, j) ==> HttpFraming.Rest(w, j, next) == HttpFraming.Rest(w, at, mid) && InStep(w, at, mid, j, next))
      case Failed(e) => Refused(HttpFraming.Rest(w, at, mid), e)
    }
    ensures var o := HttpFraming.Rest(w, i, kind);
            match r {
              case Success(b) =>
                && Onward(w, i, kind, all + b, j, next) && all + b <= o.payload
                && (b == [] && want > 0 ==> o == Outcome(all + b, Complete(j)))
              case Failed(IoError) =>
                && all <= o.payload && (o.status.Complete? ==> j < o.status.end)
                && (!Cuts(w, i, kind, j) ==> Onward(w, i, kind, all, j, next))
                && (j in places && !Cut(w, i, kind, places) ==> !Cuts(w, i, kind, j))
              case Failed(_) => all <= o.payload && !o.status.Complete?
            }
  {
    hide InStep, Prepend;
    var rest := HttpFraming.Rest(w, j, next);
    OnwardPrefix(w, i, kind, all, at, mid);
    StepTaken(w, i, kind, at, mid, j, next);
    if r.Success? {
      PrependPrepend(all, r.value, rest);
      Prepended(all + r.value, rest);
      EndReached(all + r.value, j);
    }
  }

  lemma NoWants()
    ensures Positives([]) == 0
  {
  }

  /** The reader stands before a control line, and the next trouble is inside it. */
  ghost predicate CutShort(w: Bytes, i: nat, kind: BodyKind, troubles: seq<Trouble>) {
    && kind.Chunked? && IsControl(kind.state) && troubles != []
    && ControlLine(w, i, kind.state).Line? && troubles[0].at < ControlLine(w, i, kind.state).next
  }

  /** Only a control line can be cut short, and not one that was read to its end. */
  lemma CutShortFacts(w: Bytes, i: nat, kind: BodyKind, troubles: seq<Trouble>, p: nat)
    ensures CutShort(w, i, kind, troubles) ==> kind.Chunked? && IsControl(kind.state) && troubles != [] && ControlLine(w, i, kind.state).Line?
    ensures CutShort(w, i, kind, troubles) && p == ControlLine(w, i, kind.state).next ==> troubles[0].at < p
  {
  }

  /** A read met the first trouble, at `p`. */
  ghost predicate Met(troubles: seq<Trouble>, p: nat, places: set<nat>) {
    troubles != [] && troubles[0].at == p && p in places
  }

  /** Past a control line the rest of the body and the control lines ahead are the same. */
  lemma ControlFacts(w: Bytes, i: nat, state: ChunkState, p: nat)
    requires IsControl(state) && i <= p
    ensures match ControlLine(w, i, state)
            case Line(next, j) => ChunkedRest(w, i, state) == ChunkedRest(w, j, next) && InStep(w, i, Chunked(state), j, Chunked(next))
            case BadLine => ChunkedRest(w, i, state) == Outcome([], Malformed)
            case CutLine => ChunkedRest(w, i, state) == Outcome([], CutOff)
    ensures state.Trailers? && ControlLine(w, i, state).Line? ==> ControlLine(w, i, state).value == Done
    ensures ControlLine(w, i, state).Line? && ChunkedRest(w, i, state).status.Complete? ==>
      ControlLine(w, i, state).next <= ChunkedRest(w, i, state).status.end
  {
    ControlRest(w, i, state);
    var s := ControlLine(w, i, state);
    if s.Line? {
      InStepLine(w, i, state);
      ChunkedRestEnd(w, s.next, s.value);
    }
  }

  /** A failed read cuts a control line of the body exactly when bytes of the line were taken. */
  lemma CutFacts(w: Bytes, i0: nat, kind: BodyKind, i: nat, state: ChunkState, p: nat)
    requires IsControl(state) && i <= p && (ControlLine(w, i, state).Line? ==> p < ControlLine(w, i, state).next)
    requires InStep(w, i0, kind, i, Chunked(state))
    ensures Cuts(w, i0, kind, p) <==> i < p
  {
    if Cuts(w, i, Chunked(state), p) {
      CutsLater(w, i, Chunked(state), p);
    }
  }

  lemma StepTaken(w: Bytes, i: nat, a: BodyKind, j: nat, b: BodyKind, k: nat, c: BodyKind)
    requires InStep(w, i, a, j, b)
    ensures InStep(w, j, b, k, c) ==> InStep(w, i, a, k, c)
    ensures k >= j ==> (Cuts(w, i, a, k) <==> Cuts(w, j, b, k))
  {
  }

  lemma DataEndBeyond(w: Bytes, i: nat, remaining: nat)
    requires remaining > 0 && i <= |w|
    ensures ChunkedRest(w, i, Data(remaining)).status.Complete? ==> i < ChunkedRest(w, i, Data(remaining)).status.end
  {
    if i + remaining <= |w| {
      ChunkedRestEnd(w, i + remaining, DataCrlf);
    }
  }

  lemma RestDone(w: Bytes, i: nat)
    ensures ChunkedRest(w, i, ChunkState.Done) == Outcome([], Complete(i))
    ensures Prepend([], ChunkedRest(w, i, ChunkState.Done)) == ChunkedRest(w, i, ChunkState.Done)
  {
    PrependNothing(ChunkedRest(w, i, ChunkState.Done));
  }

  lemma DataAtEnd(w: Bytes, remaining: nat)
    requires remaining > 0
    ensures ChunkedRest(w, |w|, Data(remaining)) == Outcome([], CutOff)
  {
  }

  lemma SizedLeft(w: Bytes, i: nat, left: nat)
    ensures HttpFraming.Rest(w, i, Sized(left)).status.Complete? ==> |HttpFraming.Rest(w, i, Sized(left)).payload| == left
  {
  }

  /** The rest of a size line whose digits ended at `first`. */
  function AfterDigits(w: Bytes, i: nat, first: Byte, size: nat, digits: nat): (s: Scan<nat>)
    ensures s.Line? ==> i < s.next <= |w|
  {
    if first == SEMICOLON then
      match SkipToCr(w, i)
      case Line(_, j) => EndOfSize(w, j, size, digits)
      case _ => CutLine
    else EndOfSize(w, i, size, digits)
  }

  lemma SizeLineStep(w: Bytes, i: nat, size: nat, digits: nat)
    ensures SizeLine(w, i, size, digits).Line? ==> i < SizeLine(w, i, size, digits).next
    ensures SizeLine(w, i, size, digits) ==
      if i >= |w| then CutLine
      else if HexValue(w[i]) >= 0 then
        (if digits + 1 > 16 then BadLine else SizeLine(w, i + 1, size * 16 + HexValue(w[i]), digits + 1))
      else if w[i] == SEMICOLON || w[i] == CR then AfterDigits(w, i + 1, w[i], size, digits)
      else BadLine
  {
  }

  lemma SliceOfSlice(w: Bytes, base: nat, len: nat, k: nat, n: nat)
    requires base + len <= |w| && k + n <= len
    ensures w[base..base + len][k..k + n] == w[base + k..base + k + n]
  {
    var a, b := w[base..base + len][k..k + n], w[base + k..base + k + n];
    assert |a| == |b| == n;
    forall t | 0 <= t < n ensures a[t] == b[t] {
      assert a[t] == w[base..base + len][k + t] == w[base + k + t];
    }
  }

  function KindOf(chunked: bool, contentLength: int): BodyKind {
    if chunked then Chunked(Size) else if contentLength > 0 then Sized(contentLength) else EmptyBody
  }
}
