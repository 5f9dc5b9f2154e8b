/** Runs that show where the way the bytes arrive makes a difference. */
module HttpWitness {
  import opened Octets
  import opened Options
  import opened HttpFraming
  import opened HttpStream
  import opened HttpBody
  import opened HttpConn

  // ----- a failed read inside a size line

  /** A body of one chunk of sixteen bytes that starts with a line break. */
  function CutWire(): Bytes {
    [49, 48, CR, LF, CR, LF] + seq(14, _ => 65) + CRLF + LAST_CHUNK
  }

  /** The size line, whole and taken up after its first digit. */
  lemma CutWireLines()
    ensures var w := CutWire();
            && |w| == 27 && ControlLine(w, 0, Size) == Line(Data(16), 4)
            && SizeLine(w, 1, 0, 0) == Line(0, 4) && TrailerLines(w, 4, 0) == Line((), 6)
  {
    var w := CutWire();
    assert SizeLine(w, 2, 16, 2) == Line(16, 4);
    assert SizeLine(w, 1, 1, 1) == Line(16, 4);
    assert SizeLine(w, 0, 0, 0) == Line(16, 4);
    assert SizeLine(w, 2, 0, 1) == Line(0, 4);
    assert TrailerLines(w, 5, 0) == Line((), 6);
  }

  lemma CutWireBodies()
    ensures ChunkedRest(CutWire(), 0, Size) == Outcome(CutWire()[4..20], Complete(27))
    ensures ChunkedRest(CutWire(), 1, Size) == Outcome([], Complete(6))
  {
    var w := CutWire();
    CutWireLines();
    assert At(w, 22, LAST_CHUNK);
    LastChunkRead(w, 22);
    assert DataEnd(w, 20) == Line((), 22);
    assert ChunkedRest(w, 20, DataCrlf) == ChunkedRest(w, 22, Size);
    assert ChunkedRest(w, 4, Data(16)) == Prepend(w[4..20], ChunkedRest(w, 20, DataCrlf));
    EndReached(w[4..20], 27);
    assert ChunkedRest(w, 4, Trailers) == ChunkedRest(w, 6, ChunkState.Done);
  }

  /**
   * The connection gives one byte, fails once, and then gives everything. The read in between fails inside the
   * size line; the next one reports the end of the body after six of its twenty-seven bytes.
   */
  method FailedReadLosesPlace() returns (first: Attempt<Bytes>, second: Attempt<Bytes>, consumed: nat)
    ensures first == Failed(IoError) && second == Success([]) && consumed == 6
    ensures ChunkedRest(CutWire(), 0, Size) == Outcome(CutWire()[4..20], Complete(27))
  {
    hide ChunkedRest, ChunkedCuts, ControlLine, CutWire, InStep, Places;
    CutWireLines();
    CutWireBodies();
    var stream := new Stream(CutWire(), [], [Trouble(1, Fault)]);
    var body := new Body(stream, [], true, 0, 0);
    first := body.Read(1);
    assert body.Offset() == 1 && stream.Quiet();
    second := body.Read(1);
    consumed := stream.pos;
  }

  // ----- a head between 64 KiB and 68 KiB

  /** A head of 65538 bytes: two more than the limit. */
  function LongHead(): Bytes {
    seq(65534, _ => 65) + [CR, LF, CR, LF]
  }

  lemma LongHeadEnd()
    ensures |LongHead()| == 65538 && HeadEnd(LongHead(), 0) == Some(65538)
  {
    var w := LongHead();
    assert EmptyLineAt(w, 65534);
    assert NoneBetween(w, 0, 65534);
    HeadEndUnique(w, 0, 65534);
  }

  /** The same head arrives in full reads and in single bytes: it is accepted, and it is refused. */
  method ArrivalDecides() returns (full: HeadStatus, single: HeadStatus)
    ensures full == HeadComplete(65538) && single == TooLarge
  {
    hide HeadEnd, LongHead;
    LongHeadEnd();
    var w := LongHead();
    var buf: Bytes;
    var fast := new Stream(w, [], []);
    full, buf := ReadHead(fast, [], 0);
    FullReadsFit(w, fast.stops);
    var slow := new Stream(w, seq(65538, _ => 1), []);
    single, buf := ReadHead(slow, [], 0);
    ghost var pos, stops := slow.pos, slow.stops;
    assert single != TooLarge ==> pos == 65538;
    assert single != TooLarge ==> 65537 in stops;
    assert OverLimit(w, 0, 65537);
  }

  lemma FullReadsFit(w: Bytes, stops: set<nat>)
    requires HeadEnd(w, 0) == Some(65538) && |w| == 65538 && EndsEven(0, stops, |w|)
    ensures !Crosses(w, 0, 0, stops)
  {
    hide HeadEnd;
    forall b | b in stops ensures !OverLimit(w, 0, b) {
    }
  }
}
