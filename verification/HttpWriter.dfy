/** The chunked response writer, and the reader that takes its output back. */
module HttpWriter {
  import opened Octets
  import opened HttpFraming
  import opened HttpStream
  import opened HttpBody

  const STREAM_FLUSH_THRESHOLD := 8 * 1024
  const STREAM_RESPONSE_READ_SIZE := 16 * 1024

  /** A `ResponseWriter` whose header section went out with chunked framing. */
  class ChunkedWriter {
    const sink: Sink
    const isHead: bool
    var body: Bytes
    var finished: bool
    ghost var before: Bytes
    ghost var pieces: seq<Bytes>
    ghost var written: Bytes

    /** What was delivered since the stream began is the encoding of what was written and is not pending. */
    ghost predicate Sound()
      reads this, sink
    {
      && Pieces(pieces)
      && sink.delivered == before + (if isHead then [] else Encode(pieces))
      && (!isHead ==> Concat(pieces) + body == written)
    }

    constructor (sink: Sink, isHead: bool)
      ensures this.sink == sink && this.isHead == isHead && Sound() && !finished
      ensures before == sink.delivered && written == [] && body == []
    {
      this.sink := sink;
      this.isHead := isHead;
      body := [];
      finished := false;
      before := sink.delivered;
      pieces := [];
      written := [];
    }

    /** `flush_chunk`. */
    method FlushChunk() returns (ok: bool)
      requires Sound() && |body| < Pow16(16)
      modifies this`body, this`pieces, sink
      ensures ok ==> Sound() && body == [] && pieces == old(pieces) + (if isHead || old(body) == [] then [] else [old(body)])
      ensures old(sink.Accepting()) ==> ok && sink.Accepting()
    {
      hide Encode, Concat, Chunk, Hex, Pow16;
      if isHead || body == [] {
        body := [];
        return true;
      }
      ghost var sent := sink.delivered;
      var parts := [Hex(|body|) + CRLF, body, CRLF];
      ok := WriteAllVectored(sink, parts);
      if ok {
        ChunkParts(body);
        EncodeSnoc(pieces, body);
        ConcatSnoc(pieces, body);
        assert before + Encode(pieces) + Chunk(body) == before + (Encode(pieces) + Chunk(body));
        pieces := pieces + [body];
        body := [];
      }
    }

    /** `Write::write`. */
    method Write(data: Bytes) returns (ok: bool)
      requires Sound() && |body| + |data| < Pow16(16)
      modifies this`body, this`pieces, this`written, sink
      ensures ok ==> Sound() && written == old(written) + data && |body| < STREAM_FLUSH_THRESHOLD && |body| <= |old(body)| + |data|
      ensures |old(body)| + |data| < STREAM_FLUSH_THRESHOLD ==> ok && sink.delivered == old(sink.delivered) && body == old(body) + data
      ensures old(sink.Accepting()) ==> ok && sink.Accepting()
    {
      hide Encode, Concat, Pow16;
      Append(data);
      ok := true;
      if |body| >= STREAM_FLUSH_THRESHOLD {
        ok := FlushChunk();
      }
    }

    /** `write_body`, which only appends. */
    method Append(data: Bytes)
      requires Sound()
      modifies this`body, this`written
      ensures Sound() && written == old(written) + data && body == old(body) + data
    {
      hide Encode, Concat;
      assert Concat(pieces) + (body + data) == Concat(pieces) + body + data;
      body := body + data;
      written := written + data;
    }

    /** `finish` in streaming mode. */
    method Finish() returns (ok: bool)
      requires Sound() && |body| < Pow16(16) && !finished
      modifies this`body, this`pieces, this`finished, sink
      ensures finished
      ensures old(sink.Accepting()) ==> ok && sink.Accepting()
      ensures ok && isHead ==> sink.delivered == before
      ensures ok && !isHead ==> Pieces(pieces) && Concat(pieces) == written && sink.delivered == before + Encode(pieces) + LAST_CHUNK
    {
      hide Encode, Concat, Pow16;
      finished := true;
      ok := FlushChunk();
      if !ok || isHead {
        return;
      }
      ConcatOne(LAST_CHUNK);
      ok := WriteAllVectored(sink, [LAST_CHUNK]);
    }
  }

  lemma ConcatOne(x: Bytes)
    ensures Concat([x]) == x
  {
    ConcatSnoc([], x);
    assert [] + [x] == [x];
  }

  lemma ConcatThree(a: Bytes, b: Bytes, c: Bytes)
    ensures Concat([a, b, c]) == a + b + c
  {
    hide Concat;
    ConcatOne(a);
    ConcatSnoc([a], b);
    ConcatSnoc([a, b], c);
    assert [a] + [b] == [a, b] && [a, b] + [c] == [a, b, c];
  }

  lemma ChunkParts(p: Bytes)
    ensures Concat([Hex(|p|) + CRLF, p, CRLF]) == Chunk(p)
  {
    ConcatThree(Hex(|p|) + CRLF, p, CRLF);
    hide Hex, Concat;
  }

  lemma EncodeSnoc(ps: seq<Bytes>, p: Bytes)
    ensures Encode(ps + [p]) == Encode(ps) + Chunk(p)
  {
    assert (ps + [p])[..|ps|] == ps;
  }

  // ----- every use of the writer

  datatype WriteOp = WriteData(data: Bytes) | AppendData(data: Bytes) | Flush

  function Payload(ops: seq<WriteOp>): Bytes {
    if ops == [] then []
    else Payload(ops[..|ops| - 1]) + if ops[|ops| - 1].Flush? then [] else ops[|ops| - 1].data
  }

  lemma PayloadSnoc(ops: seq<WriteOp>, i: nat)
    requires i < |ops|
    ensures Payload(ops[..i + 1]) == Payload(ops[..i]) + if ops[i].Flush? then [] else ops[i].data
    ensures |Payload(ops[..i + 1])| <= |Payload(ops)|
    decreases |ops|
  {
    assert ops[..i + 1][..i] == ops[..i];
    if i + 1 < |ops| {
      var front := ops[..|ops| - 1];
      PayloadSnoc(front, i);
      assert front[..i + 1] == ops[..i + 1];
    } else {
      assert ops[..i + 1] == ops;
    }
  }

  /** Every sequence of writes and flushes, then `finish`: the bytes are one encoding of the payload. */
  method WriteResponse(sink: Sink, isHead: bool, ops: seq<WriteOp>) returns (ok: bool)
    requires |Payload(ops)| < Pow16(16)
    modifies sink
    ensures ok && isHead ==> sink.delivered == old(sink.delivered)
    ensures ok && !isHead ==> Encodes(sink.delivered, old(sink.delivered), Payload(ops))
    ensures old(sink.Accepting()) ==> ok && sink.Accepting()
  {
    hide Encode, Concat, Payload, Pow16;
    var writer := new ChunkedWriter(sink, isHead);
    var i := 0;
    NoOps();
    assert ops[..0] == [];
    while i < |ops|
      invariant 0 <= i <= |ops| && writer.Sound() && !writer.finished && writer.before == old(sink.delivered)
      invariant writer.sink == sink && writer.isHead == isHead && fresh(writer)
      invariant writer.written == Payload(ops[..i]) && |writer.body| <= |writer.written|
      invariant old(sink.Accepting()) ==> sink.Accepting()
      decreases |ops| - i
    {
      PayloadSnoc(ops, i);
      match ops[i] {
        case WriteData(data) =>
          ok := writer.Write(data);
          if !ok {
            return;
          }
        case AppendData(data) => writer.Append(data);
        case Flush =>
          ok := writer.FlushChunk();
          if !ok {
            return;
          }
      }
      i := i + 1;
    }
    assert ops[..i] == ops;
    ok := writer.Finish();
  }

  lemma NoOps()
    ensures Payload([]) == []
  {
  }

  /** `after` is `before` and one chunked encoding of `payload`. */
  ghost predicate Encodes(after: Bytes, before: Bytes, payload: Bytes) {
    exists ps: seq<Bytes> {:trigger Encode(ps)} :: Pieces(ps) && Concat(ps) == payload && after == before + Encode(ps) + LAST_CHUNK
  }

  /** Any encoding of the payload is read as the payload, up to its end and no further. */
  lemma EncodesRead(after: Bytes, before: Bytes, payload: Bytes, tail: Bytes)
    requires Encodes(after, before, payload)
    ensures ChunkedRest(after + tail, |before|, Size) == Outcome(payload, Complete(|after|))
  {
    hide ChunkedRest, Encode, Concat, Pieces;
    var ps: seq<Bytes> :| Pieces(ps) && Concat(ps) == payload && after == before + Encode(ps) + LAST_CHUNK;
    EncodingRead(before, ps, after, tail);
  }

  /** One block as a chunk. */
  method SendBlock(sink: Sink, block: Bytes, ghost before: Bytes, ghost ps: seq<Bytes>) returns (ok: bool)
    requires sink.delivered == before + Encode(ps)
    modifies sink
    ensures ok ==> sink.delivered == before + Encode(ps + [block])
    ensures old(sink.Accepting()) ==> ok && sink.Accepting()
  {
    hide Encode, Concat, Chunk, Hex;
    ok := WriteAllVectored(sink, [Hex(|block|) + CRLF, block, CRLF]);
    ChunkParts(block);
    EncodeSnoc(ps, block);
    assert before + Encode(ps) + Chunk(block) == before + (Encode(ps) + Chunk(block));
  }

  /** The pieces sent so far are the source's bytes from `start` to `at`. */
  ghost predicate Relayed(delivered: Bytes, before: Bytes, ps: seq<Bytes>, w: Bytes, start: nat, at: nat) {
    start <= at <= |w| && Pieces(ps) && delivered == before + Encode(ps) && Concat(ps) == w[start..at]
  }

  lemma RelayedNone(before: Bytes, w: Bytes, start: nat)
    requires start <= |w|
    ensures Relayed(before, before, [], w, start, start)
  {
    assert before + [] == before;
  }

  lemma RelayedMore(delivered: Bytes, before: Bytes, ps: seq<Bytes>, w: Bytes, start: nat, at: nat, n: nat)
    requires start <= at && at + n <= |w| && 0 < n <= STREAM_RESPONSE_READ_SIZE
    requires Pieces(ps) && Concat(ps) == w[start..at] && delivered == before + Encode(ps + [w[at..at + n]])
    ensures Relayed(delivered, before, ps + [w[at..at + n]], w, start, at + n)
  {
    hide Encode, Concat, Pow16;
    BlockIsPiece(n);
    ConcatSnoc(ps, w[at..at + n]);
    SlicesMeet(w, start, at, at + n);
  }

  lemma RelayedAll(delivered: Bytes, before: Bytes, ps: seq<Bytes>, w: Bytes, start: nat)
    requires Relayed(delivered, before, ps, w, start, |w|)
    ensures Encodes(delivered + LAST_CHUNK, before, w[start..])
  {
    hide Encode, Concat;
    assert w[start..|w|] == w[start..];
  }

  /** The body loop of `stream_response`: one chunk for each block read, whatever the block sizes. */
  method StreamBlocks(sink: Sink, source: Stream) returns (ok: bool)
    requires source.Valid()
    modifies sink, source
    ensures source.Valid()
    ensures ok ==> source.pos == |source.wire| && Encodes(sink.delivered, old(sink.delivered), source.wire[old(source.pos)..])
    ensures old(sink.Accepting()) && old(source.Quiet()) ==> ok
  {
    hide Encode, Concat, Encodes;
    ghost var ps: seq<Bytes> := [];
    ghost var before := sink.delivered;
    ghost var start := source.pos;
    RelayedNone(before, source.wire, start);
    while true
      invariant source.Valid() && Relayed(sink.delivered, before, ps, source.wire, start, source.pos)
      invariant old(sink.Accepting()) && old(source.Quiet()) ==> sink.Accepting() && source.Quiet()
      decreases |source.wire| - source.pos
    {
      ghost var at := source.pos;
      var block := source.Read(STREAM_RESPONSE_READ_SIZE);
      if !block.Got? {
        return false;
      }
      if block.bytes == [] {
        break;
      }
      ok := SendBlock(sink, block.bytes, before, ps);
      if !ok {
        return;
      }
      RelayedMore(sink.delivered, before, ps, source.wire, start, at, |block.bytes|);
      ps := ps + [block.bytes];
    }
    ConcatOne(LAST_CHUNK);
    RelayedAll(sink.delivered, before, ps, source.wire, start);
    ok := WriteAllVectored(sink, [LAST_CHUNK]);
  }

  lemma SlicesMeet(w: Bytes, i: nat, j: nat, k: nat)
    requires i <= j <= k <= |w|
    ensures w[i..j] + w[j..k] == w[i..k]
  {
  }

  lemma BlockIsPiece(n: nat)
    requires n <= STREAM_RESPONSE_READ_SIZE
    ensures n < Pow16(16)
  {
    assert Pow16(4) == 65536;
    assert Pow16(8) > 65536 by {
      assert Pow16(6) == 16 * (16 * Pow16(4));
    }
    assert Pow16(12) > Pow16(8) by {
      assert Pow16(10) == 16 * (16 * Pow16(8));
    }
    assert Pow16(16) > Pow16(12) by {
      assert Pow16(14) == 16 * (16 * Pow16(12));
    }
  }

  /**
   * A response written in any pieces over a connection that accepts any amounts, and read back in any
   * pieces with any buffer sizes. The wire holds one encoding of the payload before the tail. The reader gets a
   * first part of the payload; at its end it has all of it, stands exactly after the encoding, and is in its
   * final state. It gets there with more positive sizes than there are bytes and troubles, if it persists or
   * there are none. For a reader that persists no trouble may be inside a control line.
   */
  method WriteThenRead(ops: seq<WriteOp>, accepts: seq<WriteEvent>, sizes: seq<nat>, troubles: seq<Trouble>,
    wants: seq<nat>, persist: bool, tail: Bytes)
    returns (sent: bool, wire: Bytes, all: Bytes, last: Attempt<Bytes>, consumed: nat, kind: BodyKind)
    requires |Payload(ops)| < Pow16(16) && InOrder(troubles)
    ensures AllAccept(accepts) ==> sent
    ensures sent ==> |tail| <= |wire| && wire[|wire| - |tail|..] == tail && Encodes(wire[..|wire| - |tail|], [], Payload(ops))
    ensures sent && (!persist || troubles == [] || !Cut(wire, 0, Chunked(Size), Places(troubles))) ==>
      && all <= Payload(ops) && (last.Success? || last.error == IoError)
      && (last == Success([]) ==> all == Payload(ops) && consumed == |wire| - |tail| && kind == Chunked(ChunkState.Done))
      && ((persist || troubles == []) && Positives(wants) > |Payload(ops)| + |troubles| ==> last == Success([]))
  {
    hide ChunkedRest, Payload, Encode, Concat, Encodes, Positives, InStep, Cuts, Cut, InOrder, Places;
    var sink := new Sink(accepts);
    sent := WriteResponse(sink, false, ops);
    wire := sink.delivered + tail;
    all, last, consumed, kind := [], Success([]), 0, EmptyBody;
    if !sent {
      return;
    }
    assert wire[..|wire| - |tail|] == sink.delivered && wire[|wire| - |tail|..] == tail;
    EncodesRead(sink.delivered, [], Payload(ops), tail);
    var stream := new Stream(wire, sizes, troubles);
    var body := new Body(stream, [], true, 0, 0);
    all, last := Consume(body, wants, persist);
    consumed, kind := stream.pos, body.kind;
  }

  ghost predicate AllAccept(accepts: seq<WriteEvent>) {
    forall k :: 0 <= k < |accepts| ==> accepts[k] == Interrupt || (accepts[k].Accept? && accepts[k].most > 0)
  }
}
