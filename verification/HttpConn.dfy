/** The keep-alive loop of a connection: heads, bodies, and the leftovers between them. */
module HttpConn {
  import opened Octets
  import opened Options
  import opened HttpFraming
  import opened HttpStream
  import opened HttpBody

  const MAX_HEAD_SIZE := 64 * 1024
  const HEAD_READ_CHUNK := 4 * 1024
  const DRAIN_CAP := 0x10_0000

  // ----- the end of a head

  /** An empty line: the four bytes that end a header section. */
  predicate EmptyLineAt(w: Bytes, i: nat) {
    i + 4 <= |w| && w[i] == CR && w[i + 1] == LF && w[i + 2] == CR && w[i + 3] == LF
  }

  ghost predicate NoneBetween(w: Bytes, from: nat, to: nat) {
    forall i :: from <= i < to ==> !EmptyLineAt(w, i)
  }

  /** The position after the first empty line at or after `start`. */
  function HeadEnd(w: Bytes, start: nat): (r: Option<nat>)
    ensures r.Some? ==> start + 4 <= r.value <= |w| && EmptyLineAt(w, r.value - 4) && NoneBetween(w, start, r.value - 4)
    ensures r.None? ==> NoneBetween(w, start, |w|)
    decreases |w| - start
  {
    if start + 4 > |w| then None
    else if EmptyLineAt(w, start) then Some(start + 4)
    else HeadEnd(w, start + 1)
  }

  lemma HeadEndUnique(w: Bytes, start: nat, i: nat)
    requires start <= i && EmptyLineAt(w, i) && NoneBetween(w, start, i)
    ensures HeadEnd(w, start) == Some(i + 4)
    decreases i - start
  {
    if start < i {
      assert !EmptyLineAt(w, start);
      HeadEndUnique(w, start + 1, i);
    }
  }

  /** `find_head_end`. */
  method FindHeadEnd(buf: Bytes, from: nat) returns (r: Option<nat>)
    requires from <= |buf|
    ensures r.Some? ==> from + 4 <= r.value <= |buf| && EmptyLineAt(buf, r.value - 4) && NoneBetween(buf, from, r.value - 4)
    ensures r.None? ==> NoneBetween(buf, from, |buf|)
  {
    var i := from;
    while i + 4 <= |buf|
      invariant from <= i <= |buf| && NoneBetween(buf, from, i)
    {
      if EmptyLineAt(buf, i) {
        return Some(i + 4);
      }
      i := i + 1;
    }
    return None;
  }

  datatype HeadStatus = HeadComplete(end: nat) | CleanEof | Truncated | TooLarge | Io

  /** A read ended at `b`, above the limit and before the head does. */
  ghost predicate OverLimit(w: Bytes, start: nat, b: nat) {
    b > start + MAX_HEAD_SIZE && (HeadEnd(w, start).Some? ==> b < HeadEnd(w, start).value)
  }

  /** Of the reads that ended at `stops`, from a buffer that reached to `from`, one ended over the limit. */
  ghost predicate Crosses(w: Bytes, start: nat, from: nat, stops: set<nat>) {
    exists b :: (b == from || b in stops) && b >= from && OverLimit(w, start, b)
  }

  /** None of them that ended before `pos` did. */
  ghost predicate NoneOver(w: Bytes, start: nat, from: nat, stops: set<nat>, pos: nat) {
    forall b :: (b == from || b in stops) && from <= b < pos ==> !OverLimit(w, start, b)
  }

  /** A position where a read for the head may fail: before the head ends. */
  ghost predicate InHead(w: Bytes, start: nat, p: nat) {
    start <= p && (HeadEnd(w, start).Some? ==> p < HeadEnd(w, start).value)
  }

  /** What a head reading may report, given where the first head on the wire ends. */
  ghost predicate HeadReported(w: Bytes, start: nat, pos: nat, status: HeadStatus) {
    match status
    case HeadComplete(end) => HeadEnd(w, start) == Some(start + end) && start + end <= pos
    case CleanEof => start == pos == |w|
    case Truncated => HeadEnd(w, start) == None && pos == |w|
    case TooLarge => OverLimit(w, start, pos)
    case Io => true
  }

  /** The buffer holds the bytes from `start` to where the stream stands. */
  ghost predicate Buffered(buf: Bytes, w: Bytes, start: nat, pos: nat) {
    start <= pos <= |w| && buf == w[start..pos]
  }

  lemma BufferedEmptyLine(buf: Bytes, w: Bytes, start: nat, pos: nat, i: nat)
    requires Buffered(buf, w, start, pos) && i + 4 <= |buf|
    ensures EmptyLineAt(buf, i) <==> EmptyLineAt(w, start + i)
  {
    assert forall k :: 0 <= k < |buf| ==> buf[k] == w[start + k];
  }

  lemma BufferedNone(buf: Bytes, w: Bytes, start: nat, pos: nat, to: nat)
    requires Buffered(buf, w, start, pos) && NoneBetween(buf, 0, to) && to <= |buf|
    ensures forall i :: start <= i < start + to && i + 4 <= pos ==> !EmptyLineAt(w, i)
  {
    forall i | start <= i < start + to && i + 4 <= pos ensures !EmptyLineAt(w, i) {
      BufferedEmptyLine(buf, w, start, pos, i - start);
    }
  }

  /** A head found in the buffer is the first head on the wire. */
  lemma FoundHead(buf: Bytes, w: Bytes, start: nat, pos: nat, end: nat)
    requires Buffered(buf, w, start, pos) && 4 <= end <= |buf| && EmptyLineAt(buf, end - 4) && NoneBetween(buf, 0, end - 4)
    ensures HeadEnd(w, start) == Some(start + end)
  {
    BufferedEmptyLine(buf, w, start, pos, end - 4);
    BufferedNone(buf, w, start, pos, end - 4);
    HeadEndUnique(w, start, start + end - 4);
  }

  /** No head in the buffer: the first head on the wire, if any, ends after it. */
  lemma MissingHead(buf: Bytes, w: Bytes, start: nat, pos: nat)
    requires Buffered(buf, w, start, pos) && NoneBetween(buf, 0, |buf|)
    ensures HeadEnd(w, start).Some? ==> HeadEnd(w, start).value > pos
  {
    BufferedNone(buf, w, start, pos, |buf|);
  }

  /** Growing the buffer keeps what was scanned, up to the last three bytes. */
  lemma ScannedKept(buf: Bytes, more: Bytes)
    requires NoneBetween(buf, 0, |buf|)
    ensures NoneBetween(buf + more, 0, if |buf| >= 3 then |buf| - 3 else 0)
  {
    forall i | 0 <= i < |buf| - 3 ensures !EmptyLineAt(buf + more, i) {
      assert !EmptyLineAt(buf, i);
    }
  }

  lemma NoneJoined(w: Bytes, from: nat, mid: nat, to: nat)
    requires NoneBetween(w, from, mid) && NoneBetween(w, mid, to)
    ensures NoneBetween(w, from, to)
  {
  }

  // ----- how the ends of reads follow from the sizes

  ghost predicate OneByteReads(sizes: seq<nat>, n: int) {
    |sizes| >= n && forall k :: 0 <= k < |sizes| ==> sizes[k] == 1
  }

  /** Without troubles: reads without given sizes end at multiples of the chunk, and those of single bytes everywhere. */
  ghost predicate Paced(sizes0: seq<nat>, from: nat, sizes: seq<nat>, stops: set<nat>, pos: nat, len: nat) {
    && (sizes0 == [] ==> sizes == [] && EndsEven(from, stops, len) && ((pos - from) % HEAD_READ_CHUNK == 0 || pos == len))
    && (OneByteReads(sizes0, len - from) ==> OneByteReads(sizes, len - pos) && forall b :: from < b <= pos ==> b in stops)
  }

  ghost predicate EndsEven(from: nat, stops: set<nat>, len: nat) {
    forall b :: b in stops && b > from ==> (b - from) % HEAD_READ_CHUNK == 0 || b == len
  }

  lemma PacedStart(sizes: seq<nat>, stops: set<nat>, pos: nat, len: nat)
    requires forall b :: b in stops ==> b <= pos
    ensures Paced(sizes, pos, sizes, stops, pos, len)
  {
  }

  /** One more read that gave `n` bytes. */
  lemma PacedRead(sizes0: seq<nat>, from: nat, sizes: seq<nat>, stops: set<nat>, pos: nat, len: nat, n: nat)
    requires from <= pos <= len && Paced(sizes0, from, sizes, stops, pos, len) && n == ReadSize(sizes, HEAD_READ_CHUNK, len - pos)
    ensures Paced(sizes0, from, Later(sizes), stops + {pos + n}, pos + n, len)
  {
    if OneByteReads(sizes0, len - from) && sizes != [] {
      assert sizes[0] == 1;
    }
    if sizes0 == [] && pos + n != len {
      assert n == HEAD_READ_CHUNK;
    }
  }

  // ----- reading a head

  lemma HeadWithin(w: Bytes, start: nat, pos: nat)
    requires HeadEnd(w, start).Some? && HeadEnd(w, start).value <= pos
    ensures !OverLimit(w, start, pos)
  {
  }

  lemma LimitReached(w: Bytes, start: nat, pos: nat)
    requires HeadEnd(w, start).Some? ==> HeadEnd(w, start).value > pos
    ensures OverLimit(w, start, pos) <==> pos > start + MAX_HEAD_SIZE
    ensures start <= pos ==> InHead(w, start, pos)
  {
  }

  lemma NoneCrosses(w: Bytes, start: nat, from: nat, stops: set<nat>, pos: nat)
    requires NoneOver(w, start, from, stops, pos) && !OverLimit(w, start, pos) && from <= pos && forall b :: b in stops ==> b <= pos
    ensures !Crosses(w, start, from, stops)
  {
  }

  lemma NoneOverMore(w: Bytes, start: nat, from: nat, stops: set<nat>, pos: nat, next: nat)
    requires NoneOver(w, start, from, stops, pos) && !OverLimit(w, start, pos) && from <= pos <= next && forall b :: b in stops ==> b <= pos
    ensures NoneOver(w, start, from, stops + {next}, next)
  {
  }

  /** What the loop of the head reading keeps. */
  ghost predicate HeadLoop(w: Bytes, start: nat, from: nat, sizes0: seq<nat>, calm: bool,
    buf: Bytes, pos: nat, stops: set<nat>, sizes: seq<nat>, troubles: seq<Trouble>)
  {
    && Buffered(buf, w, start, pos) && |buf| <= MAX_HEAD_SIZE + HEAD_READ_CHUNK
    && from <= pos && (pos == from || pos in stops) && NoneOver(w, start, from, stops, pos)
    && (calm ==> troubles == [] && Paced(sizes0, from, sizes, stops, pos, |w|))
  }

  datatype Fetched = More | Over(status: HeadStatus)

  /** One read for the head, with the buffer not over the limit and no head in it. */
  method Fetch(stream: Stream, buf0: Bytes, ghost start: nat, ghost from: nat, ghost sizes0: seq<nat>, ghost calm: bool)
    returns (f: Fetched, buf: Bytes)
    requires stream.Valid() && |buf0| <= MAX_HEAD_SIZE
    requires HeadLoop(stream.wire, start, from, sizes0, calm, buf0, stream.pos, stream.stops, stream.sizes, stream.troubles)
    requires HeadEnd(stream.wire, start).Some? ==> HeadEnd(stream.wire, start).value > stream.pos
    modifies stream
    ensures stream.Valid() && HeadLoop(stream.wire, start, from, sizes0, calm, buf, stream.pos, stream.stops, stream.sizes, stream.troubles)
    ensures old(stream.Patient()) ==> stream.Patient() && f != Over(Io)
    ensures buf0 <= buf && (f.Over? ==> buf == buf0 && f.status != TooLarge && !f.status.HeadComplete?)
    ensures f.Over? ==> HeadReported(stream.wire, start, stream.pos, f.status) && !Crosses(stream.wire, start, from, stream.stops)
    ensures f == Over(Io) ==> stream.pos in stream.places
    ensures |stream.troubles| <= |old(stream.troubles)|
    ensures f.More? ==> stream.pos > old(stream.pos) || (buf == buf0 && |stream.troubles| < |old(stream.troubles)|)
  {
    hide HeadEnd, OverLimit, Paced, ReadSize, NoneOver, Crosses, Later, InOrder, Places;
    ghost var w, pos, stops, sizes := stream.wire, stream.pos, stream.stops, stream.sizes;
    LimitReached(w, start, pos);
    NoneCrosses(w, start, from, stops, pos);
    buf := buf0;
    var r := stream.Read(HEAD_READ_CHUNK);
    match r
    case Got(b) =>
      if calm {
        PacedRead(sizes0, from, sizes, stops, pos, |w|, |b|);
      }
      NoneOverMore(w, start, from, stops, pos, stream.pos);
      BufferedMore(buf, w, start, pos, b);
      if b == [] {
        NoneCrosses(w, start, from, stream.stops, pos);
        MissingToEnd(w, start);
        return Over(if buf == [] then CleanEof else Truncated), buf;
      }
      return More, buf + b;
    case TimedOut(expired) =>
      return if expired then Over(Io) else More, buf;
    case ReadFailed =>
      return Over(Io), buf;
  }

  lemma MissingToEnd(w: Bytes, start: nat)
    ensures HeadEnd(w, start).Some? ==> HeadEnd(w, start).value <= |w|
  {
  }

  /** The loop may stop here: a whole head was found, or the buffer is over the limit. */
  lemma HeadDone(w: Bytes, start: nat, from: nat, stops: set<nat>, pos: nat)
    requires from <= pos && (pos == from || pos in stops) && NoneOver(w, start, from, stops, pos) && forall b :: b in stops ==> b <= pos
    ensures HeadEnd(w, start).Some? && HeadEnd(w, start).value <= pos ==> !Crosses(w, start, from, stops)
    ensures OverLimit(w, start, pos) ==> Crosses(w, start, from, stops)
  {
    hide HeadEnd;
    if HeadEnd(w, start).Some? && HeadEnd(w, start).value <= pos {
      HeadWithin(w, start, pos);
      NoneCrosses(w, start, from, stops, pos);
    }
  }

  /**
   * `read_head`. A head is refused as too large exactly when a read ends above 64 KiB and before the head
   * does. Failed reads leave the buffer as it is, and only a fault or an expired time-out ends the reading.
   */
  method ReadHead(stream: Stream, buf0: Bytes, ghost start: nat) returns (status: HeadStatus, buf: Bytes)
    requires stream.Valid() && Buffered(buf0, stream.wire, start, stream.pos) && |buf0| <= MAX_HEAD_SIZE + HEAD_READ_CHUNK
    modifies stream
    ensures stream.Valid() && stream.pos >= old(stream.pos)
    ensures Buffered(buf, stream.wire, start, stream.pos) && |buf| <= MAX_HEAD_SIZE + HEAD_READ_CHUNK
    ensures HeadReported(stream.wire, start, stream.pos, status)
    ensures status == TooLarge <==> Crosses(stream.wire, start, old(stream.pos), stream.stops)
    ensures old(stream.Patient()) ==> stream.Patient() && status != Io
    ensures status == Io ==> stream.pos in stream.places && InHead(stream.wire, start, stream.pos)
    ensures old(stream.Quiet()) ==>
      stream.Quiet() && Paced(old(stream.sizes), old(stream.pos), stream.sizes, stream.stops, stream.pos, |stream.wire|)
  {
    hide HeadEnd, OverLimit, Paced, InHead, NoneOver, Crosses, EmptyLineAt, NoneBetween, InOrder, Places;
    buf := buf0;
    var scanned := 0;
    ghost var w, from := stream.wire, stream.pos;
    PacedStart(stream.sizes, stream.stops, from, |w|);
    NothingOver(w, start, from, stream.stops);
    NothingScanned(buf);
    while true
      invariant stream.Valid() && 0 <= scanned <= |buf| && NoneBetween(buf, 0, scanned)
      invariant HeadLoop(w, start, from, old(stream.sizes), old(stream.Quiet()), buf, stream.pos, stream.stops, stream.sizes, stream.troubles)
      invariant old(stream.Patient()) ==> stream.Patient()
      decreases |w| - stream.pos, |stream.troubles|
    {
      ghost var pos := stream.pos;
      var found := FindHeadEnd(buf, scanned);
      NoneJoined(buf, 0, scanned, if found.Some? then found.value - 4 else |buf|);
      HeadDone(w, start, from, stream.stops, pos);
      if found.Some? {
        FoundHead(buf, w, start, pos, found.value);
        return HeadComplete(found.value), buf;
      }
      MissingHead(buf, w, start, pos);
      LimitReached(w, start, pos);
      scanned := if |buf| >= 3 then |buf| - 3 else 0;
      if |buf| > MAX_HEAD_SIZE {
        return TooLarge, buf;
      }
      var f, more := Fetch(stream, buf, start, from, old(stream.sizes), old(stream.Quiet()));
      if f.Over? {
        return f.status, buf;
      }
      ScannedKept(buf, more[|buf|..]);
      assert more == buf + more[|buf|..];
      buf := more;
    }
  }

  lemma NothingScanned(buf: Bytes)
    ensures NoneBetween(buf, 0, 0)
  {
  }

  lemma NothingOver(w: Bytes, start: nat, from: nat, stops: set<nat>)
    ensures NoneOver(w, start, from, stops, from)
  {
  }

  lemma BufferedMore(buf: Bytes, w: Bytes, start: nat, pos: nat, b: Bytes)
    requires Buffered(buf, w, start, pos) && pos + |b| <= |w| && b == w[pos..pos + |b|]
    ensures Buffered(buf + b, w, start, pos + |b|)
  {
  }

  // ----- the messages of a connection

  /** What the head parser says about a head: its framing and whether the connection is kept. */
  datatype Framing = Framing(chunked: bool, contentLength: int, keepAlive: bool, expectContinue: bool)

  type Parser = Bytes -> Option<Framing>

  datatype Message = Message(start: nat, headEnd: nat, framing: Framing, outcome: Outcome)

  function BodyOf(w: Bytes, headEnd: nat, f: Framing): Outcome {
    Rest(w, headEnd, KindOf(f.chunked, f.contentLength))
  }

  /** The messages on the wire from `start` on, whichever way the bytes arrive. */
  ghost function Messages(w: Bytes, start: nat, parse: Parser): seq<Message>
    requires start <= |w|
    decreases |w| - start
  {
    match HeadEnd(w, start)
    case None => []
    case Some(e) =>
      match parse(w[start..e])
      case None => []
      case Some(f) =>
        var o := BodyOf(w, e, f);
        RestEnd(w, e, KindOf(f.chunked, f.contentLength));
        [Message(start, e, f, o)] + if f.keepAlive && o.status.Complete? then Messages(w, o.status.end, parse) else []
  }

  /**
   * What the server does besides reading: the handler's reads and whether it goes on after failed ones, its
   * writes, and stopping.
   */
  datatype Plan = Plan(stop: bool, continueSent: bool, wants: seq<nat>, persist: bool, writeOk: bool)

  /** A request as the handler saw it: the head, its framing and the body bytes it read. */
  datatype Served = Served(head: Bytes, framing: Framing, data: Bytes)

  /**
   * The request is the message: its head, its framing, and the bytes the handler got, a first part of the
   * payload unless it went on after a read cut a control line, and all of it if no read fails and it asked on.
   */
  ghost predicate Fits(w: Bytes, s: Served, m: Message, plan: Plan, places: set<nat>) {
    && m.start <= m.headEnd <= |w| && s.head == w[m.start..m.headEnd] && s.framing == m.framing
    && (!plan.persist || !Disturbed(w, m, places) ==> s.data <= m.outcome.payload)
    && (places == {} && m.outcome.status.Complete? && Positives(plan.wants) > |m.outcome.payload| ==> s.data == m.outcome.payload)
  }

  ghost predicate WellFormed(ms: seq<Message>) {
    forall k :: 0 <= k < |ms| ==> ms[k].outcome.status.Complete?
  }

  /** Heads and bodies within the server's limits. */
  ghost predicate Small(ms: seq<Message>) {
    forall k :: 0 <= k < |ms| ==> ms[k].headEnd - ms[k].start <= MAX_HEAD_SIZE && |ms[k].outcome.payload| <= DRAIN_CAP
  }

  ghost predicate Willing(plan: nat -> Plan) {
    forall n: nat :: !plan(n).stop && plan(n).continueSent && plan(n).writeOk
  }

  /** A place of trouble is inside a control line of the message's body. */
  ghost predicate Disturbed(w: Bytes, m: Message, places: set<nat>) {
    Cut(w, m.headEnd, KindOf(m.framing.chunked, m.framing.contentLength), places)
  }

  /** A place of trouble is in the body of one of the messages. */
  ghost predicate BodyTroubled(ms: seq<Message>, places: set<nat>) {
    exists j, p :: 0 <= j < |ms| && p in places && InBody(ms[j], p)
  }

  ghost predicate InBody(m: Message, p: nat) {
    m.outcome.status.Complete? && m.headEnd <= p < m.outcome.status.end
  }

  /** The served requests fit the messages as far as no body before them is disturbed. */
  ghost predicate FirstFit(w: Bytes, log: seq<Served>, ms: seq<Message>, plan: nat -> Plan, places: set<nat>) {
    forall k :: 0 <= k < |log| && k < |ms| && (forall j :: 0 <= j < k ==> !Disturbed(w, ms[j], places)) ==>
      Fits(w, log[k], ms[k], plan(k), places)
  }

  lemma MessageNext(w: Bytes, start: nat, parse: Parser, e: nat, f: Framing)
    requires start <= |w| && HeadEnd(w, start) == Some(e) && parse(w[start..e]) == Some(f)
    ensures e <= |w| && var o := BodyOf(w, e, f);
            var m := Message(start, e, f, o);
            && (o.status.Complete? ==> e <= o.status.end <= |w|)
            && Messages(w, start, parse) == [m] + if f.keepAlive && o.status.Complete? then Messages(w, o.status.end, parse) else []
  {
    RestEnd(w, e, KindOf(f.chunked, f.contentLength));
  }

  /**
   * What frames a message: with chunked coding the chunked body, whatever the length says; without it the
   * given number of bytes, or none. The next message starts right after that.
   */
  lemma MessageFraming(w: Bytes, start: nat, parse: Parser, e: nat, f: Framing)
    requires start <= |w| && HeadEnd(w, start) == Some(e) && parse(w[start..e]) == Some(f)
    ensures var ms, n := Messages(w, start, parse), f.contentLength;
            && |ms| >= 1 && ms[0].start == start && ms[0].headEnd == e && ms[0].framing == f && e <= |w|
            && (f.chunked ==> ms[0].outcome == ChunkedRest(w, e, Size))
            && (!f.chunked && n <= 0 ==> ms[0].outcome == Outcome([], Complete(e)))
            && (!f.chunked && n > 0 && e + n <= |w| ==> ms[0].outcome == Outcome(w[e..e + n], Complete(e + n)))
            && (!f.chunked && n > 0 && e + n > |w| ==> ms[0].outcome == Outcome(w[e..], CutOff))
            && (var o := ms[0].outcome;
                if f.keepAlive && o.status.Complete? then o.status.end <= |w| && ms[1..] == Messages(w, o.status.end, parse) else |ms| == 1)
  {
    hide ChunkedRest, HeadEnd, Messages;
    MessageNext(w, start, parse, e, f);
  }

  // ----- serving

  /** One request past its head: the handler's reads, the response, the draining and the leftover bytes. */
  method ServeBody(stream: Stream, rest: Bytes, f: Framing, plan: Plan, ghost base: nat)
    returns (data: Bytes, kept: bool, used: nat, ghost next: nat)
    requires stream.Valid() && Buffered(rest, stream.wire, base, stream.pos)
    modifies stream
    ensures stream.Valid() && used <= |rest| && base <= next && Buffered(rest[used..], stream.wire, next, stream.pos)
    ensures kept ==> f.keepAlive && plan.writeOk
    ensures old(stream.Patient()) ==> stream.Patient()
    ensures var o, cut := BodyOf(stream.wire, base, f), Cut(stream.wire, base, KindOf(f.chunked, f.contentLength), stream.places);
            && (!plan.persist || !cut ==> data <= o.payload)
            && (stream.places == {} && o.status.Complete? && Positives(plan.wants) > |o.payload| ==> data == o.payload)
            && (kept && o.status.Complete? ==> next == o.status.end || cut)
            && (o.status.Complete? && |o.payload| <= DRAIN_CAP && plan.writeOk && f.keepAlive ==>
                kept || exists p :: p in stream.places && base <= p < o.status.end)
  {
    hide Rest, ChunkedRest, KindOf, Prepend, Cuts, InStep, Positives, Cut, InOrder, Onward;
    PlacesNone(stream.troubles, stream.places);
    hide Places;
    var body := new Body(stream, rest, f.chunked, f.contentLength, base);
    ghost var w, kind := stream.wire, body.kind;
    var last: Attempt<Bytes>;
    data, last := Consume(body, plan.wants, plan.persist);
    ghost var p, mid := body.Offset(), body.kind;
    var drained := false;
    if plan.writeOk {
      var d := body.Drain(DRAIN_CAP);
      drained := d == Success(true);
    }
    used := body.prefixPos;
    next := body.Offset();
    LeftOver(w, base, |rest|, used, stream.pos);
    kept := plan.writeOk && drained && f.keepAlive;
    CutWithin(w, base, kind, stream.places);
    if last.Success? || (last == Failed(IoError) && !Cuts(w, base, kind, p)) {
      if Onward(w, base, kind, data, p, mid) {
        OnwardPrefix(w, base, kind, data, p, mid);
      }
    }
    assert last == Failed(IoError) ==> p in stream.places;
  }

  lemma PlacesNone(troubles: seq<Trouble>, places: set<nat>)
    requires Places(troubles) <= places
    ensures places == {} ==> troubles == []
  {
    if troubles != [] {
      assert troubles[0] in troubles;
      assert troubles[0].at in Places(troubles);
    }
  }

  /** A cut control line is in the body; and so is a place where a read cuts one. */
  lemma CutWithin(w: Bytes, i: nat, kind: BodyKind, places: set<nat>)
    ensures Cut(w, i, kind, places) && Rest(w, i, kind).status.Complete? ==>
      exists p :: p in places && i <= p < Rest(w, i, kind).status.end
    ensures forall p :: p in places && Cuts(w, i, kind, p) ==> Cut(w, i, kind, places)
    ensures places == {} ==> !Cut(w, i, kind, places)
  {
    if Cut(w, i, kind, places) {
      var p :| p in places && Cuts(w, i, kind, p);
      CutsLater(w, i, kind, p);
    }
  }

  lemma LeftOver(w: Bytes, base: nat, len: nat, used: nat, pos: nat)
    requires base + len <= pos <= |w| && used <= len
    ensures used < len && pos == base + len ==> w[base..base + len][used..] == w[base + used..pos]
    ensures used == len ==> w[base..base + len][used..] == w[pos..pos]
  {
    SliceOfSlice(w, base, len, used, len - used);
  }

  // ----- the loop

  /**
   * What the loop vouches for: `done` are the first messages, served in order. The log goes beyond them only
   * when the reader is lost, after a message that was disturbed, or that is not whole and the last one.
   */
  ghost predicate Vouched(w: Bytes, ms: seq<Message>, log: seq<Served>, done: seq<Message>, lost: bool, plan: nat -> Plan, places: set<nat>) {
    && done <= ms && |done| <= |log| && (forall k :: 0 <= k < |done| ==> Fits(w, log[k], done[k], plan(k), places))
    && (!lost ==> |log| == |done|)
    && (lost ==> done != [] && (Disturbed(w, done[|done| - 1], places) || (|done| == |ms| && !done[|done| - 1].outcome.status.Complete?)))
  }

  /** Between messages: unless the reader is lost, those not yet served start at `start`. */
  ghost predicate Progress(w: Bytes, parse: Parser, ms: seq<Message>, start: nat, log: seq<Served>, done: seq<Message>, lost: bool, plan: nat -> Plan, places: set<nat>) {
    Vouched(w, ms, log, done, lost, plan, places) && (!lost ==> start <= |w| && ms == done + Messages(w, start, parse))
  }

  lemma ProgressStart(w: Bytes, parse: Parser, plan: nat -> Plan, places: set<nat>)
    ensures Progress(w, parse, Messages(w, 0, parse), 0, [], [], false, plan, places) && Vouched(w, Messages(w, 0, parse), [], [], false, plan, places)
  {
    var ms := Messages(w, 0, parse);
    assert ms == [] + ms;
  }

  /** The messages with the one at `start` in its place. */
  lemma MessagePlaced(w: Bytes, parse: Parser, ms: seq<Message>, start: nat, done: seq<Message>, e: nat, f: Framing)
    requires start <= |w| && ms == done + Messages(w, start, parse) && HeadEnd(w, start) == Some(e) && parse(w[start..e]) == Some(f)
    ensures var m := Message(start, e, f, BodyOf(w, e, f));
            var o := m.outcome;
            && done + [m] <= ms && ms[|done|] == m
            && (f.keepAlive && o.status.Complete? ==> o.status.end <= |w| && ms == done + [m] + Messages(w, o.status.end, parse))
            && (!f.keepAlive || !o.status.Complete? ==> ms == done + [m])
  {
    hide HeadEnd, BodyOf, Messages;
    MessageNext(w, start, parse, e, f);
    var m := Message(start, e, f, BodyOf(w, e, f));
    var after := if f.keepAlive && m.outcome.status.Complete? then Messages(w, m.outcome.status.end, parse) else [];
    assert done + ([m] + after) == done + [m] + after;
    assert (done + [m] + after)[..|done| + 1] == done + [m];
  }

  /** One more served request: of the next message, or of whatever a lost reader found. */
  lemma VouchedMore(w: Bytes, ms: seq<Message>, log: seq<Served>, done: seq<Message>, plan: nat -> Plan, places: set<nat>, s: Served, m: Message)
    ensures Vouched(w, ms, log, done, true, plan, places) ==> Vouched(w, ms, log + [s], done, true, plan, places)
    ensures Vouched(w, ms, log, done, false, plan, places) && done + [m] <= ms && Fits(w, s, m, plan(|log|), places) ==>
      && Vouched(w, ms, log + [s], done + [m], false, plan, places)
      && (Disturbed(w, m, places) || (ms == done + [m] && !m.outcome.status.Complete?) ==> Vouched(w, ms, log + [s], done + [m], true, plan, places))
  {
    hide Disturbed, Fits;
    var l, d := log + [s], done + [m];
    assert forall k :: 0 <= k < |log| ==> l[k] == log[k];
    assert forall k :: 0 <= k < |done| ==> d[k] == done[k];
    assert d[|d| - 1] == m && l[|log|] == s;
  }

  /** Why the connection may end before message `k`: something about it, or about the message before it. */
  ghost predicate Ended(ms: seq<Message>, k: nat, plan: nat -> Plan, patient: bool, places: set<nat>)
    requires k < |ms|
  {
    || plan(k).stop || (ms[k].framing.expectContinue && !plan(k).continueSent)
    || ms[k].headEnd - ms[k].start > MAX_HEAD_SIZE
    || (!patient && exists p :: p in places && ms[k].start <= p < ms[k].headEnd)
    || (k > 0 && (!plan(k - 1).writeOk || |ms[k - 1].outcome.payload| > DRAIN_CAP || exists p :: p in places && InBody(ms[k - 1], p)))
  }

  /** The connection served every message, or ended for a reason, or after a disturbed body. */
  ghost predicate Explained(w: Bytes, ms: seq<Message>, log: seq<Served>, plan: nat -> Plan, patient: bool, places: set<nat>) {
    |log| < |ms| ==> Ended(ms, |log|, plan, patient, places) || exists j :: 0 <= j < |log| && Disturbed(w, ms[j], places)
  }

  /** The conditions under which every message is served. */
  ghost predicate Undisturbed(ms: seq<Message>, plan: nat -> Plan, places: set<nat>) {
    WellFormed(ms) && Small(ms) && Willing(plan) && !BodyTroubled(ms, places)
  }

  lemma DisturbedInBody(w: Bytes, m: Message, places: set<nat>)
    requires Disturbed(w, m, places) && m.outcome == BodyOf(w, m.headEnd, m.framing) && m.outcome.status.Complete?
    ensures exists p :: p in places && InBody(m, p)
  {
    var kind := KindOf(m.framing.chunked, m.framing.contentLength);
    var p :| p in places && Cuts(w, m.headEnd, kind, p);
    CutsLater(w, m.headEnd, kind, p);
    assert InBody(m, p);
  }

  lemma {:induction false} MessageBodies(w: Bytes, start: nat, parse: Parser, k: nat)
    requires start <= |w| && k < |Messages(w, start, parse)|
    ensures var m := Messages(w, start, parse)[k]; m.outcome == BodyOf(w, m.headEnd, m.framing)
    decreases |w| - start
  {
    hide Rest, KindOf;
    var e := HeadEnd(w, start).value;
    var f := parse(w[start..e]).value;
    MessageNext(w, start, parse, e, f);
    if k > 0 {
      MessageBodies(w, BodyOf(w, e, f).status.end, parse, k - 1);
    }
  }

  /** A lost reader is an explanation. */
  lemma LostExplains(w: Bytes, ms: seq<Message>, log: seq<Served>, done: seq<Message>, plan: nat -> Plan, places: set<nat>, patient: bool)
    requires Vouched(w, ms, log, done, true, plan, places)
    ensures Explained(w, ms, log, plan, patient, places)
  {
    hide Disturbed, Ended;
    assert done[|done| - 1] == ms[|done| - 1];
  }

  /** Without troubles in bodies and within the limits nothing explains an early end. */
  lemma AllServed(w: Bytes, parse: Parser, log: seq<Served>, done: seq<Message>, lost: bool, plan: nat -> Plan, places: set<nat>)
    requires Undisturbed(Messages(w, 0, parse), plan, places)
    requires Explained(w, Messages(w, 0, parse), log, plan, true, places) && Vouched(w, Messages(w, 0, parse), log, done, lost, plan, places)
    ensures |log| == |Messages(w, 0, parse)|
  {
    hide Messages, Vouched;
    var ms := Messages(w, 0, parse);
    forall j | 0 <= j < |ms| ensures !Disturbed(w, ms[j], places) {
      if Disturbed(w, ms[j], places) {
        MessageBodies(w, 0, parse, j);
        DisturbedInBody(w, ms[j], places);
      }
    }
    VouchedFits(w, ms, log, done, lost, plan, places);
  }

  /** What the loop vouches for at the end. */
  lemma VouchedFits(w: Bytes, ms: seq<Message>, log: seq<Served>, done: seq<Message>, lost: bool, plan: nat -> Plan, places: set<nat>)
    requires Vouched(w, ms, log, done, lost, plan, places)
    ensures FirstFit(w, log, ms, plan, places)
    ensures WellFormed(ms) && (forall j :: 0 <= j < |ms| ==> !Disturbed(w, ms[j], places)) ==> |log| <= |ms|
  {
    hide Disturbed, Fits;
    if lost {
      assert done[|done| - 1] == ms[|done| - 1];
    }
    forall k | 0 <= k < |log| && k < |ms| && (forall j :: 0 <= j < k ==> !Disturbed(w, ms[j], places)) ensures Fits(w, log[k], ms[k], plan(k), places) {
      if k < |done| {
        assert done[k] == ms[k];
      }
    }
  }

  // ----- the ends of the loop

  /** The next message of a reader that is not lost. */
  lemma NextMessage(w: Bytes, parse: Parser, ms: seq<Message>, start: nat, log: seq<Served>, done: seq<Message>, plan: nat -> Plan, places: set<nat>)
    requires Progress(w, parse, ms, start, log, done, false, plan, places)
    ensures |log| < |ms| ==>
      var m := ms[|log|];
      && m.start == start && HeadEnd(w, start) == Some(m.headEnd) && start <= m.headEnd <= |w| && parse(w[start..m.headEnd]) == Some(m.framing)
  {
    hide BodyOf, Fits, Disturbed;
    if |log| < |ms| {
      var later := Messages(w, start, parse);
      assert ms[|log|] == later[0];
    }
  }

  /** The loop ends before it served the next message. */
  lemma EndedBefore(w: Bytes, parse: Parser, ms: seq<Message>, start: nat, log: seq<Served>, done: seq<Message>, lost: bool, plan: nat -> Plan, places: set<nat>,
    patient: bool)
    requires Progress(w, parse, ms, start, log, done, lost, plan, places)
    requires
      || plan(|log|).stop
      || HeadEnd(w, start).None?
      || HeadEnd(w, start).value > start + MAX_HEAD_SIZE
      || (!patient && exists p :: p in places && InHead(w, start, p))
      || (start <= |w| && (parse(w[start..HeadEnd(w, start).value]).None? ||
          (parse(w[start..HeadEnd(w, start).value]).value.expectContinue && !plan(|log|).continueSent)))
    ensures Explained(w, ms, log, plan, patient, places)
  {
    if lost {
      LostExplains(w, ms, log, done, plan, places, patient);
    } else {
      NextMessage(w, parse, ms, start, log, done, plan, places);
      hide Progress, Disturbed, HeadEnd;
      if |log| < |ms| && !patient && exists p :: p in places && InHead(w, start, p) {
        var p :| p in places && InHead(w, start, p);
        assert ms[|log|].start <= p < ms[|log|].headEnd;
      }
    }
  }

  lemma HeadSplit(buf: Bytes, w: Bytes, start: nat, pos: nat, e: nat)
    requires Buffered(buf, w, start, pos) && e <= |buf|
    ensures buf[..e] == w[start..start + e] && Buffered(buf[e..], w, start + e, pos)
  {
  }

  /** The state after a request: what the loop vouches for, where it goes on, and why it stops. */
  lemma AfterServed(w: Bytes, parse: Parser, ms: seq<Message>, start: nat, log: seq<Served>, done: seq<Message>, lost: bool, plan: nat -> Plan, places: set<nat>,
    s: Served, m: Message, kept: bool, next: nat, patient: bool)
    returns (done2: seq<Message>, lost2: bool)
    requires Progress(w, parse, ms, start, log, done, lost, plan, places) && start <= |w|
    requires HeadEnd(w, start) == Some(m.headEnd) && parse(w[start..m.headEnd]) == Some(m.framing)
    requires m == Message(start, m.headEnd, m.framing, BodyOf(w, m.headEnd, m.framing)) && Fits(w, s, m, plan(|log|), places)
    requires kept ==> m.framing.keepAlive && (m.outcome.status.Complete? ==> next == m.outcome.status.end || Disturbed(w, m, places))
    requires plan(|log|).writeOk && m.outcome.status.Complete? && |m.outcome.payload| <= DRAIN_CAP && m.framing.keepAlive ==>
      kept || exists p :: p in places && InBody(m, p)
    ensures Vouched(w, ms, log + [s], done2, lost2, plan, places)
    ensures kept ==> Progress(w, parse, ms, next, log + [s], done2, lost2, plan, places)
    ensures !kept ==> Explained(w, ms, log + [s], plan, patient, places)
  {
    hide Messages, Vouched, Disturbed, Fits, BodyOf, InBody;
    VouchedMore(w, ms, log, done, plan, places, s, m);
    if lost {
      LostExplains(w, ms, log + [s], done, plan, places, patient);
      return done, true;
    }
    MessagePlaced(w, parse, ms, start, done, m.headEnd, m.framing);
    VouchedLength(w, ms, log, done, plan, places);
    done2 := done + [m];
    lost2 := kept && (!m.outcome.status.Complete? || Disturbed(w, m, places));
  }

  lemma VouchedLength(w: Bytes, ms: seq<Message>, log: seq<Served>, done: seq<Message>, plan: nat -> Plan, places: set<nat>)
    requires Vouched(w, ms, log, done, false, plan, places)
    ensures |log| == |done|
  {
  }

  /** One request: the handler, the response, and the buffer moved to where the next head starts. */
  method ServeNext(stream: Stream, buf: Bytes, e: nat, f: Framing, plan: nat -> Plan,
    ghost parse: Parser, ghost ms: seq<Message>, ghost start: nat, log: seq<Served>, ghost done: seq<Message>, ghost lost: bool, ghost patient: bool)
    returns (served: Served, kept: bool, left: Bytes, ghost next: nat, ghost done2: seq<Message>, ghost lost2: bool)
    requires stream.Valid() && Buffered(buf, stream.wire, start, stream.pos) && e <= |buf|
    requires HeadEnd(stream.wire, start) == Some(start + e) && parse(stream.wire[start..start + e]) == Some(f)
    requires Progress(stream.wire, parse, ms, start, log, done, lost, plan, stream.places)
    modifies stream
    ensures stream.Valid() && Buffered(left, stream.wire, next, stream.pos) && |left| <= |buf| && start + e <= next
    ensures old(stream.Patient()) ==> stream.Patient()
    ensures Vouched(stream.wire, ms, log + [served], done2, lost2, plan, stream.places)
    ensures kept ==> Progress(stream.wire, parse, ms, next, log + [served], done2, lost2, plan, stream.places)
    ensures !kept ==> Explained(stream.wire, ms, log + [served], plan, patient, stream.places)
  {
    hide Messages, BodyOf, HeadEnd, EmptyLineAt, KindOf, Progress, Vouched, Disturbed, Explained, Fits, InBody;
    ghost var w := stream.wire;
    HeadSplit(buf, w, start, stream.pos, e);
    var data, used;
    data, kept, used, next := ServeBody(stream, buf[e..], f, plan(|log|), start + e);
    ghost var m := Message(start, start + e, f, BodyOf(w, start + e, f));
    served := Served(buf[..e], f, data);
    ServedFacts(w, m, served, plan(|log|), stream.places);
    done2, lost2 := AfterServed(w, parse, ms, start, log, done, lost, plan, stream.places, served, m, kept, next, patient);
    left := buf[e + used..];
    assert left == buf[e..][used..];
  }

  /**
   * `handle_connection`. The served requests are the first messages on the wire, each with a first part of its
   * payload, as far as no place of trouble is inside a control line of a body before them; so for well-formed
   * messages every head starts right after the message before it. Time-outs between and inside heads do no harm.
   * The connection ends early only for a reason at the message it did not serve or the one before; so if there
   * is no trouble in a body, all messages within the limits are served.
   */
  method HandleConnection(stream: Stream, parse: Parser, plan: nat -> Plan) returns (log: seq<Served>)
    requires stream.Valid() && stream.pos == 0
    modifies stream
    ensures FirstFit(stream.wire, log, Messages(stream.wire, 0, parse), plan, stream.places)
    ensures var ms := Messages(stream.wire, 0, parse);
            WellFormed(ms) && (forall j :: 0 <= j < |ms| ==> !Disturbed(stream.wire, ms[j], stream.places)) ==> |log| <= |ms|
    ensures Explained(stream.wire, Messages(stream.wire, 0, parse), log, plan, old(stream.Patient()), stream.places)
    ensures old(stream.Patient()) && Undisturbed(Messages(stream.wire, 0, parse), plan, stream.places) ==>
      |log| == |Messages(stream.wire, 0, parse)|
  {
    hide Messages, BodyOf, HeadEnd, EmptyLineAt, KindOf, Progress, Vouched, FirstFit, Disturbed, Undisturbed, Explained, Fits, Crosses, Paced, InHead, InBody, InOrder, Places;
    var buf: Bytes := [];
    log := [];
    ghost var w, start, lost, patient := stream.wire, 0, false, stream.Patient();
    ghost var done: seq<Message> := [];
    ghost var ms := Messages(w, 0, parse);
    ProgressStart(w, parse, plan, stream.places);
    var n := 0;
    while true
      invariant stream.Valid() && Buffered(buf, w, start, stream.pos) && |buf| <= MAX_HEAD_SIZE + HEAD_READ_CHUNK
      invariant n == |log| && Progress(w, parse, ms, start, log, done, lost, plan, stream.places) && Vouched(w, ms, log, done, lost, plan, stream.places)
      invariant (patient ==> stream.Patient()) && start <= |w|
      decreases |w| - start
    {
      if plan(n).stop {
        EndedBefore(w, parse, ms, start, log, done, lost, plan, stream.places, patient);
        break;
      }
      var status;
      status, buf := ReadHead(stream, buf, start);
      if !status.HeadComplete? {
        if status != Io {
          NotReported(w, start, stream.pos, status);
        }
        EndedBefore(w, parse, ms, start, log, done, lost, plan, stream.places, patient);
        break;
      }
      var e := status.end;
      HeadSplit(buf, w, start, stream.pos, e);
      var parsed := parse(buf[..e]);
      if parsed.None? {
        EndedBefore(w, parse, ms, start, log, done, lost, plan, stream.places, patient);
        break;
      }
      var f := parsed.value;
      if f.expectContinue && !plan(n).continueSent {
        EndedBefore(w, parse, ms, start, log, done, lost, plan, stream.places, patient);
        break;
      }
      var served, kept;
      served, kept, buf, start, done, lost := ServeNext(stream, buf, e, f, plan, parse, ms, start, log, done, lost, patient);
      log := log + [served];
      n := n + 1;
      if !kept {
        break;
      }
    }
    VouchedFits(w, ms, log, done, lost, plan, stream.places);
    if patient && Undisturbed(ms, plan, stream.places) {
      AllServed(w, parse, log, done, lost, plan, stream.places);
    }
  }

  lemma NotReported(w: Bytes, start: nat, pos: nat, status: HeadStatus)
    requires HeadReported(w, start, pos, status) && !status.HeadComplete? && status != Io
    ensures HeadEnd(w, start).Some? ==> HeadEnd(w, start).value > start + MAX_HEAD_SIZE
  {
  }

  /** The contract of one request in terms of its message. */
  lemma ServedFacts(w: Bytes, m: Message, s: Served, plan: Plan, places: set<nat>)
    requires m.start <= m.headEnd <= |w| && s.head == w[m.start..m.headEnd] && s.framing == m.framing
    ensures
      var cut := Cut(w, m.headEnd, KindOf(m.framing.chunked, m.framing.contentLength), places);
      && cut == Disturbed(w, m, places)
      && ((!plan.persist || !cut ==> s.data <= m.outcome.payload)
          && (places == {} && m.outcome.status.Complete? && Positives(plan.wants) > |m.outcome.payload| ==> s.data == m.outcome.payload)
          ==> Fits(w, s, m, plan, places))
    ensures m.outcome.status.Complete? && (exists p :: p in places && m.headEnd <= p < m.outcome.status.end) ==> exists p :: p in places && InBody(m, p)
  {
    if m.outcome.status.Complete? && exists p :: p in places && m.headEnd <= p < m.outcome.status.end {
      var p :| p in places && m.headEnd <= p < m.outcome.status.end;
      assert InBody(m, p);
    }
  }
}
