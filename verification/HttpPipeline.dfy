/** Streams made of concatenated requests: each is a message of the connection, exactly where it stands. */
module HttpPipeline {
  import opened Octets
  import opened Options
  import opened HttpFraming
  import opened HttpStream
  import opened HttpBody
  import opened HttpConn

  /** `w` holds `r` at `p`. */
  ghost predicate Holds(w: Bytes, p: nat, r: Bytes) {
    p + |r| <= |w| && forall k :: 0 <= k < |r| ==> w[p + k] == r[k]
  }

  function Moved<T>(s: Scan<T>, p: nat): Scan<T> {
    match s
    case Line(v, j) => Line(v, p + j)
    case BadLine => BadLine
    case CutLine => CutLine
  }

  // ----- control lines do not look beyond their end

  lemma {:induction false} SkipToCrMoved(w: Bytes, p: nat, r: Bytes, i: nat)
    requires Holds(w, p, r) && SkipToCr(r, i).Line?
    ensures SkipToCr(w, p + i) == Moved(SkipToCr(r, i), p)
    decreases |r| - i
  {
    if r[i] != CR {
      SkipToCrMoved(w, p, r, i + 1);
    }
  }

  lemma {:induction false} SizeLineMoved(w: Bytes, p: nat, r: Bytes, i: nat, size: nat, digits: nat)
    requires Holds(w, p, r) && SizeLine(r, i, size, digits).Line?
    ensures SizeLine(w, p + i, size, digits) == Moved(SizeLine(r, i, size, digits), p)
    decreases |r| - i
  {
    if HexValue(r[i]) >= 0 {
      SizeLineMoved(w, p, r, i + 1, size * 16 + HexValue(r[i]), digits + 1);
    } else if r[i] == SEMICOLON {
      SkipToCrMoved(w, p, r, i + 1);
    }
  }

  lemma {:induction false} TrailerLinesMoved(w: Bytes, p: nat, r: Bytes, i: nat, len: nat)
    requires Holds(w, p, r) && TrailerLines(r, i, len).Line?
    ensures TrailerLines(w, p + i, len) == Moved(TrailerLines(r, i, len), p)
    decreases |r| - i
  {
    if r[i] == LF {
      if len != 0 {
        TrailerLinesMoved(w, p, r, i + 1, 0);
      }
    } else if r[i] == CR {
      TrailerLinesMoved(w, p, r, i + 1, len);
    } else {
      TrailerLinesMoved(w, p, r, i + 1, len + 1);
    }
  }

  lemma DataEndMoved(w: Bytes, p: nat, r: Bytes, i: nat)
    requires Holds(w, p, r) && DataEnd(r, i).Line?
    ensures DataEnd(w, p + i) == Moved(DataEnd(r, i), p)
  {
  }

  lemma SliceMoved(w: Bytes, p: nat, r: Bytes, i: nat, j: nat)
    requires Holds(w, p, r) && i <= j <= |r|
    ensures w[p + i..p + j] == r[i..j]
  {
    var a, b := w[p + i..p + j], r[i..j];
    assert |a| == |b|;
    forall k | 0 <= k < |b| ensures a[k] == b[k] {
      assert w[p + (i + k)] == r[i + k];
    }
  }

  // ----- neither do bodies

  function MovedOutcome(o: Outcome, p: nat): Outcome
    requires o.status.Complete?
  {
    Outcome(o.payload, Complete(p + o.status.end))
  }

  lemma {:induction false} ChunkedRestMoved(w: Bytes, p: nat, r: Bytes, i: nat, state: ChunkState)
    requires Holds(w, p, r) && i <= |r| && ChunkedRest(r, i, state).status.Complete?
    ensures ChunkedRest(w, p + i, state) == MovedOutcome(ChunkedRest(r, i, state), p)
    decreases |r| - i, Rank(state)
  {
    hide SizeLine, TrailerLines, DataEnd, Holds;
    match state
    case Done =>
    case Size =>
      SizeLineMoved(w, p, r, i, 0, 0);
      ChunkedRestMoved(w, p, r, SizeLine(r, i, 0, 0).next, AfterSize(SizeLine(r, i, 0, 0).value));
    case Data(remaining) =>
      ChunkedRestMoved(w, p, r, i + remaining, DataCrlf);
      SliceMoved(w, p, r, i, i + remaining);
      HoldsLength(w, p, r);
    case DataCrlf =>
      DataEndMoved(w, p, r, i);
      ChunkedRestMoved(w, p, r, DataEnd(r, i).next, Size);
    case Trailers =>
      TrailerLinesMoved(w, p, r, i, 0);
      ChunkedRestMoved(w, p, r, TrailerLines(r, i, 0).next, ChunkState.Done);
  }

  lemma HoldsLength(w: Bytes, p: nat, r: Bytes)
    requires Holds(w, p, r)
    ensures p + |r| <= |w|
  {
  }

  lemma RestMoved(w: Bytes, p: nat, r: Bytes, i: nat, kind: BodyKind)
    requires Holds(w, p, r) && i <= |r| && Rest(r, i, kind).status.Complete?
    ensures Rest(w, p + i, kind) == MovedOutcome(Rest(r, i, kind), p)
  {
    match kind
    case EmptyBody =>
    case Sized(left) => SliceMoved(w, p, r, i, i + left);
    case Chunked(state) => ChunkedRestMoved(w, p, r, i, state);
  }

  lemma {:induction false} HeadEndMoved(w: Bytes, p: nat, r: Bytes, i: nat)
    requires Holds(w, p, r) && i <= |r| && HeadEnd(r, i).Some?
    ensures HeadEnd(w, p + i) == Some(p + HeadEnd(r, i).value)
    decreases |r| - i
  {
    assert EmptyLineAt(r, i) <==> EmptyLineAt(w, p + i);
    if !EmptyLineAt(r, i) {
      HeadEndMoved(w, p, r, i + 1);
    }
  }

  // ----- concatenated requests

  /** One request by itself: a head that keeps the connection, and a body that ends with the request. */
  ghost predicate Request(r: Bytes, parse: Parser) {
    && HeadEnd(r, 0).Some?
    && parse(r[..HeadEnd(r, 0).value]).Some?
    && parse(r[..HeadEnd(r, 0).value]).value.keepAlive
    && BodyOf(r, HeadEnd(r, 0).value, parse(r[..HeadEnd(r, 0).value]).value).status == Complete(|r|)
  }

  /** The message a request becomes at position `p`. */
  ghost function MessageAt(r: Bytes, parse: Parser, p: nat): Message
    requires Request(r, parse)
  {
    var e := HeadEnd(r, 0).value;
    var f := parse(r[..e]).value;
    Message(p, p + e, f, MovedOutcome(BodyOf(r, e, f), p))
  }

  ghost predicate Requests(rs: seq<Bytes>, parse: Parser) {
    forall k :: 0 <= k < |rs| ==> Request(rs[k], parse)
  }

  lemma HeadMoved(w: Bytes, p: nat, r: Bytes)
    requires Holds(w, p, r) && HeadEnd(r, 0).Some?
    ensures HeadEnd(w, p) == Some(p + HeadEnd(r, 0).value) && p + |r| <= |w|
    ensures w[p..p + HeadEnd(r, 0).value] == r[..HeadEnd(r, 0).value]
  {
    var e := HeadEnd(r, 0).value;
    HeadEndMoved(w, p, r, 0);
    SliceMoved(w, p, r, 0, e);
    assert r[0..e] == r[..e];
  }

  lemma RequestIsMessage(w: Bytes, p: nat, r: Bytes, parse: Parser)
    requires Holds(w, p, r) && Request(r, parse)
    ensures p + |r| <= |w|
    ensures Messages(w, p, parse) == [MessageAt(r, parse, p)] + Messages(w, p + |r|, parse)
  {
    hide Rest, KindOf, Messages, Holds, HeadEnd;
    HeadMoved(w, p, r);
    var e := HeadEnd(r, 0).value;
    var f := parse(r[..e]).value;
    MessageNext(w, p, parse, p + e, f);
    assert e <= |r| by {
      HeadEndWithin(r);
    }
    RestMoved(w, p, r, e, KindOf(f.chunked, f.contentLength));
  }

  lemma HeadEndWithin(r: Bytes)
    ensures HeadEnd(r, 0).Some? ==> HeadEnd(r, 0).value <= |r|
  {
  }

  lemma {:induction false} ConcatHolds(rs: seq<Bytes>, k: nat)
    requires k < |rs|
    ensures Holds(Concat(rs), |Concat(rs[..k])|, rs[k])
    ensures |Concat(rs[..k + 1])| == |Concat(rs[..k])| + |rs[k]|
    decreases |rs|
  {
    var front := rs[..|rs| - 1];
    assert rs[..k + 1] == rs[..k] + [rs[k]];
    ConcatSnoc(rs[..k], rs[k]);
    if k < |rs| - 1 {
      ConcatHolds(front, k);
      assert front[..k] == rs[..k];
    } else {
      assert front == rs[..k];
    }
  }

  /** The messages of the requests from the k-th on, standing at `p`. */
  ghost function Expected(rs: seq<Bytes>, parse: Parser, k: nat, p: nat): (ms: seq<Message>)
    requires Requests(rs, parse) && k <= |rs|
    ensures |ms| == |rs| - k
    decreases |rs| - k
  {
    if k == |rs| then [] else [MessageAt(rs[k], parse, p)] + Expected(rs, parse, k + 1, p + |rs[k]|)
  }

  lemma {:induction false} ExpectedItem(rs: seq<Bytes>, parse: Parser, k: nat, n: nat)
    requires Requests(rs, parse) && k + n < |rs|
    ensures Expected(rs, parse, k, |Concat(rs[..k])|)[n] == MessageAt(rs[k + n], parse, |Concat(rs[..k + n])|)
    decreases n
  {
    hide Concat, Request, MessageAt;
    if n > 0 {
      ConcatHolds(rs, k);
      ExpectedItem(rs, parse, k + 1, n - 1);
    }
  }

  lemma {:induction false} PipelineFrom(rs: seq<Bytes>, parse: Parser, k: nat)
    requires Requests(rs, parse) && k <= |rs|
    ensures |Concat(rs[..k])| <= |Concat(rs)|
    ensures Messages(Concat(rs), |Concat(rs[..k])|, parse) == Expected(rs, parse, k, |Concat(rs[..k])|)
    decreases |rs| - k
  {
    hide Concat, Request, MessageAt, Messages;
    if k == |rs| {
      assert rs[..k] == rs;
      NothingLeft(Concat(rs), parse);
    } else {
      ConcatHolds(rs, k);
      RequestIsMessage(Concat(rs), |Concat(rs[..k])|, rs[k], parse);
      PipelineFrom(rs, parse, k + 1);
    }
  }

  lemma NoPieces()
    ensures Concat([]) == []
  {
  }

  lemma NothingLeft(w: Bytes, parse: Parser)
    ensures Messages(w, |w|, parse) == []
  {
  }

  /**
   * The messages of concatenated requests are those requests: as many, each starting where the one
   * before it ends, with the payload it has by itself.
   */
  lemma PipelineMessages(rs: seq<Bytes>, parse: Parser)
    requires Requests(rs, parse)
    ensures var ms := Messages(Concat(rs), 0, parse);
            && |ms| == |rs| && WellFormed(ms)
            && forall n :: 0 <= n < |ms| ==> ms[n] == MessageAt(rs[n], parse, |Concat(rs[..n])|)
  {
    hide Concat, Request, Messages;
    assert rs[..0] == [];
    NoPieces();
    PipelineFrom(rs, parse, 0);
    forall n | 0 <= n < |rs| ensures Expected(rs, parse, 0, 0)[n] == MessageAt(rs[n], parse, |Concat(rs[..n])|) {
      ExpectedItem(rs, parse, 0, n);
    }
  }

  // ----- serving concatenated requests

  /** Heads and bodies within the server's limits. */
  ghost predicate SmallRequests(rs: seq<Bytes>, parse: Parser)
    requires Requests(rs, parse)
  {
    forall k :: 0 <= k < |rs| ==>
      var m := MessageAt(rs[k], parse, 0); m.headEnd <= MAX_HEAD_SIZE && |m.outcome.payload| <= DRAIN_CAP
  }

  /** No place of trouble is in the body of a request. */
  ghost predicate ClearOfBodies(rs: seq<Bytes>, parse: Parser, places: set<nat>)
    requires Requests(rs, parse)
  {
    forall k, p :: 0 <= k < |rs| && p in places ==> !InBody(MessageAt(rs[k], parse, |Concat(rs[..k])|), p)
  }

  /** The handler got the head, the framing and a first part of the payload; all of it if nothing fails and it asked on. */
  ghost predicate ServedAs(s: Served, r: Bytes, parse: Parser, plan: Plan, places: set<nat>)
    requires Request(r, parse)
  {
    var m := MessageAt(r, parse, 0);
    && s.head == r[..m.headEnd] && s.framing == m.framing && s.data <= m.outcome.payload
    && (places == {} && Positives(plan.wants) > |m.outcome.payload| ==> s.data == m.outcome.payload)
  }

  lemma ServedAsRequest(rs: seq<Bytes>, parse: Parser, k: nat, s: Served, plan: Plan, places: set<nat>)
    requires Requests(rs, parse) && k < |rs|
    requires var m := MessageAt(rs[k], parse, |Concat(rs[..k])|); Fits(Concat(rs), s, m, plan, places) && !Disturbed(Concat(rs), m, places)
    ensures ServedAs(s, rs[k], parse, plan, places)
  {
    hide Concat, HeadEnd, Disturbed, Positives, Holds;
    ConcatHolds(rs, k);
    HeadMoved(Concat(rs), |Concat(rs[..k])|, rs[k]);
  }

  /** Clear of bodies means that no message of the wire is disturbed or has trouble in its body. */
  lemma ClearMessages(rs: seq<Bytes>, parse: Parser, places: set<nat>)
    requires Requests(rs, parse) && ClearOfBodies(rs, parse, places)
    ensures var ms := Messages(Concat(rs), 0, parse);
            !BodyTroubled(ms, places) && forall j :: 0 <= j < |ms| ==> !Disturbed(Concat(rs), ms[j], places)
  {
    hide Concat, Messages, MessageAt, Request, InBody, Disturbed;
    PipelineMessages(rs, parse);
    var w := Concat(rs);
    var ms := Messages(w, 0, parse);
    forall j | 0 <= j < |ms| ensures !Disturbed(w, ms[j], places) {
      if Disturbed(w, ms[j], places) {
        MessageBodies(w, 0, parse, j);
        DisturbedInBody(w, ms[j], places);
      }
    }
  }

  lemma SmallMessages(rs: seq<Bytes>, parse: Parser)
    requires Requests(rs, parse) && SmallRequests(rs, parse)
    ensures Small(Messages(Concat(rs), 0, parse))
  {
    hide Concat, Messages, HeadEnd, BodyOf;
    PipelineMessages(rs, parse);
    var ms := Messages(Concat(rs), 0, parse);
    forall k | 0 <= k < |ms| ensures ms[k].headEnd - ms[k].start <= MAX_HEAD_SIZE && |ms[k].outcome.payload| <= DRAIN_CAP {
      assert ms[k].outcome.payload == MessageAt(rs[k], parse, 0).outcome.payload;
    }
  }

  /**
   * The requests a connection serves do not depend on how their bytes arrive. For concatenated requests, in
   * pieces of any sizes and with any troubles outside their bodies, every served request is the one in its
   * place; and all are served if they are within the limits, the server is willing and the troubles are
   * time-outs it allows.
   */
  method ServePipeline(rs: seq<Bytes>, parse: Parser, sizes: seq<nat>, troubles: seq<Trouble>, plan: nat -> Plan) returns (log: seq<Served>)
    requires Requests(rs, parse) && InOrder(troubles)
    ensures ClearOfBodies(rs, parse, Places(troubles)) ==>
      |log| <= |rs| && forall k :: 0 <= k < |log| ==> ServedAs(log[k], rs[k], parse, plan(k), Places(troubles))
    ensures ClearOfBodies(rs, parse, Places(troubles)) && SmallRequests(rs, parse) && Willing(plan) && Harmless(troubles) ==> |log| == |rs|
    ensures troubles == [] ==> ClearOfBodies(rs, parse, Places(troubles))
  {
    hide Concat, Messages, MessageAt, Request, InBody, Disturbed, Fits, ServedAs, SmallRequests, InOrder, Harmless;
    assert troubles == [] ==> Places(troubles) == {};
    hide Places;
    var w := Concat(rs);
    var stream := new Stream(w, sizes, troubles);
    log := HandleConnection(stream, parse, plan);
    PipelineMessages(rs, parse);
    if ClearOfBodies(rs, parse, stream.places) {
      ClearMessages(rs, parse, stream.places);
      hide ClearOfBodies;
      forall k | 0 <= k < |log| ensures ServedAs(log[k], rs[k], parse, plan(k), stream.places) {
        ServedAsRequest(rs, parse, k, log[k], plan(k), stream.places);
      }
      if SmallRequests(rs, parse) {
        SmallMessages(rs, parse);
      }
    }
  }

  // ----- serving requests as they are written

  /** A head: it ends with the first empty line in it. */
  ghost predicate IsHead(h: Bytes) {
    BreaksBefore(h, |h|) && forall j :: 0 <= j < |h| ==> !BreaksBefore(h, j)
  }

  /** The four bytes before `j` are two line breaks. */
  predicate BreaksBefore(h: Bytes, j: nat) {
    4 <= j <= |h| && h[j - 4..j] == [13, 10, 13, 10]
  }

  /** What a request carries: so many bytes as they are, or pieces in chunked coding. */
  datatype Carried = Plain(bytes: Bytes) | InChunks(pieces: seq<Bytes>)

  function Carries(c: Carried): Bytes {
    match c
    case Plain(b) => b
    case InChunks(ps) => Concat(ps)
  }

  function Sent(head: Bytes, c: Carried): Bytes {
    match c
    case Plain(b) => head + b
    case InChunks(ps) => head + Encode(ps) + LAST_CHUNK
  }

  /** The head says how the request carries its body, and keeps the connection. */
  ghost predicate Announces(head: Bytes, c: Carried, parse: Parser) {
    && IsHead(head) && parse(head).Some? && parse(head).value.keepAlive
    && var f := parse(head).value;
       match c
       case Plain(b) => !f.chunked && |b| == if f.contentLength > 0 then f.contentLength else 0
       case InChunks(ps) => f.chunked && Pieces(ps)
  }

  lemma BreaksAt(head: Bytes, w: Bytes, i: nat)
    requires head <= w && i + 4 <= |head|
    ensures BreaksBefore(head, i + 4) <==> EmptyLineAt(w, i)
  {
    var q := head[i..i + 4];
    assert q[0] == w[i] && q[1] == w[i + 1] && q[2] == w[i + 2] && q[3] == w[i + 3];
  }

  lemma HeadFound(head: Bytes, rest: Bytes)
    requires IsHead(head)
    ensures HeadEnd(head + rest, 0) == Some(|head|) && (head + rest)[..|head|] == head
  {
    var w, n := head + rest, |head| - 4;
    assert w[..|head|] == head;
    BreaksAt(head, w, n);
    forall i | 0 <= i < n ensures !EmptyLineAt(w, i) {
      BreaksAt(head, w, i);
      assert !BreaksBefore(head, i + 4);
    }
    HeadEndUnique(w, 0, n);
  }

  lemma SentIsRequest(head: Bytes, c: Carried, parse: Parser)
    requires Announces(head, c, parse)
    ensures Request(Sent(head, c), parse)
    ensures var m := MessageAt(Sent(head, c), parse, 0);
            m.headEnd == |head| <= |Sent(head, c)| && m.outcome.payload == Carries(c) && Sent(head, c)[..m.headEnd] == head && m.framing == parse(head).value
  {
    hide ChunkedRest, HeadEnd, Encode, Concat, IsHead;
    var r := Sent(head, c);
    match c
    case Plain(b) =>
      HeadFound(head, b);
      assert b == [] ==> r == head;
      assert r[|head|..] == b && r[|head|..|r|] == b;
    case InChunks(ps) =>
      HeadFound(head, Encode(ps) + LAST_CHUNK);
      assert r == head + (Encode(ps) + LAST_CHUNK);
      EncodingRead(head, ps, r, []);
      assert r + [] == r;
  }

  /** The requests one after another on the wire. */
  function AllSent(heads: seq<Bytes>, carried: seq<Carried>): (rs: seq<Bytes>)
    requires |heads| == |carried|
    ensures |rs| == |heads| && forall k :: 0 <= k < |rs| ==> rs[k] == Sent(heads[k], carried[k])
  {
    seq(|heads|, k requires 0 <= k < |heads| => Sent(heads[k], carried[k]))
  }

  /**
   * Requests with a length, without one, or in chunked coding, one after another and arriving in any pieces: the
   * handlers see the heads in order, each with the first bytes it carries, and with all of them if they read on;
   * within the limits a willing server serves every one.
   */
  method ServeSent(heads: seq<Bytes>, carried: seq<Carried>, parse: Parser, sizes: seq<nat>, plan: nat -> Plan) returns (log: seq<Served>)
    requires |heads| == |carried| && forall k :: 0 <= k < |heads| ==> Announces(heads[k], carried[k], parse)
    ensures |log| <= |heads|
    ensures forall k :: 0 <= k < |log| ==>
      && log[k].head == heads[k] && log[k].data <= Carries(carried[k])
      && (Positives(plan(k).wants) > |Carries(carried[k])| ==> log[k].data == Carries(carried[k]))
    ensures Willing(plan) && (forall k :: 0 <= k < |heads| ==> |heads[k]| <= MAX_HEAD_SIZE && |Carries(carried[k])| <= DRAIN_CAP) ==>
      |log| == |heads|
  {
    hide Sent, Carries, Announces, Request, MessageAt, Positives;
    var rs := AllSent(heads, carried);
    forall k | 0 <= k < |rs|
      ensures Request(rs[k], parse)
      ensures MessageAt(rs[k], parse, 0).headEnd == |heads[k]| && MessageAt(rs[k], parse, 0).outcome.payload == Carries(carried[k])
      ensures |heads[k]| <= |rs[k]| && rs[k][..|heads[k]|] == heads[k]
    {
      assert Announces(heads[k], carried[k], parse);
      SentIsRequest(heads[k], carried[k], parse);
    }
    log := ServePipeline(rs, parse, sizes, [], plan);
  }
}
