/**
 * Message framing of sections 6.3 and 7.1 of RFC 9112, as the reader takes it: what the bytes from a
 * position on mean, independent of how they arrive, and the encoding the chunked writer produces.
 */
module HttpFraming {
  import opened Octets

  const CR: Byte := 13
  const LF: Byte := 10
  const SEMICOLON: Byte := 59
  const MAX_TRAILER_LINE := 8192

  datatype ChunkState = Size | Data(remaining: nat) | DataCrlf | Trailers | Done

  datatype BodyKind = EmptyBody | Sized(left: nat) | Chunked(state: ChunkState)

  /** How a body ends: at a position, in bytes that are no chunk, or with the connection. */
  datatype Status = Complete(end: nat) | Malformed | CutOff

  datatype Outcome = Outcome(payload: Bytes, status: Status)

  /** The outcome of scanning a control line: its value and the position after it. */
  datatype Scan<T> = Line(value: T, next: nat) | BadLine | CutLine

  // ----- control lines

  function HexValue(b: Byte): (d: int)
    ensures -1 <= d < 16
  {
    if 48 <= b <= 57 then b - 48
    else if 97 <= b <= 102 then b - 87
    else if 65 <= b <= 70 then b - 55
    else -1
  }

  /** The position after the first carriage return at or after `i`. */
  function SkipToCr(w: Bytes, i: nat): (s: Scan<()>)
    ensures s.Line? ==> i < s.next <= |w|
    decreases |w| - i
  {
    if i >= |w| then CutLine else if w[i] == CR then Line((), i + 1) else SkipToCr(w, i + 1)
  }

  /** The line feed of a size line, after which at least one digit must have been seen. */
  function EndOfSize(w: Bytes, i: nat, size: nat, digits: nat): (s: Scan<nat>)
    ensures s.Line? ==> i < s.next <= |w|
  {
    if i >= |w| then CutLine else if w[i] != LF || digits == 0 then BadLine else Line(size, i + 1)
  }

  /** A chunk-size line, after `digits` digits worth `size`. */
  function SizeLine(w: Bytes, i: nat, size: nat, digits: nat): (s: Scan<nat>)
    ensures s.Line? ==> i < s.next <= |w|
    decreases |w| - i
  {
    if i >= |w| then CutLine
    else if HexValue(w[i]) >= 0 then
      if digits + 1 > 16 then BadLine else SizeLine(w, i + 1, size * 16 + HexValue(w[i]), digits + 1)
    else if w[i] == SEMICOLON then
      match SkipToCr(w, i + 1)
      case Line(_, j) => EndOfSize(w, j, size, digits)
      case _ => CutLine
    else if w[i] == CR then EndOfSize(w, i + 1, size, digits)
    else BadLine
  }

  /** Trailer lines up to the empty one, `len` bytes into the current line. */
  function TrailerLines(w: Bytes, i: nat, len: nat): (s: Scan<()>)
    ensures s.Line? ==> i < s.next <= |w|
    decreases |w| - i
  {
    if i >= |w| then CutLine
    else if w[i] == LF then if len == 0 then Line((), i + 1) else TrailerLines(w, i + 1, 0)
    else if w[i] == CR then TrailerLines(w, i + 1, len)
    else if len + 1 > MAX_TRAILER_LINE then BadLine
    else TrailerLines(w, i + 1, len + 1)
  }

  /** The line break after chunk data. */
  function DataEnd(w: Bytes, i: nat): (s: Scan<()>)
    ensures s.Line? ==> i < s.next <= |w|
  {
    if i >= |w| then CutLine
    else if w[i] != CR then BadLine
    else if i + 1 >= |w| then CutLine
    else if w[i + 1] != LF then BadLine
    else Line((), i + 2)
  }

  // ----- bodies

  function Rank(state: ChunkState): nat {
    match state
    case Done => 0
    case Trailers => 1
    case Size => 1
    case DataCrlf => 2
    case Data(_) => 3
  }

  function Prepend(b: Bytes, o: Outcome): Outcome {
    Outcome(b + o.payload, o.status)
  }

  function AfterSize(size: nat): ChunkState {
    if size == 0 then Trailers else Data(size)
  }

  /** The payload and the end of a chunked body whose reader stands at `i` in `state`. */
  function ChunkedRest(w: Bytes, i: nat, state: ChunkState): Outcome
    decreases |w| - i, Rank(state)
  {
    match state
    case Done => Outcome([], Complete(i))
    case Size =>
      (match SizeLine(w, i, 0, 0)
       case Line(size, j) => ChunkedRest(w, j, AfterSize(size))
       case BadLine => Outcome([], Malformed)
       case CutLine => Outcome([], CutOff))
    case Data(remaining) =>
      if i + remaining <= |w| then Prepend(w[i..i + remaining], ChunkedRest(w, i + remaining, DataCrlf))
      else if i <= |w| then Outcome(w[i..], CutOff)
      else Outcome([], CutOff)
    case DataCrlf =>
      (match DataEnd(w, i)
       case Line(_, j) => ChunkedRest(w, j, Size)
       case BadLine => Outcome([], Malformed)
       case CutLine => Outcome([], CutOff))
    case Trailers =>
      (match TrailerLines(w, i, 0)
       case Line(_, j) => ChunkedRest(w, j, Done)
       case BadLine => Outcome([], Malformed)
       case CutLine => Outcome([], CutOff))
  }

  /** The payload and the end of a body of any kind. */
  function Rest(w: Bytes, i: nat, kind: BodyKind): Outcome {
    match kind
    case EmptyBody => Outcome([], Complete(i))
    case Sized(left) =>
      if i + left <= |w| then Outcome(w[i..i + left], Complete(i + left))
      else if i <= |w| then Outcome(w[i..], CutOff)
      else Outcome([], CutOff)
    case Chunked(state) => ChunkedRest(w, i, state)
  }

  lemma {:induction false} ChunkedRestEnd(w: Bytes, i: nat, state: ChunkState)
    requires i <= |w|
    ensures ChunkedRest(w, i, state).status.Complete? ==> i <= ChunkedRest(w, i, state).status.end <= |w|
    decreases |w| - i, Rank(state)
  {
    match state
    case Done =>
    case Size =>
      var s := SizeLine(w, i, 0, 0);
      if s.Line? {
        ChunkedRestEnd(w, s.next, AfterSize(s.value));
      }
    case Data(remaining) =>
      if i + remaining <= |w| {
        ChunkedRestEnd(w, i + remaining, DataCrlf);
      }
    case DataCrlf =>
      var s := DataEnd(w, i);
      if s.Line? {
        ChunkedRestEnd(w, s.next, Size);
      }
    case Trailers =>
  }

  /** A complete body ends within the bytes, at or after its start. */
  lemma RestEnd(w: Bytes, i: nat, kind: BodyKind)
    requires i <= |w|
    ensures Rest(w, i, kind).status.Complete? ==> i <= Rest(w, i, kind).status.end <= |w|
  {
    if kind.Chunked? {
      ChunkedRestEnd(w, i, kind.state);
    }
  }

  lemma PrependPrepend(a: Bytes, b: Bytes, o: Outcome)
    ensures Prepend(a + b, o) == Prepend(a, Prepend(b, o))
  {
    assert a + b + o.payload == a + (b + o.payload);
  }

  lemma PrependNothing(o: Outcome)
    ensures Prepend([], o) == o
  {
    assert [] + o.payload == o.payload;
  }

  /** Taking part of the data of a chunk leaves the rest of the data. */
  lemma DataTaken(w: Bytes, i: nat, remaining: nat, got: nat)
    requires 0 < got <= remaining && i + got <= |w|
    ensures ChunkedRest(w, i, Data(remaining))
         == Prepend(w[i..i + got], ChunkedRest(w, i + got, if got == remaining then DataCrlf else Data(remaining - got)))
  {
    if got < remaining {
      if i + remaining <= |w| {
        var later := ChunkedRest(w, i + remaining, DataCrlf);
        assert w[i..i + remaining] == w[i..i + got] + w[i + got..i + remaining];
        PrependPrepend(w[i..i + got], w[i + got..i + remaining], later);
      } else {
        assert w[i..] == w[i..i + got] + w[i + got..];
      }
    }
  }

  /** Likewise for a body of known length. */
  lemma SizedTaken(w: Bytes, i: nat, left: nat, got: nat)
    requires got <= left && i + got <= |w|
    ensures Rest(w, i, Sized(left)) == Prepend(w[i..i + got], Rest(w, i + got, Sized(left - got)))
  {
    if i + left <= |w| {
      assert w[i..i + left] == w[i..i + got] + w[i + got..i + left];
    } else {
      assert w[i..] == w[i..i + got] + w[i + got..];
    }
  }

  // ----- control lines that a failed read cuts

  predicate IsControl(state: ChunkState) {
    state.Size? || state.DataCrlf? || state.Trailers?
  }

  function Then<T>(s: Scan<T>, state: ChunkState): Scan<ChunkState> {
    match s
    case Line(_, j) => Line(state, j)
    case BadLine => BadLine
    case CutLine => CutLine
  }

  /** The control line at `i`, with the state after it. */
  function ControlLine(w: Bytes, i: nat, state: ChunkState): (s: Scan<ChunkState>)
    requires IsControl(state)
    ensures s.Line? ==> i < s.next <= |w| && (s.value.Data? ==> s.value.remaining > 0)
  {
    match state
    case Size =>
      (match SizeLine(w, i, 0, 0)
       case Line(size, j) => Line(AfterSize(size), j)
       case BadLine => BadLine
       case CutLine => CutLine)
    case DataCrlf => Then(DataEnd(w, i), Size)
    case Trailers => Then(TrailerLines(w, i, 0), Done)
  }

  lemma ControlRest(w: Bytes, i: nat, state: ChunkState)
    requires IsControl(state)
    ensures ChunkedRest(w, i, state) ==
      match ControlLine(w, i, state)
      case Line(next, j) => ChunkedRest(w, j, next)
      case BadLine => Outcome([], Malformed)
      case CutLine => Outcome([], CutOff)
  {
  }

  /** Position `p` is inside the line at `i`: bytes of the line were taken, and it does not end there. */
  predicate LineCut<T>(s: Scan<T>, i: nat, p: nat) {
    i < p && (s.Line? ==> p < s.next)
  }

  /** Position `p` is inside a control line of the chunked body whose reader stands at `i` in `state`. */
  predicate ChunkedCuts(w: Bytes, i: nat, state: ChunkState, p: nat)
    decreases |w| - i, Rank(state)
  {
    match state
    case Done => false
    case Data(remaining) => i + remaining <= |w| && ChunkedCuts(w, i + remaining, DataCrlf, p)
    case _ =>
      var s := ControlLine(w, i, state);
      LineCut(s, i, p) || (s.Line? && ChunkedCuts(w, s.next, s.value, p))
  }

  /** The same for a body of any kind: only chunked bodies have control lines. */
  predicate Cuts(w: Bytes, i: nat, kind: BodyKind, p: nat) {
    kind.Chunked? && ChunkedCuts(w, i, kind.state, p)
  }

  lemma {:induction false} ChunkedCutsLater(w: Bytes, i: nat, state: ChunkState, p: nat)
    requires ChunkedCuts(w, i, state, p)
    ensures i < p && (ChunkedRest(w, i, state).status.Complete? ==> p < ChunkedRest(w, i, state).status.end)
    decreases |w| - i, Rank(state)
  {
    hide ControlLine;
    if state.Data? {
      ChunkedCutsLater(w, i + state.remaining, DataCrlf, p);
    } else {
      ControlRest(w, i, state);
      var s := ControlLine(w, i, state);
      if s.Line? {
        if LineCut(s, i, p) {
          ChunkedRestEnd(w, s.next, s.value);
        } else {
          ChunkedCutsLater(w, s.next, s.value, p);
        }
      }
    }
  }

  /** A position inside a control line is after the start of the body and before its end. */
  lemma CutsLater(w: Bytes, i: nat, kind: BodyKind, p: nat)
    requires Cuts(w, i, kind, p)
    ensures i < p && (Rest(w, i, kind).status.Complete? ==> p < Rest(w, i, kind).status.end)
  {
    ChunkedCutsLater(w, i, kind.state, p);
  }

  /** The reader moved from `i` to `j` without losing its place: the control lines ahead are the same. */
  ghost predicate InStep(w: Bytes, i: nat, kind: BodyKind, j: nat, next: BodyKind) {
    i <= j && forall p :: p >= j ==> (Cuts(w, i, kind, p) <==> Cuts(w, j, next, p))
  }

  lemma InStepSelf(w: Bytes, i: nat, kind: BodyKind)
    ensures InStep(w, i, kind, i, kind)
  {
  }

  lemma InStepTrans(w: Bytes, i: nat, a: BodyKind, j: nat, b: BodyKind, k: nat, c: BodyKind)
    requires InStep(w, i, a, j, b) && InStep(w, j, b, k, c)
    ensures InStep(w, i, a, k, c)
  {
  }

  /** Past a whole control line. */
  lemma InStepLine(w: Bytes, i: nat, state: ChunkState)
    requires IsControl(state) && ControlLine(w, i, state).Line?
    ensures var s := ControlLine(w, i, state); InStep(w, i, Chunked(state), s.next, Chunked(s.value))
  {
    hide ControlLine;
  }

  /** Past some of the data of a chunk. */
  lemma InStepData(w: Bytes, i: nat, remaining: nat, got: nat)
    requires 0 < got <= remaining && i + got <= |w|
    ensures InStep(w, i, Chunked(Data(remaining)), i + got, Chunked(if got == remaining then DataCrlf else Data(remaining - got)))
  {
  }

  // ----- the chunked encoding

  function HexChar(d: int): Byte
    requires 0 <= d < 16
  {
    if d < 10 then 48 + d else 87 + d
  }

  /** Lower-case hexadecimal without leading zeros. */
  function Hex(n: nat): (h: Bytes)
    ensures |h| >= 1
  {
    if n < 16 then [HexChar(n)] else Hex(n / 16) + [HexChar(n % 16)]
  }

  const CRLF: Bytes := [CR, LF]
  const LAST_CHUNK: Bytes := [48, CR, LF, CR, LF]

  function Chunk(p: Bytes): Bytes {
    Hex(|p|) + CRLF + p + CRLF
  }

  function Encode(ps: seq<Bytes>): Bytes {
    if ps == [] then [] else Encode(ps[..|ps| - 1]) + Chunk(ps[|ps| - 1])
  }

  function Concat(ps: seq<Bytes>): Bytes {
    if ps == [] then [] else Concat(ps[..|ps| - 1]) + ps[|ps| - 1]
  }

  /** Pieces a writer sends: not empty, and no longer than a u64 can say. */
  ghost predicate Pieces(ps: seq<Bytes>) {
    forall k :: 0 <= k < |ps| ==> 0 < |ps[k]| < Pow16(16)
  }

  function Pow16(n: nat): (p: nat)
    ensures p > 0
  {
    if n == 0 then 1 else 16 * Pow16(n - 1)
  }

  lemma {:induction false} HexLength(n: nat, k: nat)
    requires k >= 1 && n < Pow16(k)
    ensures |Hex(n)| <= k
  {
    if n >= 16 {
      assert k > 1 by {
        assert Pow16(1) == 16;
      }
      HexLength(n / 16, k - 1);
    }
  }

  ghost predicate At(w: Bytes, i: nat, x: Bytes) {
    i + |x| <= |w| && w[i..i + |x|] == x
  }

  lemma AtSplit(w: Bytes, i: nat, x: Bytes, y: Bytes)
    requires At(w, i, x + y)
    ensures At(w, i, x) && At(w, i + |x|, y)
  {
    var z := w[i..i + |x + y|];
    assert w[i..i + |x|] == z[..|x|] == x;
    assert w[i + |x|..i + |x| + |y|] == z[|x|..] == y;
  }

  lemma HexRoundTrip(d: int)
    requires 0 <= d < 16
    ensures HexValue(HexChar(d)) == d
  {
  }

  lemma OneDigit(w: Bytes, i: nat, d: int, size: nat, digits: nat)
    requires 0 <= d < 16 && i < |w| && w[i] == HexChar(d) && digits < 16
    ensures SizeLine(w, i, size, digits) == SizeLine(w, i + 1, size * 16 + d, digits + 1)
  {
    HexRoundTrip(d);
  }

  lemma Regroup(size: nat, q: nat, r: nat, n: nat, p: nat)
    requires n == 16 * q + r
    ensures (size * p + q) * 16 + r == size * (16 * p) + n
  {
  }

  /** The digits of `n` add `n` below whatever was read before them. */
  lemma {:induction false} HexRead(w: Bytes, i: nat, n: nat, size: nat, digits: nat)
    requires At(w, i, Hex(n)) && digits + |Hex(n)| <= 16
    ensures SizeLine(w, i, size, digits)
         == SizeLine(w, i + |Hex(n)|, size * Pow16(|Hex(n)|) + n, digits + |Hex(n)|)
    decreases n
  {
    hide SizeLine, HexChar;
    if n < 16 {
      assert w[i] == w[i..i + 1][0];
      OneDigit(w, i, n, size, digits);
      assert Pow16(1) == 16;
    } else {
      var q, r := n / 16, n % 16;
      var k := |Hex(q)|;
      AtSplit(w, i, Hex(q), [HexChar(r)]);
      HexRead(w, i, q, size, digits);
      assert w[i + k] == w[i + k..i + k + 1][0];
      OneDigit(w, i + k, r, size * Pow16(k) + q, digits + k);
      Regroup(size, q, r, n, Pow16(k));
    }
  }

  /** A size line of the writer is read as the size, up to the data. */
  lemma SizeRead(w: Bytes, i: nat, n: nat)
    requires n < Pow16(16) && At(w, i, Hex(n) + CRLF)
    ensures SizeLine(w, i, 0, 0) == Line(n, i + |Hex(n)| + 2)
  {
    hide SizeLine, Hex, Pow16;
    HexLength(n, 16);
    AtSplit(w, i, Hex(n), CRLF);
    HexRead(w, i, n, 0, 0);
    SizeLineEnd(w, i + |Hex(n)|, n, |Hex(n)|);
  }

  lemma SizeLineEnd(w: Bytes, i: nat, size: nat, digits: nat)
    requires At(w, i, CRLF) && digits > 0
    ensures SizeLine(w, i, size, digits) == Line(size, i + 2)
  {
    var z := w[i..i + 2];
    assert z[0] == w[i] && z[1] == w[i + 1];
  }

  lemma ChunkRead(w: Bytes, i: nat, p: Bytes)
    requires 0 < |p| < Pow16(16) && At(w, i, Chunk(p))
    ensures ChunkedRest(w, i, Size) == Prepend(p, ChunkedRest(w, i + |Chunk(p)|, Size))
  {
    hide SizeLine, Hex, Pow16;
    AtSplit(w, i, Hex(|p|) + CRLF + p, CRLF);
    AtSplit(w, i, Hex(|p|) + CRLF, p);
    SizeRead(w, i, |p|);
    var j := i + |Hex(|p|)| + 2;
    var k := j + |p|;
    var z := w[k..k + 2];
    assert z[0] == w[k] && z[1] == w[k + 1];
    assert ChunkedRest(w, k, DataCrlf) == ChunkedRest(w, k + 2, Size);
    assert ChunkedRest(w, j, Data(|p|)) == Prepend(p, ChunkedRest(w, k, DataCrlf));
  }

  lemma LastChunkRead(w: Bytes, i: nat)
    requires At(w, i, LAST_CHUNK)
    ensures ChunkedRest(w, i, Size) == Outcome([], Complete(i + 5))
  {
    var z := w[i..i + 5];
    assert z[0] == w[i] && z[1] == w[i + 1] && z[2] == w[i + 2] && z[3] == w[i + 3] && z[4] == w[i + 4];
    OneDigit(w, i, 0, 0, 0);
    assert SizeLine(w, i, 0, 0) == Line(0, i + 3);
    assert TrailerLines(w, i + 4, 0) == Line((), i + 5);
    assert TrailerLines(w, i + 3, 0) == Line((), i + 5);
    assert ChunkedRest(w, i + 3, Trailers) == ChunkedRest(w, i + 5, Done);
  }

  /** The chunks before the last one add their data. */
  lemma {:induction false} ChunksRead(w: Bytes, i: nat, ps: seq<Bytes>)
    requires Pieces(ps) && At(w, i, Encode(ps))
    ensures ChunkedRest(w, i, Size) == Prepend(Concat(ps), ChunkedRest(w, i + |Encode(ps)|, Size))
    decreases |ps|
  {
    hide ChunkedRest, Chunk, Pow16;
    if ps == [] {
      PrependNothing(ChunkedRest(w, i, Size));
    } else {
      var front, p := ps[..|ps| - 1], ps[|ps| - 1];
      AtSplit(w, i, Encode(front), Chunk(p));
      ChunksRead(w, i, front);
      ChunkRead(w, i + |Encode(front)|, p);
      PrependPrepend(Concat(front), p, ChunkedRest(w, i + |Encode(ps)|, Size));
    }
  }

  /** The reader's framing inverts the writer's: the payload, the end, and nothing of what follows. */
  lemma EncodingRead(pre: Bytes, ps: seq<Bytes>, sent: Bytes, tail: Bytes)
    requires Pieces(ps) && sent == pre + Encode(ps) + LAST_CHUNK
    ensures ChunkedRest(sent + tail, |pre|, Size) == Outcome(Concat(ps), Complete(|sent|))
  {
    hide ChunkedRest, Encode, Concat;
    var w := sent + tail;
    var j := |pre| + |Encode(ps)|;
    assert At(w, |pre|, Encode(ps));
    assert At(w, j, LAST_CHUNK);
    ChunksRead(w, |pre|, ps);
    LastChunkRead(w, j);
    EndReached(Concat(ps), |sent|);
  }

  lemma EndReached(all: Bytes, i: nat)
    ensures Prepend(all, Outcome([], Complete(i))) == Outcome(all, Complete(i))
  {
    assert all + [] == all;
  }
}
