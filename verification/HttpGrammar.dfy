/**
 * Chunked bodies as a grammar of bytes, after section 7.1 of RFC 9112, apart from how the reader scans them;
 * and the proof that the reader takes exactly these.
 */
module HttpGrammar {
  import opened Octets
  import opened HttpFraming

  // ----- size lines

  const LOWER: Bytes := [48, 49, 50, 51, 52, 53, 54, 55, 56, 57, 97, 98, 99, 100, 101, 102]
  const UPPER: Bytes := [48, 49, 50, 51, 52, 53, 54, 55, 56, 57, 65, 66, 67, 68, 69, 70]

  /** `b` is the hexadecimal digit `d`, in either case. */
  predicate IsDigit(b: Byte, d: int) {
    0 <= d < 16 && (b == LOWER[d] || b == UPPER[d])
  }

  ghost predicate Digits(ds: Bytes, vs: seq<int>) {
    |ds| == |vs| && forall k :: 0 <= k < |ds| ==> IsDigit(ds[k], vs[k])
  }

  /** The number that digits say after those of `n`. */
  function Number(n: nat, vs: seq<int>): int
    decreases |vs|
  {
    if vs == [] then n else if vs[0] < 0 then -1 else Number(n * 16 + vs[0], vs[1..])
  }

  ghost predicate Without(s: Bytes, b: Byte) {
    forall k :: 0 <= k < |s| ==> s[k] != b
  }

  /** An extension: nothing, or a semicolon and whatever follows up to the carriage return. */
  ghost predicate Extension(x: Bytes) {
    x == [] || (x[0] == SEMICOLON && Without(x, CR))
  }

  /** Up to sixteen digits that say `n`, an extension and a line break. */
  ghost predicate SizeText(t: Bytes, n: nat) {
    exists ds, vs, x :: SizeParts(t, n, ds, vs, x)
  }

  ghost predicate SizeParts(t: Bytes, n: nat, ds: Bytes, vs: seq<int>, x: Bytes) {
    1 <= |ds| <= 16 && Digits(ds, vs) && Number(0, vs) == n && Extension(x) && t == ds + x + CRLF
  }

  lemma DigitRead(b: Byte)
    ensures forall d :: IsDigit(b, d) <==> HexValue(b) == d && d >= 0
  {
  }

  /** What is scanned after some digits is more digits, an extension and a line break. */
  ghost predicate SizeTail(t: Bytes, size: nat, digits: nat, n: nat, ds: Bytes, vs: seq<int>, x: Bytes) {
    && 1 <= digits + |ds| <= 16 && Digits(ds, vs) && Number(size, vs) == n && Extension(x) && t == ds + x + CRLF
  }

  lemma {:induction false} SkipScanned(w: Bytes, i: nat)
    requires SkipToCr(w, i).Line?
    ensures var j := SkipToCr(w, i).next; w[j - 1] == CR && Without(w[i..j - 1], CR)
    decreases |w| - i
  {
    if w[i] != CR {
      SkipScanned(w, i + 1);
      var j := SkipToCr(w, i).next;
      assert w[i..j - 1] == [w[i]] + w[i + 1..j - 1];
    }
  }

  lemma {:induction false} SizeScanned(w: Bytes, i: nat, size: nat, digits: nat) returns (ds: Bytes, vs: seq<int>, x: Bytes)
    requires SizeLine(w, i, size, digits).Line? && digits <= 16
    ensures var s := SizeLine(w, i, size, digits); SizeTail(w[i..s.next], size, digits, s.value, ds, vs, x)
    decreases |w| - i
  {
    var s := SizeLine(w, i, size, digits);
    DigitRead(w[i]);
    if HexValue(w[i]) >= 0 {
      var d := HexValue(w[i]);
      ds, vs, x := SizeScanned(w, i + 1, size * 16 + d, digits + 1);
      MoreDigits(w[i], d, w[i + 1..s.next], size, digits, s.value, ds, vs, x);
      assert w[i..s.next] == [w[i]] + w[i + 1..s.next];
      ds, vs := [w[i]] + ds, [d] + vs;
    } else {
      ds, vs := [], [];
      x := EndScanned(w, i, size, digits);
    }
  }

  lemma EndScanned(w: Bytes, i: nat, size: nat, digits: nat) returns (x: Bytes)
    requires SizeLine(w, i, size, digits).Line? && HexValue(w[i]) < 0
    ensures var s := SizeLine(w, i, size, digits); digits > 0 && s.value == size && Extension(x) && w[i..s.next] == [] + x + CRLF
  {
    var s := SizeLine(w, i, size, digits);
    x := w[i..s.next - 2];
    if w[i] == SEMICOLON {
      SkipScanned(w, i + 1);
      assert x == [w[i]] + w[i + 1..s.next - 2];
    }
    assert w[i..s.next] == [] + x + CRLF;
  }

  lemma MoreDigits(b: Byte, d: int, t: Bytes, size: nat, digits: nat, n: nat, ds: Bytes, vs: seq<int>, x: Bytes)
    requires IsDigit(b, d) && SizeTail(t, size * 16 + d, digits + 1, n, ds, vs, x)
    ensures SizeTail([b] + t, size, digits, n, [b] + ds, [d] + vs, x)
  {
    assert ([d] + vs)[1..] == vs;
    assert [b] + (ds + x + CRLF) == [b] + ds + x + CRLF;
  }

  lemma SliceWithin(w: Bytes, i: nat, j: nat, a: nat, b: nat)
    requires i <= j <= |w| && a <= b <= j - i
    ensures w[i..j][a..b] == w[i + a..i + b]
  {
    var t, u := w[i..j][a..b], w[i + a..i + b];
    forall k | 0 <= k < |t| ensures t[k] == u[k] {
      assert t[k] == w[i..j][a + k] == w[i + (a + k)];
    }
  }

  lemma {:induction false} SkipReads(w: Bytes, i: nat, j: nat)
    requires i <= j < |w| && w[j] == CR && Without(w[i..j], CR)
    ensures SkipToCr(w, i) == Line((), j + 1)
    decreases j - i
  {
    if i < j {
      assert w[i..j][0] == w[i];
      assert w[i + 1..j] == w[i..j][1..];
      SkipReads(w, i + 1, j);
    }
  }

  lemma {:induction false} SizeReads(w: Bytes, i: nat, j: nat, size: nat, digits: nat, n: nat, ds: Bytes, vs: seq<int>, x: Bytes)
    requires i <= j <= |w| && SizeTail(w[i..j], size, digits, n, ds, vs, x)
    ensures SizeLine(w, i, size, digits) == Line(n, j)
    decreases |ds|
  {
    if ds == [] {
      EndReads(w, i, j, size, digits, x);
    } else {
      var t := w[i..j];
      assert t[0] == w[i] == ds[0] && IsDigit(ds[0], vs[0]);
      DigitRead(w[i]);
      assert w[i + 1..j] == t[1..] == ds[1..] + x + CRLF;
      hide SizeLine;
      SizeReads(w, i + 1, j, size * 16 + vs[0], digits + 1, n, ds[1..], vs[1..], x);
      SizeDigit(w, i, size, digits);
    }
  }

  lemma SizeDigit(w: Bytes, i: nat, size: nat, digits: nat)
    requires i < |w| && HexValue(w[i]) >= 0 && digits < 16
    ensures SizeLine(w, i, size, digits) == SizeLine(w, i + 1, size * 16 + HexValue(w[i]), digits + 1)
  {
  }

  /** An extension and a line break after the digits. */
  lemma EndReads(w: Bytes, i: nat, j: nat, size: nat, digits: nat, x: Bytes)
    requires i <= j <= |w| && digits > 0 && Extension(x) && w[i..j] == [] + x + CRLF
    ensures SizeLine(w, i, size, digits) == Line(size, j)
  {
    var t := w[i..j];
    assert t == x + CRLF;
    assert t[|t| - 2] == w[j - 2] == CR && t[|t| - 1] == w[j - 1] == LF;
    if x != [] {
      assert t[0] == w[i] == x[0];
      SliceWithin(w, i, j, 1, |t| - 2);
      assert t[1..|t| - 2] == x[1..];
      SkipReads(w, i + 1, j - 2);
    }
  }

  /** The reader takes exactly the size lines of the grammar, with the number they say. */
  lemma SizeLineGrammar(w: Bytes, i: nat, n: nat, j: nat)
    ensures SizeLine(w, i, 0, 0) == Line(n, j) <==> i <= j <= |w| && SizeText(w[i..j], n)
  {
    hide SizeLine;
    if SizeLine(w, i, 0, 0) == Line(n, j) {
      var ds, vs, x := SizeScanned(w, i, 0, 0);
      assert SizeParts(w[i..j], n, ds, vs, x);
    }
    if i <= j <= |w| && SizeText(w[i..j], n) {
      var ds, vs, x :| SizeParts(w[i..j], n, ds, vs, x);
      SizeReads(w, i, j, 0, 0, n, ds, vs, x);
    }
  }

  // ----- trailers

  /** The bytes of a line that are not carriage returns. */
  function Visible(s: Bytes): nat {
    if s == [] then 0 else Visible(s[1..]) + if s[0] == CR then 0 else 1
  }

  /** Lines that each hold something, but not too much, and then an empty line. */
  ghost predicate TrailerText(t: Bytes) {
    exists lines: seq<Bytes>, last: Bytes :: TrailerParts(t, 0, lines, last)
  }

  /** The same with `len` bytes of the first line seen already. */
  ghost predicate TrailerParts(t: Bytes, len: nat, lines: seq<Bytes>, last: Bytes) {
    && Without(last, LF) && Visible(last) == 0 && t == Terminated(lines) + last + [LF]
    && (forall k :: 0 <= k < |lines| ==> Without(lines[k], LF))
    && (lines == [] ==> len == 0)
    && (lines != [] ==> 1 <= len + Visible(lines[0]) <= MAX_TRAILER_LINE)
    && (forall k :: 1 <= k < |lines| ==> 1 <= Visible(lines[k]) <= MAX_TRAILER_LINE)
  }

  function Terminated(lines: seq<Bytes>): Bytes {
    if lines == [] then [] else lines[0] + [LF] + Terminated(lines[1..])
  }

  /** One more byte in front of the first line. */
  lemma MoreOfLine(b: Byte, t: Bytes, len: nat, lines: seq<Bytes>, last: Bytes) returns (lines2: seq<Bytes>, last2: Bytes)
    requires b != LF && TrailerParts(t, len + (if b == CR then 0 else 1), lines, last)
    requires b != CR ==> len + 1 <= MAX_TRAILER_LINE
    ensures TrailerParts([b] + t, len, lines2, last2)
  {
    if lines == [] {
      lines2, last2 := [], [b] + last;
      assert last2[1..] == last;
    } else {
      var first := [b] + lines[0];
      assert first[1..] == lines[0];
      lines2, last2 := [first] + lines[1..], last;
      assert lines2[1..] == lines[1..];
      assert Terminated(lines2) == [b] + Terminated(lines);
      assert forall k :: 1 <= k < |lines2| ==> lines2[k] == lines[k];
    }
    assert [b] + t == Terminated(lines2) + last2 + [LF];
  }

  lemma {:induction false} TrailersScanned(w: Bytes, i: nat, len: nat) returns (lines: seq<Bytes>, last: Bytes)
    requires TrailerLines(w, i, len).Line? && len <= MAX_TRAILER_LINE
    ensures TrailerParts(w[i..TrailerLines(w, i, len).next], len, lines, last)
    decreases |w| - i
  {
    var j := TrailerLines(w, i, len).next;
    assert w[i..j] == [w[i]] + w[i + 1..j];
    if w[i] == LF {
      if len == 0 {
        lines, last := [], [];
        assert w[i..j] == [LF];
      } else {
        lines, last := TrailersScanned(w, i + 1, 0);
        NewLine(w[i + 1..j], len, lines, last);
        lines := [[]] + lines;
      }
    } else {
      lines, last := TrailersScanned(w, i + 1, len + if w[i] == CR then 0 else 1);
      lines, last := MoreOfLine(w[i], w[i + 1..j], len, lines, last);
    }
  }

  lemma NewLine(t: Bytes, len: nat, lines: seq<Bytes>, last: Bytes)
    requires TrailerParts(t, 0, lines, last) && 1 <= len <= MAX_TRAILER_LINE
    ensures TrailerParts([LF] + t, len, [[]] + lines, last)
  {
    var more := [[]] + lines;
    assert more[1..] == lines && more[0] == [];
    assert Terminated(more) == [LF] + Terminated(lines);
    assert forall k :: 1 <= k < |more| ==> more[k] == lines[k - 1];
    assert [LF] + (Terminated(lines) + last + [LF]) == [LF] + Terminated(lines) + last + [LF];
  }

  lemma {:induction false} TrailersRead(w: Bytes, i: nat, j: nat, len: nat, lines: seq<Bytes>, last: Bytes)
    requires i <= j <= |w| && TrailerParts(w[i..j], len, lines, last)
    ensures TrailerLines(w, i, len) == Line((), j)
    decreases j - i
  {
    var t := w[i..j];
    assert t[0] == w[i];
    assert w[i + 1..j] == t[1..];
    if lines == [] {
      if last == [] {
        assert t == [LF];
      } else {
        assert t[0] == last[0];
        assert t[1..] == [] + last[1..] + [LF];
        TrailersRead(w, i + 1, j, len, [], last[1..]);
      }
    } else if lines[0] == [] {
      assert t[0] == LF;
      assert t[1..] == Terminated(lines[1..]) + last + [LF];
      TrailersRead(w, i + 1, j, 0, lines[1..], last);
    } else {
      var first, rest := lines[0], lines[1..];
      assert t[0] == first[0];
      var more := [first[1..]] + rest;
      assert more[1..] == rest;
      assert t[1..] == Terminated(more) + last + [LF];
      assert forall k :: 1 <= k < |more| ==> more[k] == lines[k];
      TrailersRead(w, i + 1, j, len + (if first[0] == CR then 0 else 1), more, last);
    }
  }

  /** The reader takes exactly the trailers of the grammar. */
  lemma TrailerGrammar(w: Bytes, i: nat, j: nat)
    ensures TrailerLines(w, i, 0) == Line((), j) <==> i <= j <= |w| && TrailerText(w[i..j])
  {
    hide TrailerLines;
    if TrailerLines(w, i, 0) == Line((), j) {
      var lines, last := TrailersScanned(w, i, 0);
    }
    if i <= j <= |w| && TrailerText(w[i..j]) {
      var lines, last :| TrailerParts(w[i..j], 0, lines, last);
      TrailersRead(w, i, j, 0, lines, last);
    }
  }

  // ----- bodies

  /** A chunked body that carries `payload`: chunks that are not empty, and the last one with its trailers. */
  ghost predicate ChunkedText(t: Bytes, payload: Bytes)
    decreases |t|
  {
    || (payload == [] && exists k :: 0 <= k <= |t| && SizeText(t[..k], 0) && TrailerText(t[k..]))
    || (exists k, n :: 0 <= k && 0 < n && ChunkAt(t, k, n, payload) && ChunkedText(t[k + n + 2..], payload[n..]))
  }

  /** `t` starts with a size line of `k` bytes, that many bytes of the payload, and a line break. */
  ghost predicate ChunkAt(t: Bytes, k: nat, n: nat, payload: Bytes) {
    k + n + 2 <= |t| && n <= |payload| && SizeText(t[..k], n) && t[k..k + n] == payload[..n] && t[k + n..k + n + 2] == CRLF
  }

  lemma SliceFront(w: Bytes, i: nat, j: nat, k: nat)
    requires i <= k <= j <= |w|
    ensures w[i..j][..k - i] == w[i..k] && w[i..j][k - i..] == w[k..j]
  {
  }

  lemma {:induction false} BodyScanned(w: Bytes, i: nat)
    requires i <= |w| && ChunkedRest(w, i, Size).status.Complete?
    ensures var o := ChunkedRest(w, i, Size); i <= o.status.end <= |w| && ChunkedText(w[i..o.status.end], o.payload)
    decreases |w| - i
  {
    hide SizeLine, TrailerLines, SizeText, TrailerText;
    var o := ChunkedRest(w, i, Size);
    var s := SizeLine(w, i, 0, 0);
    var j, n := s.next, s.value;
    SizeLineGrammar(w, i, n, j);
    assert o == ChunkedRest(w, j, AfterSize(n));
    if n == 0 {
      var e := TrailersEnd(w, j);
      TrailerGrammar(w, j, e);
      SliceFront(w, i, e, j);
      LastText(w[i..e], j - i);
    } else {
      var m := j + n;
      assert o == Prepend(w[j..m], ChunkedRest(w, m, DataCrlf));
      assert DataEnd(w, m) == Line((), m + 2);
      assert ChunkedRest(w, m, DataCrlf) == ChunkedRest(w, m + 2, Size);
      BodyScanned(w, m + 2);
      ChunkFirst(w, i, j, n, ChunkedRest(w, m + 2, Size));
    }
  }

  lemma TrailersEnd(w: Bytes, j: nat) returns (e: nat)
    requires ChunkedRest(w, j, Trailers).status.Complete?
    ensures TrailerLines(w, j, 0) == Line((), e) && ChunkedRest(w, j, Trailers) == Outcome([], Complete(e))
  {
    var s := TrailerLines(w, j, 0);
    assert s.Line?;
    e := s.next;
    assert s.value == ();
  }

  lemma LastText(t: Bytes, k: nat)
    requires k <= |t| && SizeText(t[..k], 0) && TrailerText(t[k..])
    ensures ChunkedText(t, [])
  {
    hide SizeText, TrailerText;
  }

  /** A chunk in front of a body. */
  lemma ChunkFirst(w: Bytes, i: nat, j: nat, n: nat, rest: Outcome)
    requires i <= j && n > 0 && j + n + 2 <= |w| && SizeText(w[i..j], n) && w[j + n] == CR && w[j + n + 1] == LF
    requires rest.status.Complete? && j + n + 2 <= rest.status.end <= |w| && ChunkedText(w[j + n + 2..rest.status.end], rest.payload)
    ensures ChunkedText(w[i..rest.status.end], Prepend(w[j..j + n], rest).payload)
  {
    hide SizeText, TrailerText, ChunkedText;
    var e, k := rest.status.end, j - i;
    var t, data := w[i..e], w[j..j + n];
    SliceFront(w, i, e, j);
    SliceFront(w, i, e, j + n + 2);
    SliceWithin(w, i, e, k, k + n);
    SliceWithin(w, i, e, k + n, k + n + 2);
    assert w[j + n..j + n + 2] == CRLF;
    ChunkMade(t, k, n, data, rest.payload);
    ChunkThen(t, k, n, data + rest.payload);
  }

  lemma ChunkMade(t: Bytes, k: nat, n: nat, data: Bytes, more: Bytes)
    requires k + n + 2 <= |t| && |data| == n && SizeText(t[..k], n) && t[k..k + n] == data && t[k + n..k + n + 2] == CRLF
    ensures ChunkAt(t, k, n, data + more) && (data + more)[n..] == more
  {
    hide SizeText;
    assert (data + more)[..n] == data;
  }

  lemma ChunkThen(t: Bytes, k: nat, n: nat, payload: Bytes)
    requires n > 0 && ChunkAt(t, k, n, payload) && ChunkedText(t[k + n + 2..], payload[n..])
    ensures ChunkedText(t, payload)
  {
    hide ChunkAt;
  }

  lemma {:induction false} BodyReads(w: Bytes, i: nat, e: nat, payload: Bytes)
    requires i <= e <= |w| && ChunkedText(w[i..e], payload)
    ensures ChunkedRest(w, i, Size) == Outcome(payload, Complete(e))
    decreases e - i
  {
    hide SizeText, TrailerText, ChunkedRest;
    var t := w[i..e];
    if payload == [] && exists k :: 0 <= k <= |t| && SizeText(t[..k], 0) && TrailerText(t[k..]) {
      var k :| 0 <= k <= |t| && SizeText(t[..k], 0) && TrailerText(t[k..]);
      LastReads(w, i, e, k);
    } else {
      var k, n :| 0 <= k && 0 < n && ChunkAt(t, k, n, payload) && ChunkedText(t[k + n + 2..], payload[n..]);
      hide ChunkedText;
      SliceFront(w, i, e, i + k + n + 2);
      BodyReads(w, i + k + n + 2, e, payload[n..]);
      ChunkReads(w, i, e, k, n, payload);
    }
  }

  /** The last chunk and its trailers end the body. */
  lemma LastReads(w: Bytes, i: nat, e: nat, k: nat)
    requires i <= e <= |w| && k <= e - i && SizeText(w[i..e][..k], 0) && TrailerText(w[i..e][k..])
    ensures ChunkedRest(w, i, Size) == Outcome([], Complete(e))
  {
    hide SizeLine, TrailerLines, SizeText, TrailerText;
    SliceFront(w, i, e, i + k);
    SizeLineGrammar(w, i, 0, i + k);
    TrailerGrammar(w, i + k, e);
    assert ChunkedRest(w, i + k, Trailers) == ChunkedRest(w, e, ChunkState.Done);
  }

  /** A chunk of the grammar is read as its data, before what follows it. */
  lemma ChunkReads(w: Bytes, i: nat, e: nat, k: nat, n: nat, payload: Bytes)
    requires i <= e <= |w| && n > 0 && ChunkAt(w[i..e], k, n, payload)
    requires ChunkedRest(w, i + k + n + 2, Size) == Outcome(payload[n..], Complete(e))
    ensures ChunkedRest(w, i, Size) == Outcome(payload, Complete(e))
  {
    hide SizeLine, TrailerLines, SizeText;
    var t, j := w[i..e], i + k;
    SliceFront(w, i, e, j);
    SizeLineGrammar(w, i, n, j);
    BreakAfter(w, i, e, k + n);
    assert DataEnd(w, j + n) == Line((), j + n + 2);
    assert ChunkedRest(w, j + n, DataCrlf) == ChunkedRest(w, j + n + 2, Size);
    assert ChunkedRest(w, i, Size) == ChunkedRest(w, j, Data(n));
    assert ChunkedRest(w, j, Data(n)) == Prepend(w[j..j + n], ChunkedRest(w, j + n, DataCrlf));
    hide *;
    SliceWithin(w, i, e, k, k + n);
    assert payload == payload[..n] + payload[n..];
  }

  lemma BreakAfter(w: Bytes, i: nat, e: nat, m: nat)
    requires i <= e <= |w| && m + 2 <= e - i && w[i..e][m..m + 2] == CRLF
    ensures w[i + m] == CR && w[i + m + 1] == LF
  {
    var t := w[i..e];
    var q := t[m..m + 2];
    assert q[0] == t[m] && q[1] == t[m + 1];
    assert t[m] == w[i + m] && t[m + 1] == w[i + m + 1];
  }

  /** The reader takes exactly the chunked bodies of the grammar, with the payload they carry, up to their end. */
  lemma BodyGrammar(w: Bytes, i: nat, e: nat, payload: Bytes)
    requires i <= |w|
    ensures ChunkedRest(w, i, Size) == Outcome(payload, Complete(e)) <==> i <= e <= |w| && ChunkedText(w[i..e], payload)
  {
    hide ChunkedRest, ChunkedText;
    if ChunkedRest(w, i, Size) == Outcome(payload, Complete(e)) {
      BodyScanned(w, i);
    }
    if i <= e <= |w| && ChunkedText(w[i..e], payload) {
      BodyReads(w, i, e, payload);
    }
  }
}
