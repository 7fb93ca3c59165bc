/** The chunked body grammar, written down without a scanner, and what the scanner makes
    of it: it accepts exactly that, and refuses exactly what cannot become that. */
module ChunkGrammar {
  import opened Bytes
  import opened Framing
  import opened Stability
  import opened ChunkedBody
  import opened ChunkEncoding

  // ---- hexadecimal digits ----

  const DIGITS: string := "0123456789abcdef"
  const UPPER_DIGITS: string := "0123456789ABCDEF"

  /** The digits are 0-9, a-f and A-F, and each stands for its place among them. */
  lemma HexDigits(c: byte)
    ensures IsHex(c) <==> (c as int as char) in DIGITS || (c as int as char) in UPPER_DIGITS
    ensures forall i :: 0 <= i < 16 ==> HexDigit(DIGITS[i] as int as byte) == i == HexDigit(UPPER_DIGITS[i] as int as byte)
  {
    var ch := c as int as char;
    if IsHex(c) {
      var i := HexDigit(c);
      assert ch == DIGITS[i] || ch == UPPER_DIGITS[i];
    }
  }

  // ---- size lines ----

  /** A chunk-size line: digits of value `n`, at least one, perhaps an extension, and CRLF. */
  ghost predicate IsSizeLine(w: seq<byte>, n: nat) {
    exists d: nat :: IsSizeLineWith(w, n, d)
  }

  ghost predicate IsSizeLineWith(w: seq<byte>, n: nat, d: nat) {
    && 1 <= d && d + 2 <= |w|
    && AllHex(w[..d]) && HexValue(w[..d]) == n
    && IsExtension(w[d..|w| - 2]) && w[|w| - 2..] == CRLF
  }

  lemma {:induction false} HexRunIs(b: seq<byte>)
    ensures AllHex(b[..HexRun(b)]) && (HexRun(b) < |b| ==> !IsHex(b[HexRun(b)]))
  {
    if b != [] && IsHex(b[0]) {
      HexRunIs(b[1..]);
      var rest := b[1..][..HexRun(b[1..])];
      forall i | 0 <= i < HexRun(b) ensures IsHex(b[i]) {
        if i > 0 { assert b[i] == rest[i - 1]; }
      }
    }
  }

  /** A line read is a size line of the grammar. */
  lemma LineIsSizeLine(b: seq<byte>)
    requires ScanSizeLine(b).Line?
    ensures IsSizeLine(b[..ScanSizeLine(b).dataStart], ScanSizeLine(b).size)
  {
    var d, k := HexRun(b), ScanSizeLine(b).dataStart;
    var w := b[..k];
    HexRunIs(b);
    assert w[..d] == b[..d] && w[d..|w| - 2] == b[d..k - 2] && w[|w| - 2..] == b[k - 2..k];
    if b[d] == SEMICOLON {
      FindIsFirst(b, CRLF, d);
      NotWithin(b, d, k - 2);
    }
    hide IsHex, HexValue;
    assert IsSizeLineWith(w, ScanSizeLine(b).size, d);
  }

  lemma NotWithin(b: seq<byte>, from: nat, to: nat)
    requires from <= to <= |b| && forall j: nat :: from <= j < to ==> !HasAt(b, CRLF, j)
    ensures forall j :: 0 <= j < to - from ==> !HasAt(b[from..to], CRLF, j)
  {
    forall j | 0 <= j < to - from ensures !HasAt(b[from..to], CRLF, j) {
      assert !HasAt(b, CRLF, from + j);
      if j + 2 <= to - from { SliceOf(b, from, to, j, 2); }
    }
  }

  lemma SliceOf(b: seq<byte>, from: nat, to: nat, j: nat, n: nat)
    requires from <= to <= |b| && j + n <= to - from
    ensures b[from..to][j..j + n] == b[from + j..from + j + n]
  {
    var x, y := b[from..to][j..j + n], b[from + j..from + j + n];
    assert |x| == |y|;
    forall t | 0 <= t < n ensures x[t] == y[t] {}
  }

  /** A size line of the grammar is read, whatever follows. */
  lemma SizeLineIsLine(w: seq<byte>, n: nat, rest: seq<byte>)
    requires IsSizeLine(w, n)
    ensures ScanSizeLine(w + rest) == Line(n, |w|)
  {
    var d: nat :| IsSizeLineWith(w, n, d);
    var digits, ext := w[..d], w[d..|w| - 2];
    assert w == digits + ext + CRLF;
    DigitsScan(digits, ext, rest);
  }

  /** Exactly the size lines of the grammar are read as such, with their value. */
  lemma SizeLineIff(b: seq<byte>, n: nat, k: nat)
    ensures ScanSizeLine(b) == Line(n, k) <==> k <= |b| && IsSizeLine(b[..k], n)
  {
    if ScanSizeLine(b) == Line(n, k) { LineIsSizeLine(b); }
    if k <= |b| && IsSizeLine(b[..k], n) {
      SizeLineIsLine(b[..k], n, b[k..]);
      assert b == b[..k] + b[k..];
    }
  }

  /** These bytes start with a size line, or can be continued to one. */
  ghost predicate CanBeLine(b: seq<byte>) {
    exists c, n, k: nat :: k <= |b + c| && IsSizeLine((b + c)[..k], n)
  }

  /** The two starts that are refused only once more is there: a lone CR, and an extension
      without a size that has not ended. */
  ghost predicate LateLine(b: seq<byte>) {
    b == [CR] || (b != [] && b[0] == SEMICOLON && forall k :: 0 <= k < |b| ==> !HasAt(b, CRLF, k))
  }

  lemma Continues(b: seq<byte>, c: seq<byte>, n: nat, d: nat)
    requires IsSizeLineWith(b + c, n, d)
    ensures CanBeLine(b)
  {
    assert (b + c)[..|b + c|] == b + c;
    assert IsSizeLine((b + c)[..|b + c|], n);
  }

  /** What can be continued to a size line is not refused. */
  lemma NotRefused(b: seq<byte>)
    requires CanBeLine(b)
    ensures !ScanSizeLine(b).BadSize?
  {
    var c, n, k: nat :| k <= |b + c| && IsSizeLine((b + c)[..k], n);
    SizeLineIff(b + c, n, k);
    assert (b + c)[..|b|] == b;
    SizeLineCut(b + c, |b|);
  }

  /** What is neither refused nor late can be continued. */
  lemma IncompleteContinues(b: seq<byte>)
    requires !ScanSizeLine(b).BadSize? && !LateLine(b)
    ensures CanBeLine(b)
  {
    var d := HexRun(b);
    HexRunIs(b);
    if ScanSizeLine(b).Line? {
      LineIsSizeLine(b);
      assert b + [] == b;
    } else if b == [] {
      var zero: seq<byte> := [48, CR, LF];
      assert b + zero == zero && zero[1..1] == [] && zero[..1] == [48];
      Continues(b, zero, HexValue([48]), 1);
    } else if d == |b| {
      assert (b + CRLF)[..d] == b == b[..d] && (b + CRLF)[d..d] == [];
      Continues(b, CRLF, HexValue(b), d);
    } else if b[d] == CR {
      var w := b + [LF];
      assert w[..d] == b[..d] && w[d..|w| - 2] == [] && w[|w| - 2..] == CRLF;
      Continues(b, [LF], HexValue(b[..d]), d);
    } else {
      OpenExtension(b, d);
    }
  }

  lemma OpenExtension(b: seq<byte>, d: nat)
    requires d < |b| && AllHex(b[..d]) && b[d] == SEMICOLON && Find(b, CRLF, d).None? && !LateLine(b)
    ensures CanBeLine(b)
  {
    FindIsFirst(b, CRLF, d);
    if d == 0 {
      assert LateLine(b);
    } else {
      NotWithin(b, d, |b|);
      EndsLine(b, d);
      Continues(b, CRLF, HexValue(b[..d]), d);
    }
  }

  lemma EndsLine(b: seq<byte>, d: nat)
    requires 1 <= d < |b| && AllHex(b[..d]) && IsExtension(b[d..|b|])
    ensures IsSizeLineWith(b + CRLF, HexValue(b[..d]), d)
  {
    hide IsExtension, HexValue, AllHex;
    var w := b + CRLF;
    assert w[..d] == b[..d] && w[d..|w| - 2] == b[d..|b|] && w[|w| - 2..] == CRLF;
  }

  lemma LateNotRefused(b: seq<byte>)
    requires LateLine(b)
    ensures ScanSizeLine(b).Incomplete?
  {
    FindIsFirst(b, CRLF, 0);
  }

  /** Exactly what is not, and cannot become, a size line is refused, except that two such
      starts are refused later; the offset names the first byte that is no digit. */
  lemma BadSizeIff(b: seq<byte>, o: nat)
    ensures ScanSizeLine(b) == BadSize(o) <==>
      && !CanBeLine(b) && !LateLine(b)
      && 0 < o <= |b| && AllHex(b[..o - 1]) && !IsHex(b[o - 1])
  {
    HexRunIs(b);
    if ScanSizeLine(b).BadSize? {
      if CanBeLine(b) { NotRefused(b); }
      if LateLine(b) { LateNotRefused(b); }
    } else if !LateLine(b) {
      IncompleteContinues(b);
    }
    if 0 < o <= |b| && AllHex(b[..o - 1]) && !IsHex(b[o - 1]) {
      HexRunOf(b[..o - 1], b[o - 1..]);
      assert b == b[..o - 1] + b[o - 1..];
    }
  }

  /** The byte at fault: before it the line could still be continued, with it no more,
      except that a CR after digits is at fault when no LF follows. */
  lemma BadByte(b: seq<byte>)
    requires ScanSizeLine(b).BadSize?
    ensures var o := ScanSizeLine(b).offset;
      && CanBeLine(b[..o - 1])
      && (CanBeLine(b[..o]) <==> b[o - 1] == CR && o > 1)
  {
    var o := ScanSizeLine(b).offset;
    BadSizeIff(b, o);
    HexRunCut(b, o - 1);
    HexRunCut(b, o);
    HexRunOf(b[..o - 1], b[o - 1..]);
    assert b == b[..o - 1] + b[o - 1..];
    BadSizePrefix(b, o - 1);
    assert b[..o][..o - 1] == b[..o - 1];
    IncompleteContinues(b[..o - 1]);
    if b[o - 1] == CR && o > 1 {
      IncompleteContinues(b[..o]);
    } else if CanBeLine(b[..o]) {
      OnlyDigitsGoOn(b[..o], o - 1);
    }
  }

  /** The first byte of a size line that is no digit is a CR or a semicolon, after a digit. */
  lemma OnlyDigitsGoOn(w: seq<byte>, d: nat)
    requires CanBeLine(w) && d < |w| && AllHex(w[..d]) && !IsHex(w[d])
    ensures d > 0 && (w[d] == CR || w[d] == SEMICOLON)
  {
    var c, n, k: nat :| k <= |w + c| && IsSizeLine((w + c)[..k], n);
    SizeLineIff(w + c, n, k);
    HexRunOf(w[..d], (w + c)[d..]);
    assert w + c == w[..d] + (w + c)[d..];
  }

  // ---- whole bodies ----

  ghost predicate AreTrailers(lines: seq<seq<byte>>) {
    forall i :: 0 <= i < |lines| ==> IsTrailerLine(lines[i])
  }

  /** The end of a body after its last size line: trailer lines, none empty, and an empty line. */
  ghost predicate IsEnd(t: seq<byte>) {
    exists lines :: AreTrailers(lines) && t == TrailerBytes(lines) + CRLF
  }

  /** A chunk of `n` bytes, at least one, whose size line takes `k` bytes. */
  ghost predicate StartsChunk(w: seq<byte>, k: nat, n: nat) {
    n > 0 && k + n + 2 <= |w| && IsSizeLine(w[..k], n) && w[k + n..k + n + 2] == CRLF
  }

  /** The last chunk, of size zero, and the end. */
  ghost predicate IsLast(w: seq<byte>, k: nat) {
    k <= |w| && IsSizeLine(w[..k], 0) && IsEnd(w[k..])
  }

  /** Chunks, whose data is the payload, and the last one (section 7.1 of RFC 9112). */
  ghost predicate IsBody(w: seq<byte>, payload: seq<byte>)
    decreases |w|, 1
  {
    || (payload == [] && exists k: nat :: IsLast(w, k))
    || (exists k: nat, n: nat :: StartsChunk(w, k, n) && IsChunkThenBody(w, k, n, payload))
  }

  ghost predicate IsChunkThenBody(w: seq<byte>, k: nat, n: nat, payload: seq<byte>)
    requires StartsChunk(w, k, n)
    decreases |w|, 0
  {
    n <= |payload| && payload[..n] == w[k..k + n] && IsBody(w[k + n + 2..], payload[n..])
  }

  /** The scanner's end of a trailer section is that of the grammar. */
  lemma EndIff(b: seq<byte>, from: nat, end: nat)
    ensures TerminalEnd(b, from) == Some(end) <==> from <= end <= |b| && IsEnd(b[from..end])
  {
    if TerminalEnd(b, from) == Some(end) {
      EndHasLines(b, from);
    }
    if from <= end <= |b| && IsEnd(b[from..end]) {
      var lines :| AreTrailers(lines) && b[from..end] == TrailerBytes(lines) + CRLF;
      ScansEnd(b[..from], lines, b[end..]);
      ThreeParts(b, from, end, TrailerBytes(lines));
    }
  }

  lemma ThreeParts(b: seq<byte>, from: nat, end: nat, x: seq<byte>)
    requires from <= end <= |b| && b[from..end] == x + CRLF
    ensures b[..from] + x + CRLF + b[end..] == b
  {
    assert b[..from] + x + CRLF == b[..from] + (x + CRLF);
    assert b[..from] + b[from..end] == b[..end];
  }

  lemma {:induction false} EndHasLines(b: seq<byte>, from: nat)
    requires TerminalEnd(b, from).Some?
    ensures IsEnd(b[from..TerminalEnd(b, from).value])
    decreases |b| - from
  {
    var end := TerminalEnd(b, from).value;
    if HasAt(b, CRLF, from) {
      assert b[from..end] == TrailerBytes([]) + CRLF && AreTrailers([]);
    } else {
      var p := FirstLineEnd(b, from);
      EndHasLines(b, p + 2);
      var lines :| AreTrailers(lines) && b[p + 2..end] == TrailerBytes(lines) + CRLF;
      NotWithin(b, from, p);
      OneMoreTrailer(b, from, p, end, lines);
    }
  }

  lemma OneMoreTrailer(b: seq<byte>, from: nat, p: nat, end: nat, lines: seq<seq<byte>>)
    requires from < p && p + 2 <= end <= |b| && b[p..p + 2] == CRLF && IsTrailerLine(b[from..p])
    requires AreTrailers(lines) && b[p + 2..end] == TrailerBytes(lines) + CRLF
    ensures IsEnd(b[from..end])
  {
    var all := [b[from..p]] + lines;
    assert all[1..] == lines;
    assert b[from..end] == b[from..p] + b[p..p + 2] + b[p + 2..end];
    assert TrailerBytes(all) + CRLF == b[from..p] + CRLF + (TrailerBytes(lines) + CRLF);
    assert AreTrailers(all);
  }

  lemma TerminatorParts(b: seq<byte>, k: nat)
    ensures HasAt(b, HEADER_TERMINATOR, k) <==> HasAt(b, CRLF, k) && HasAt(b, CRLF, k + 2)
    ensures HasAt(b, CRLF, k) <==> k + 2 <= |b| && b[k] == CR && b[k + 1] == LF
  {
    if k + 4 <= |b| {
      var x := b[k..k + 4];
      assert x[..2] == b[k..k + 2] && x[2..] == b[k + 2..k + 4];
      assert x == x[..2] + x[2..];
    }
  }

  /** A trailer section that does not start with its empty line starts with a line, and the
      section goes on after it to the same end. */
  lemma FirstLineEnd(b: seq<byte>, from: nat) returns (p: nat)
    requires TerminalEnd(b, from).Some? && !HasAt(b, CRLF, from)
    ensures from < p && HasAt(b, CRLF, p) && forall j: nat :: from <= j < p ==> !HasAt(b, CRLF, j)
    ensures TerminalEnd(b, p + 2) == TerminalEnd(b, from)
  {
    var q := TerminalEnd(b, from).value - 4;
    FindIsFirst(b, HEADER_TERMINATOR, from);
    TerminatorParts(b, q);
    FindIsFirst(b, CRLF, from);
    p := Find(b, CRLF, from).value;
    TerminatorParts(b, p);
    if p != q {
      TerminatorParts(b, p + 1);
      LaterTerminator(b, from, p, q);
    }
  }

  lemma LaterTerminator(b: seq<byte>, from: nat, p: nat, q: nat)
    requires from < p < q && Find(b, HEADER_TERMINATOR, from) == Some(q)
    requires HasAt(b, CRLF, p) && !HasAt(b, CRLF, p + 1)
    ensures TerminalEnd(b, p + 2) == Some(q + 4)
  {
    FindIsFirst(b, HEADER_TERMINATOR, from);
    TerminatorParts(b, p);
    TerminatorParts(b, q);
    hide HasAt;
    if q == p + 1 { assert false; }
    FindFirst(b, HEADER_TERMINATOR, p + 2, q);
  }

  // ---- steps ----

  /** The scanner's chunks are those of the grammar. */
  lemma ChunkIff(b: seq<byte>, k: nat, n: nat)
    ensures StepAt(b, 0) == Chunk(k, k + n) <==> StartsChunk(b, k, n)
  {
    SizeLineIff(b, n, k);
    TerminatorParts(b, k + n);
    if k + n + 2 <= |b| { assert HasAt(b, CRLF, k + n) <==> b[k + n..k + n + 2] == CRLF; }
    if ScanSizeLine(b).Line? { SizeLineIff(b, ScanSizeLine(b).size, ScanSizeLine(b).dataStart); }
  }

  /** The scanner's end of the body is the grammar's. */
  lemma LastIff(b: seq<byte>, end: nat)
    ensures StepAt(b, 0) == Terminal(Some(end)) <==> end <= |b| && exists k: nat :: IsLast(b[..end], k)
  {
    if StepAt(b, 0) == Terminal(Some(end)) {
      var k := ScanSizeLine(b).dataStart;
      SizeLineIff(b, 0, k);
      EndIff(b, k, end);
      assert b[..end][..k] == b[..k] && b[..end][k..] == b[k..end];
      assert IsLast(b[..end], k);
    }
    if end <= |b| && exists k: nat :: IsLast(b[..end], k) {
      var k: nat :| IsLast(b[..end], k);
      assert b[..end][..k] == b[..k] && b[..end][k..] == b[k..end];
      SizeLineIff(b, 0, k);
      EndIff(b, k, end);
    }
  }

  /** A complete body is one of the grammar, with this payload. */
  lemma {:induction false} CompleteIsBody(b: seq<byte>)
    requires VerdictOf(b, 0).Complete?
    ensures IsBody(b[..VerdictOf(b, 0).size], Payload(b, 0))
    decreases |b|
  {
    hide StepAt, IsLast, StartsChunk;
    var end, step := VerdictOf(b, 0).size, StepAt(b, 0);
    if step.Chunk? {
      var k, n := step.dataStart, step.dataEnd - step.dataStart;
      ChunkIff(b, k, n);
      CompleteIsBody(Tail(b, 0));
      ChunkInFront(b, k, n, end, Payload(Tail(b, 0), 0));
    } else {
      LastIff(b, end);
    }
  }

  lemma ChunkInFront(b: seq<byte>, k: nat, n: nat, end: nat, payload: seq<byte>)
    requires StartsChunk(b, k, n) && k + n + 2 <= end <= |b|
    requires IsBody(b[k + n + 2..][..end - (k + n + 2)], payload)
    ensures IsBody(b[..end], b[k..k + n] + payload)
  {
    hide IsSizeLine;
    var w, all := b[..end], b[k..k + n] + payload;
    assert w[..k] == b[..k] && w[k..k + n] == b[k..k + n] && w[k + n..k + n + 2] == b[k + n..k + n + 2];
    assert StartsChunk(w, k, n);
    assert w[k + n + 2..] == b[k + n + 2..][..end - (k + n + 2)] && all[n..] == payload;
    assert IsChunkThenBody(w, k, n, all);
  }

  /** A body of the grammar is complete where it ends, whatever follows, and has its payload. */
  lemma {:induction false} BodyIsComplete(w: seq<byte>, payload: seq<byte>, rest: seq<byte>)
    requires IsBody(w, payload)
    ensures VerdictOf(w + rest, 0) == Complete(|w|) && Payload(w + rest, 0) == payload
    decreases |w|
  {
    hide StepAt, IsLast, StartsChunk, VerdictOf, Payload;
    var b := w + rest;
    if payload == [] && exists k: nat :: IsLast(w, k) {
      assert b[..|w|] == w;
      LastIff(b, |w|);
      LastFirst(b, |w|);
    } else {
      var k: nat, n: nat :| StartsChunk(w, k, n) && IsChunkThenBody(w, k, n, payload);
      ChunkGoesOn(w, k, n, rest);
      ChunkIff(b, k, n);
      BodyIsComplete(w[k + n + 2..], payload[n..], rest);
      ChunkFirst(b, k, n);
      hide *;
      assert payload == payload[..n] + payload[n..];
    }
  }

  lemma {:induction false} LastFirst(b: seq<byte>, end: nat)
    requires StepAt(b, 0) == Terminal(Some(end))
    ensures VerdictOf(b, 0) == Complete(end) && Payload(b, 0) == []
  {
    hide StepAt;
  }

  lemma {:induction false} ChunkFirst(b: seq<byte>, k: nat, n: nat)
    requires StepAt(b, 0) == Chunk(k, k + n)
    ensures k + n + 2 <= |b| && Payload(b, 0) == b[k..k + n] + Payload(b[k + n + 2..], 0)
    ensures VerdictOf(b, 0) == VerdictOf(b[k + n + 2..], 0).Later(k + n + 2)
  {
    hide StepAt;
  }

  lemma ChunkGoesOn(w: seq<byte>, k: nat, n: nat, rest: seq<byte>)
    requires StartsChunk(w, k, n)
    ensures var b := w + rest;
      && StartsChunk(b, k, n) && k + n + 2 <= |w|
      && b[k..k + n] == w[k..k + n] && b[k + n + 2..] == w[k + n + 2..] + rest
  {
    hide IsSizeLine;
    var b := w + rest;
    assert b[..k] == w[..k] && b[k + n..k + n + 2] == w[k + n..k + n + 2];
  }

  /** The verdict is complete after `k` bytes, with this payload, exactly when they are a
      body of the grammar with this payload. */
  lemma BodyIff(b: seq<byte>, k: nat, payload: seq<byte>)
    ensures VerdictOf(b, 0) == Complete(k) && Payload(b, 0) == payload <==> k <= |b| && IsBody(b[..k], payload)
  {
    hide StepAt, Payload, IsBody;
    if VerdictOf(b, 0) == Complete(k) && Payload(b, 0) == payload { CompleteIsBody(b); }
    if k <= |b| && IsBody(b[..k], payload) {
      BodyIsComplete(b[..k], payload, b[k..]);
      assert b == b[..k] + b[k..];
    }
  }

  ghost predicate StartsWithBody(b: seq<byte>) {
    exists k: nat, payload :: k <= |b| && IsBody(b[..k], payload)
  }

  /** The verdict is complete exactly when a body of the grammar comes first. */
  lemma CompleteIff(b: seq<byte>)
    ensures VerdictOf(b, 0).Complete? <==> StartsWithBody(b)
    ensures VerdictOf(b, 0).Complete? ==> IsBody(b[..VerdictOf(b, 0).size], Payload(b, 0))
  {
    var v := VerdictOf(b, 0);
    hide VerdictOf, Payload, IsBody;
    if v.Complete? { BodyIff(b, v.size, Payload(b, 0)); }
    if StartsWithBody(b) {
      var k: nat, payload :| k <= |b| && IsBody(b[..k], payload);
      BodyIff(b, k, payload);
    }
  }

  /** What a scan leaves at its resume point: a chunk begun, with the data that is there and
      how much is missing, or nothing begun. */
  ghost predicate Leaves(b: seq<byte>, s: PayloadScan) {
    && s.resumeFrom <= |b|
    && var rest := b[s.resumeFrom..];
       if exists k: nat, n: nat :: n > 0 && k <= |rest| && IsSizeLine(rest[..k], n) then
         exists k: nat, n: nat :: n > 0 && k <= |rest| && IsSizeLine(rest[..k], n) && Begun(s, |rest|, k, n)
       else s.partial.None? && s.dataLeft == 0
  }

  predicate Begun(s: PayloadScan, size: nat, k: nat, n: nat) {
    && s.partial == Some(Range(s.resumeFrom + k, s.resumeFrom + if k + n <= size then k + n else size))
    && s.dataLeft == (if k + n <= size then 0 else k + n - size)
  }

  lemma {:induction false} ScanLeaves(b: seq<byte>, i: nat)
    requires i <= |b| && ScanFrom(b, i, 0).Scanned? && ScanFrom(b, i, 0).scan.end.None?
    ensures Leaves(b, ScanFrom(b, i, 0).scan)
    decreases |b| - i
  {
    hide StepAt, Leaves;
    var step := StepAt(b[i..], 0);
    if step.Chunk? {
      ScanLeaves(b, AfterChunk(step, i));
      SameLeaves(b, ScanFrom(b, i, 0).scan, ScanFrom(b, AfterChunk(step, i), 0).scan);
    } else {
      StopLeaves(b, i);
    }
  }

  lemma SameLeaves(b: seq<byte>, s: PayloadScan, t: PayloadScan)
    requires Leaves(b, t) && s.resumeFrom == t.resumeFrom && s.partial == t.partial && s.dataLeft == t.dataLeft
    ensures Leaves(b, s)
  {
    hide IsSizeLine;
    var rest := b[s.resumeFrom..];
    if exists k: nat, n: nat :: n > 0 && k <= |rest| && IsSizeLine(rest[..k], n) {
      var k: nat, n: nat :| n > 0 && k <= |rest| && IsSizeLine(rest[..k], n) && Begun(t, |rest|, k, n);
      assert Begun(s, |rest|, k, n);
    }
  }

  lemma StopLeaves(b: seq<byte>, i: nat)
    requires i <= |b| && !StepAt(b[i..], 0).Chunk?
    requires var r := StopScan(StepAt(b[i..], 0), i, |b|); r.Scanned? && r.scan.end.None?
    ensures Leaves(b, StopScan(StepAt(b[i..], 0), i, |b|).scan)
  {
    var rest := b[i..];
    var s := StopScan(StepAt(rest, 0), i, |b|).scan;
    var line := ScanSizeLine(rest);
    if line.Line? { SizeLineIff(rest, line.size, line.dataStart); }
    if k: nat, n: nat :| n > 0 && k <= |rest| && IsSizeLine(rest[..k], n) {
      SizeLineIff(rest, n, k);
      assert StepAt(rest, 0) == DataStep(rest, n, k);
      hide IsSizeLine;
      assert Begun(s, |rest|, k, n);
    }
  }

  // ---- what is refused ----

  /** These bytes start with a body, or can be continued to one. */
  ghost predicate CanBeBody(b: seq<byte>) {
    exists c, k: nat, payload :: k <= |b + c| && IsBody((b + c)[..k], payload)
  }

  /** A chunk whose terminator has one byte so far, and a wrong one, is refused only once
      the second is there. */
  ghost predicate LateChunk(r: seq<byte>) {
    exists k: nat, n: nat :: n > 0 && |r| == k + n + 1 && IsSizeLine(r[..k], n) && r[k + n] != CR
  }

  /** After its complete chunks, the body stands at a start that is refused late. */
  ghost predicate LateBody(b: seq<byte>) {
    var rest := b[ChunksSize(b, 0)..];
    LateLine(rest) || LateChunk(rest)
  }

  /** The verdict is that of the step after the complete chunks. */
  lemma {:induction false} VerdictOfRest(b: seq<byte>)
    ensures var rest := b[ChunksSize(b, 0)..]; var step := StepAt(rest, 0);
      && !step.Chunk?
      && (VerdictOf(b, 0).Malformed? <==> step.BadLine? || step.BadTerminator?)
      && (VerdictOf(b, 0).Complete? <==> step.Terminal? && step.end.Some?)
    decreases |b|
  {
    hide StepAt;
    if StepAt(b, 0).Chunk? {
      VerdictOfRest(Tail(b, 0));
      assert Tail(b, 0)[ChunksSize(Tail(b, 0), 0)..] == b[ChunksSize(b, 0)..];
    } else {
      assert b[0..] == b;
    }
  }

  lemma LateIsOpen(r: seq<byte>)
    requires LateLine(r) || LateChunk(r)
    ensures StepAt(r, 0).NeedLine? || StepAt(r, 0).Partial?
  {
    if LateLine(r) {
      LateNotRefused(r);
    } else {
      var k: nat, n: nat :| n > 0 && |r| == k + n + 1 && IsSizeLine(r[..k], n) && r[k + n] != CR;
      SizeLineIff(r, n, k);
    }
  }

  function Zeros(n: nat): seq<byte> {
    seq(n, _ => 48)
  }

  const LAST: seq<byte> := [48, CR, LF, CR, LF]

  lemma LastIsBody()
    ensures IsBody(LAST, [])
  {
    assert HexValue([48]) == 0 by { assert [48 as byte][..0] == []; }
    var line := LAST[..3];
    assert line[..1] == [48] && line[1..1] == [] && line[1..] == CRLF;
    assert IsSizeLineWith(line, 0, 1);
    assert LAST[3..] == TrailerBytes([]) + CRLF && AreTrailers([]);
    assert IsLast(LAST, 3);
  }

  lemma BodyFrom(b: seq<byte>, c: seq<byte>, payload: seq<byte>)
    requires IsBody(b + c, payload)
    ensures CanBeBody(b)
  {
    assert (b + c)[..|b + c|] == b + c;
  }

  lemma ChunkThenLast(w: seq<byte>, k: nat, n: nat)
    requires n > 0 && |w| == k + n + 2 + |LAST| && IsSizeLine(w[..k], n)
    requires w[k + n..k + n + 2] == CRLF && w[k + n + 2..] == LAST
    ensures IsBody(w, w[k..k + n] + [])
  {
    LastIsBody();
    hide IsSizeLine, IsBody;
    assert w[..|w|] == w && w[k + n + 2..][..|LAST|] == LAST;
    ChunkInFront(w, k, n, |w|, []);
  }

  lemma DataContinues(r: seq<byte>, k: nat, n: nat)
    requires n > 0 && k <= |r| < k + n + 2 && IsSizeLine(r[..k], n)
    requires |r| == k + n + 1 ==> r[k + n] == CR
    ensures CanBeBody(r)
  {
    hide IsSizeLine, IsBody, CanBeBody;
    var c := (if |r| <= k + n then Zeros(k + n - |r|) + CRLF else [LF]) + LAST;
    var w := r + c;
    assert w[..k] == r[..k];
    if |r| <= k + n {
      assert w[k + n..k + n + 2] == CRLF;
    } else {
      assert w[k + n] == CR && w[k + n + 1] == LF;
    }
    assert w[k + n + 2..] == LAST;
    ChunkThenLast(w, k, n);
    BodyFrom(r, c, w[k..k + n] + []);
  }

  lemma TrailersContinue(r: seq<byte>, k: nat)
    requires k <= |r| && IsSizeLine(r[..k], 0)
    ensures CanBeBody(r)
  {
    var w := r + HEADER_TERMINATOR;
    assert w[..k] == r[..k];
    SizeLineIff(w, 0, k);
    FindIsFirst(w, HEADER_TERMINATOR, k);
    assert HasAt(w, HEADER_TERMINATOR, |r|);
    assert StepAt(w, 0) == Terminal(TerminalEnd(w, k)) && TerminalEnd(w, k).Some?;
    hide StepAt;
    CompleteIsBody(w);
    assert CanBeBody(r);
  }

  /** A size line can be continued to a body. */
  lemma LineContinues(y: seq<byte>, n: nat)
    requires IsSizeLine(y, n)
    ensures CanBeBody(y)
  {
    hide IsSizeLine, CanBeBody;
    assert y[..|y|] == y;
    if n == 0 { TrailersContinue(y, |y|); } else { DataContinues(y, |y|, n); }
  }

  lemma PrefixContinues(b: seq<byte>, y: seq<byte>)
    requires b <= y && CanBeBody(y)
    ensures CanBeBody(b)
  {
    hide IsBody;
    var c, k: nat, payload :| k <= |y + c| && IsBody((y + c)[..k], payload);
    assert b + (y[|b|..] + c) == y + c;
  }

  /** What is open and not late can be continued to a body. */
  lemma OpenContinues(r: seq<byte>)
    requires var step := StepAt(r, 0); step.NeedLine? || step.Partial? || step.Terminal?
    requires !LateLine(r) && !LateChunk(r)
    ensures CanBeBody(r)
  {
    var step, line := StepAt(r, 0), ScanSizeLine(r);
    if step.NeedLine? {
      IncompleteContinues(r);
      var c, n, k: nat :| k <= |r + c| && IsSizeLine((r + c)[..k], n);
      if k <= |r| {
        assert (r + c)[..k] == r[..k];
        SizeLineIff(r, n, k);
      }
      LineContinues((r + c)[..k], n);
      PrefixContinues(r, (r + c)[..k]);
    } else {
      SizeLineIff(r, line.size, line.dataStart);
      if step.Partial? {
        DataContinues(r, line.dataStart, line.size);
      } else {
        TrailersContinue(r, line.dataStart);
      }
    }
  }

  lemma {:induction false} ChunksContinue(b: seq<byte>)
    requires CanBeBody(b[ChunksSize(b, 0)..])
    ensures CanBeBody(b)
    decreases |b|
  {
    hide StepAt, IsBody;
    if StepAt(b, 0).Chunk? {
      var step, t := StepAt(b, 0), Tail(b, 0);
      assert t[ChunksSize(t, 0)..] == b[ChunksSize(b, 0)..];
      ChunksContinue(t);
      var c, e: nat, payload :| e <= |t + c| && IsBody((t + c)[..e], payload);
      var k, n := step.dataStart, step.dataEnd - step.dataStart;
      ChunkIff(b, k, n);
      ChunkGoesOn(b, k, n, c);
      ChunkInFront(b + c, k, n, k + n + 2 + e, payload);
      assert CanBeBody(b);
    } else {
      assert b[0..] == b;
    }
  }

  /** Exactly what is not, and cannot become, a body is malformed, but for the starts that
      are refused late. */
  lemma MalformedIff(b: seq<byte>)
    ensures VerdictOf(b, 0).Malformed? <==> !CanBeBody(b) && !LateBody(b)
  {
    var rest := b[ChunksSize(b, 0)..];
    VerdictOfRest(b);
    if VerdictOf(b, 0).Malformed? {
      if CanBeBody(b) { BodyNotRefused(b); }
      if LateBody(b) { LateIsOpen(rest); }
    } else if !LateBody(b) {
      OpenContinues(rest);
      ChunksContinue(b);
    }
  }

  lemma BodyNotRefused(b: seq<byte>)
    requires CanBeBody(b)
    ensures !VerdictOf(b, 0).Malformed?
  {
    hide IsBody, StepAt;
    var c, k: nat, payload :| k <= |b + c| && IsBody((b + c)[..k], payload);
    BodyIff(b + c, k, payload);
    if VerdictOf(b, 0).Malformed? { StopIsFinal(b, c, 0); }
  }

  /** Where it fails: at the byte at fault of the first size line or chunk that does. */
  lemma {:induction false} MalformedAt(b: seq<byte>)
    requires VerdictOf(b, 0).Malformed?
    ensures var step := StepAt(b[ChunksSize(b, 0)..], 0);
      && (step.BadLine? || step.BadTerminator?) && VerdictOf(b, 0).size == ChunksSize(b, 0) + step.offset
    decreases |b|
  {
    hide StepAt;
    if StepAt(b, 0).Chunk? {
      MalformedAt(Tail(b, 0));
      assert Tail(b, 0)[ChunksSize(Tail(b, 0), 0)..] == b[ChunksSize(b, 0)..];
    } else {
      assert b[0..] == b;
    }
  }

  /** Where it fails: at a size line, by its offset, or at the first wrong byte of a chunk's
      terminator. */
  lemma BadTerminatorIff(b: seq<byte>, k: nat, n: nat, o: nat)
    ensures StepAt(b, 0) == BadTerminator(k, k + n, o) <==>
      && n > 0 && k + n + 2 <= |b| && IsSizeLine(b[..k], n)
      && o == (if b[k + n] != CR then k + n + 1 else k + n + 2)
      && b[k + n..k + n + 2] != CRLF
  {
    SizeLineIff(b, n, k);
    if ScanSizeLine(b).Line? { SizeLineIff(b, ScanSizeLine(b).size, ScanSizeLine(b).dataStart); }
    TerminatorParts(b, k + n);
    if k + n + 2 <= |b| { assert HasAt(b, CRLF, k + n) <==> b[k + n..k + n + 2] == CRLF; }
  }
}
