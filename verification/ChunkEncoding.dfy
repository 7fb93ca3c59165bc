/** The chunked encoder's side: what section 7.1 of RFC 9112 lets a sender write. */
module ChunkEncoding {
  import opened Bytes
  import opened Framing

  /** Lower or upper case hexadecimal digits, without leading zeros. */
  function HexOf(n: nat, upper: bool): seq<byte> {
    var d := n % 16;
    var digit: byte := if d < 10 then (48 + d) as byte else if upper then (55 + d) as byte else (87 + d) as byte;
    if n < 16 then [digit] else HexOf(n / 16, upper) + [digit]
  }

  /** An extension: nothing, or text from a semicolon on with no CRLF in it. */
  predicate IsExtension(ext: seq<byte>) {
    (ext != [] ==> ext[0] == SEMICOLON) && forall k :: 0 <= k < |ext| ==> !HasAt(ext, CRLF, k)
  }

  predicate IsTrailerLine(line: seq<byte>) {
    line != [] && forall k :: 0 <= k < |line| ==> !HasAt(line, CRLF, k)
  }

  datatype EncodedChunk = EncodedChunk(payload: seq<byte>, ext: seq<byte>, upper: bool)
  {
    predicate Valid() {
      payload != [] && IsExtension(ext)
    }
  }

  predicate AllHex(b: seq<byte>) {
    forall i :: 0 <= i < |b| ==> IsHex(b[i])
  }

  function SizeLineOf(size: nat, ext: seq<byte>, upper: bool): seq<byte> {
    HexOf(size, upper) + ext + CRLF
  }

  function ChunkBytes(c: EncodedChunk): seq<byte> {
    SizeLineOf(|c.payload|, c.ext, c.upper) + c.payload + CRLF
  }

  function ChunksBytes(cs: seq<EncodedChunk>): seq<byte> {
    if cs == [] then [] else ChunkBytes(cs[0]) + ChunksBytes(cs[1..])
  }

  function TrailerBytes(lines: seq<seq<byte>>): seq<byte> {
    if lines == [] then [] else lines[0] + CRLF + TrailerBytes(lines[1..])
  }

  /** The terminal chunk, the trailer section and the empty line. */
  function EndBytes(ext: seq<byte>, upper: bool, trailers: seq<seq<byte>>): seq<byte> {
    SizeLineOf(0, ext, upper) + TrailerBytes(trailers) + CRLF
  }

  /** Where the payloads stand when the encoding starts at `offset`. */
  function RangesOf(cs: seq<EncodedChunk>, offset: nat): seq<Range> {
    if cs == [] then []
    else
      var start := offset + |SizeLineOf(|cs[0].payload|, cs[0].ext, cs[0].upper)|;
      [Range(start, start + |cs[0].payload|)] + RangesOf(cs[1..], offset + |ChunkBytes(cs[0])|)
  }

  // ---- size lines ----

  lemma {:induction false} HexIsHex(n: nat, upper: bool)
    ensures AllHex(HexOf(n, upper)) && HexValue(HexOf(n, upper)) == n && HexOf(n, upper) != []
  {
    if n >= 16 {
      HexIsHex(n / 16, upper);
      var d := HexOf(n, upper);
      assert d[..|d| - 1] == HexOf(n / 16, upper);
    } else {
      assert HexOf(n, upper)[..0] == [];
    }
  }

  /** Hexadecimal digits followed by another byte are exactly the run found. */
  lemma {:induction false} HexRunOf(digits: seq<byte>, rest: seq<byte>)
    requires AllHex(digits) && rest != [] && !IsHex(rest[0])
    ensures HexRun(digits + rest) == |digits|
  {
    if digits != [] {
      assert (digits + rest)[1..] == digits[1..] + rest;
      HexRunOf(digits[1..], rest);
    } else {
      assert digits + rest == rest;
    }
  }

  /** The CRLF after text without one is the first to be found. */
  lemma FindAfter(pre: seq<byte>, text: seq<byte>, rest: seq<byte>)
    requires forall k :: 0 <= k < |text| ==> !HasAt(text, CRLF, k)
    ensures Find(pre + text + CRLF + rest, CRLF, |pre|) == Some(|pre| + |text|)
  {
    var b := pre + text + CRLF + rest;
    FindIsFirst(b, CRLF, |pre|);
    forall k: nat | |pre| <= k < |pre| + |text|
      ensures !HasAt(b, CRLF, k)
    {
      assert !HasAt(text, CRLF, k - |pre|);
      assert k + 1 < |pre| + |text| ==> b[k..k + 2] == text[k - |pre|..k - |pre| + 2];
      assert b[k..k + 2][1] == b[k + 1];
    }
    assert b[|pre| + |text|..|pre| + |text| + 2] == CRLF;
    assert HasAt(b, CRLF, |pre| + |text|);
  }

  lemma LineAt(b: seq<byte>, d: nat, end: nat)
    requires HexRun(b) == d && 0 < d < |b|
    requires if b[d] == CR then end == d && d + 1 < |b| && b[d + 1] == LF
             else b[d] == SEMICOLON && Find(b, CRLF, d) == Some(end)
    ensures ScanSizeLine(b) == Line(HexValue(b[..d]), end + 2)
  {
    hide HexRun, Find, HexValue;
  }

  /** Any digits, an extension and CRLF are read as a size line. */
  lemma DigitsScan(digits: seq<byte>, ext: seq<byte>, rest: seq<byte>)
    requires digits != [] && AllHex(digits) && IsExtension(ext)
    ensures ScanSizeLine(digits + ext + CRLF + rest) == Line(HexValue(digits), |digits| + |ext| + 2)
  {
    hide *;
    var b, tail := digits + ext + CRLF + rest, ext + CRLF + rest;
    AfterDigits(digits, ext, rest);
    DigitsThen(digits, ext, rest);
    HexRunOf(digits, tail);
    LineAt(b, |digits|, |digits| + |ext|);
  }

  lemma DigitsThen(digits: seq<byte>, ext: seq<byte>, rest: seq<byte>)
    ensures var b, tail := digits + ext + CRLF + rest, ext + CRLF + rest;
      && b == digits + tail && |b| == |digits| + |tail| && b[..|digits|] == digits
      && |tail| >= 2 && b[|digits|] == tail[0] && b[|digits| + 1] == tail[1]
  {
  }

  lemma AfterDigits(digits: seq<byte>, ext: seq<byte>, rest: seq<byte>)
    requires IsExtension(ext)
    ensures var tail := ext + CRLF + rest;
      && |tail| >= 2 && !IsHex(tail[0])
      && (if ext == [] then tail[0] == CR && tail[1] == LF else tail[0] == SEMICOLON != CR)
    ensures ext != [] ==> Find(digits + ext + CRLF + rest, CRLF, |digits|) == Some(|digits| + |ext|)
  {
    FindAfter(digits, ext, rest);
  }

  lemma ScansSizeLine(size: nat, ext: seq<byte>, upper: bool, rest: seq<byte>)
    requires IsExtension(ext)
    ensures ScanSizeLine(SizeLineOf(size, ext, upper) + rest) == Line(size, |SizeLineOf(size, ext, upper)|)
  {
    HexIsHex(size, upper);
    DigitsScan(HexOf(size, upper), ext, rest);
  }

  // ---- the end of the body ----

  lemma NotEmptyLine(b: seq<byte>, k: nat)
    requires k + 4 <= |b|
    requires !HasAt(b, CRLF, k) || !HasAt(b, CRLF, k + 2) || b[k] != CR
    ensures !HasAt(b, HEADER_TERMINATOR, k)
  {
    var w := b[k..k + 4];
    assert w[..2] == b[k..k + 2] && w[2..] == b[k + 2..k + 4] && w[0] == b[k];
  }

  /** No empty line stands before the end of a trailer section of non-empty lines:
      two line ends in a row need an empty line between them. */
  lemma {:induction false} NoEarlyEmptyLine(pre: seq<byte>, lines: seq<seq<byte>>, rest: seq<byte>, k: nat)
    requires forall i :: 0 <= i < |lines| ==> IsTrailerLine(lines[i])
    requires |pre| <= k && k + 2 < |pre| + |TrailerBytes(lines)|
    ensures !HasAt(pre + TrailerBytes(lines) + CRLF + rest, HEADER_TERMINATOR, k)
    decreases |lines|
  {
    var line, after := lines[0], TrailerBytes(lines[1..]);
    var b := pre + TrailerBytes(lines) + CRLF + rest;
    if k >= |pre| + |line| + 2 {
      assert b == pre + line + CRLF + after + CRLF + rest;
      NoEarlyEmptyLine(pre + line + CRLF, lines[1..], rest, k);
    } else if k == |pre| + |line| {
      var more := TrailerBytes(lines[1..][1..]);
      assert after == lines[1] + CRLF + more;
      NextLineStarts(pre + line, lines[1], more, rest);
      assert b == pre + line + CRLF + (lines[1] + CRLF + more) + CRLF + rest;
      NotEmptyLine(b, k);
    } else {
      assert b == pre + line + CRLF + (after + CRLF + rest);
      if k < |pre| + |line| {
        LineHasNoCrlf(pre, line, after + CRLF + rest, k - |pre|);
      }
      NotEmptyLine(b, k);
    }
  }

  lemma LineHasNoCrlf(pre: seq<byte>, line: seq<byte>, rest: seq<byte>, j: nat)
    requires j < |line| && !HasAt(line, CRLF, j)
    ensures !HasAt(pre + line + CRLF + rest, CRLF, |pre| + j)
  {
    var b := pre + line + CRLF + rest;
    var k := |pre| + j;
    assert j + 1 < |line| ==> b[k..k + 2] == line[j..j + 2];
    assert b[k..k + 2][1] == b[k + 1];
  }

  lemma NextLineStarts(pre: seq<byte>, next: seq<byte>, more: seq<byte>, rest: seq<byte>)
    requires IsTrailerLine(next)
    ensures !HasAt(pre + CRLF + (next + CRLF + more) + CRLF + rest, CRLF, |pre| + 2)
  {
    assert !HasAt(next, CRLF, 0);
    assert pre + CRLF + (next + CRLF + more) + CRLF + rest == pre + CRLF + next + CRLF + (more + CRLF + rest);
    LineHasNoCrlf(pre + CRLF, next, more + CRLF + rest, 0);
  }

  lemma EndsWithCrlf(lines: seq<seq<byte>>)
    requires lines != []
    ensures |TrailerBytes(lines)| >= 2 && TrailerBytes(lines)[|TrailerBytes(lines)| - 2..] == CRLF
  {
    var t := TrailerBytes(lines);
    var after := TrailerBytes(lines[1..]);
    if after == [] {
      assert t == lines[0] + CRLF;
    } else {
      EndsWithCrlf(lines[1..]);
      assert t[|t| - 2..] == after[|after| - 2..];
    }
  }

  /** The scanner ends the body at the end of the encoding. */
  lemma ScansEnd(pre: seq<byte>, trailers: seq<seq<byte>>, rest: seq<byte>)
    requires forall i :: 0 <= i < |trailers| ==> IsTrailerLine(trailers[i])
    ensures TerminalEnd(pre + TrailerBytes(trailers) + CRLF + rest, |pre|) == Some(|pre| + |TrailerBytes(trailers)| + 2)
  {
    var t := TrailerBytes(trailers);
    var b := pre + t + CRLF + rest;
    if trailers == [] {
      assert b[|pre|..|pre| + 2] == CRLF;
    } else {
      FirstEmptyLine(pre, trailers, rest);
    }
  }

  lemma FirstEmptyLine(pre: seq<byte>, trailers: seq<seq<byte>>, rest: seq<byte>)
    requires trailers != [] && forall i :: 0 <= i < |trailers| ==> IsTrailerLine(trailers[i])
    ensures var b := pre + TrailerBytes(trailers) + CRLF + rest;
      && !HasAt(b, CRLF, |pre|)
      && |TrailerBytes(trailers)| >= 2
      && Find(b, HEADER_TERMINATOR, |pre|) == Some(|pre| + |TrailerBytes(trailers)| - 2)
  {
    hide TrailerBytes;
    var t := TrailerBytes(trailers);
    var b := pre + t + CRLF + rest;
    NoFirstCrlf(pre, trailers, rest);
    EndsWithCrlf(trailers);
    var end := |pre| + |t| - 2;
    assert HasAt(b, HEADER_TERMINATOR, end) by {
      assert b[end..end + 4] == t[|t| - 2..] + CRLF;
    }
    forall k: nat | |pre| <= k < end
      ensures !HasAt(b, HEADER_TERMINATOR, k)
    {
      NoEarlyEmptyLine(pre, trailers, rest, k);
    }
    FindFirst(b, HEADER_TERMINATOR, |pre|, end);
  }

  lemma NoFirstCrlf(pre: seq<byte>, trailers: seq<seq<byte>>, rest: seq<byte>)
    requires trailers != [] && IsTrailerLine(trailers[0])
    ensures !HasAt(pre + TrailerBytes(trailers) + CRLF + rest, CRLF, |pre|)
  {
    var line, after := trailers[0], TrailerBytes(trailers[1..]);
    assert pre + TrailerBytes(trailers) + CRLF + rest == pre + line + CRLF + (after + CRLF + rest);
    LineHasNoCrlf(pre, line, after + CRLF + rest, 0);
  }

  /** Section 7.1 of RFC 9112: scanning an encoding, whatever stands before and after
      it, finds exactly its payloads, in order, and its end. */
  lemma {:induction false} RoundTrip(pre: seq<byte>, cs: seq<EncodedChunk>, ext: seq<byte>, upper: bool,
    trailers: seq<seq<byte>>, rest: seq<byte>)
    requires forall i :: 0 <= i < |cs| ==> cs[i].Valid()
    requires IsExtension(ext)
    requires forall i :: 0 <= i < |trailers| ==> IsTrailerLine(trailers[i])
    ensures var encoded := ChunksBytes(cs) + EndBytes(ext, upper, trailers);
      var end := |pre| + |encoded|;
      ScanFrom(pre + encoded + rest, |pre|, 0) ==
        Scanned(PayloadScan(RangesOf(cs, |pre|), None, Some(end), end, 0))
    decreases |cs|
  {
    hide StepAt, ScanSizeLine, TerminalEnd, HexOf, SizeLineOf, ChunkBytes, EndBytes;
    var tail := EndBytes(ext, upper, trailers);
    var b := pre + (ChunksBytes(cs) + tail) + rest;
    if cs == [] {
      assert b[|pre|..] == tail + rest;
      StepAtEnd(ext, upper, trailers, rest);
    } else {
      var more := ChunksBytes(cs[1..]);
      var before := pre + ChunkBytes(cs[0]);
      assert b == before + (more + tail + rest) == before + (more + tail) + rest;
      ScanOneChunk(b, pre, cs[0], more + tail + rest);
      RoundTrip(before, cs[1..], ext, upper, trailers, rest);
    }
  }

  lemma ScanOneChunk(b: seq<byte>, pre: seq<byte>, c: EncodedChunk, rest: seq<byte>)
    requires c.Valid() && b == pre + ChunkBytes(c) + rest
    ensures var start := |pre| + |SizeLineOf(|c.payload|, c.ext, c.upper)|;
      var next := |pre + ChunkBytes(c)|;
      ScanFrom(b, |pre|, 0) == Prepend([Range(start, start + |c.payload|)], ScanFrom(b, next, 0))
  {
    hide StepAt, ChunkBytes, SizeLineOf;
    assert b[|pre|..] == ChunkBytes(c) + rest;
    StepAtChunk(c, rest);
  }

  lemma StepAtEnd(ext: seq<byte>, upper: bool, trailers: seq<seq<byte>>, rest: seq<byte>)
    requires IsExtension(ext)
    requires forall i :: 0 <= i < |trailers| ==> IsTrailerLine(trailers[i])
    ensures StepAt(EndBytes(ext, upper, trailers) + rest, 0) == Terminal(Some(|EndBytes(ext, upper, trailers)|))
  {
    hide ScanSizeLine, TerminalEnd, HexOf;
    var line := SizeLineOf(0, ext, upper);
    var b := EndBytes(ext, upper, trailers) + rest;
    assert b == line + (TrailerBytes(trailers) + CRLF + rest);
    ScansSizeLine(0, ext, upper, TrailerBytes(trailers) + CRLF + rest);
    assert b == line + TrailerBytes(trailers) + CRLF + rest;
    ScansEnd(line, trailers, rest);
  }

  lemma StepAtChunk(c: EncodedChunk, rest: seq<byte>)
    requires c.Valid()
    ensures var ds := |SizeLineOf(|c.payload|, c.ext, c.upper)|;
      StepAt(ChunkBytes(c) + rest, 0) == Chunk(ds, ds + |c.payload|)
    ensures |ChunkBytes(c)| == |SizeLineOf(|c.payload|, c.ext, c.upper)| + |c.payload| + 2
  {
    hide ScanSizeLine, TerminalEnd, HexOf;
    var line := SizeLineOf(|c.payload|, c.ext, c.upper);
    var b := ChunkBytes(c) + rest;
    assert b == line + (c.payload + CRLF + rest);
    ScansSizeLine(|c.payload|, c.ext, c.upper, c.payload + CRLF + rest);
    assert b[|line| + |c.payload|] == CR && b[|line| + |c.payload| + 1] == LF;
  }
}
