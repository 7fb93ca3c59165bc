/** The chunked transfer coding scanner (section 7.1 of RFC 9112). */
module Framing {
  import opened Bytes

  // ---- one chunk at a time ----

  predicate IsHex(c: byte) {
    48 <= c <= 57 || 65 <= c <= 70 || 97 <= c <= 102
  }

  function HexDigit(c: byte): nat {
    if !IsHex(c) then 0
    else if c <= 57 then c as int - 48
    else if c <= 70 then c as int - 55
    else c as int - 87
  }

  /** `int(digits, 16)`: Python integers are unbounded, so no width applies. */
  function HexValue(b: seq<byte>): nat {
    if b == [] then 0 else 16 * HexValue(b[..|b| - 1]) + HexDigit(b[|b| - 1])
  }

  /** How many hexadecimal digits `b` starts with. */
  function HexRun(b: seq<byte>): (n: nat)
    ensures n <= |b|
  {
    if b == [] || !IsHex(b[0]) then 0 else 1 + HexRun(b[1..])
  }

  datatype SizeLine = Incomplete | BadSize(offset: nat) | Line(size: nat, dataStart: nat)

  /** Scan the chunk-size line that `b` starts with; offsets are relative to `b`. */
  function ScanSizeLine(b: seq<byte>): (r: SizeLine)
    ensures r.Line? ==> 0 < r.dataStart <= |b|
    ensures r.BadSize? ==> 0 < r.offset <= |b|
  {
    var digits := HexRun(b);
    if digits >= |b| then Incomplete
    else if b[digits] == SEMICOLON then
      match Find(b, CRLF, digits)
      case None => Incomplete
      case Some(end) => if digits == 0 then BadSize(1) else Line(HexValue(b[..digits]), end + 2)
    else if b[digits] == CR then
      if digits + 1 >= |b| then Incomplete
      else if b[digits + 1] != LF then BadSize(digits + 1)
      else if digits == 0 then BadSize(1)
      else Line(HexValue(b[..digits]), digits + 2)
    else BadSize(digits + 1)
  }

  /** Where the chunked body ends once the terminal chunk's size line is read. */
  function TerminalEnd(b: seq<byte>, dataStart: nat): (r: Option<nat>)
    ensures r.Some? ==> dataStart + 2 <= r.value <= |b|
  {
    if HasAt(b, CRLF, dataStart) then Some(dataStart + 2)
    else match Find(b, HEADER_TERMINATOR, dataStart)
      case None => None
      case Some(k) => Some(k + 4)
  }

  /** What a byte string positioned at a chunk-size line, or `left` bytes before
      the end of a chunk's data, starts with.  Offsets are relative to it. */
  datatype Step =
    | NeedLine
    | BadLine(offset: nat)
    | Terminal(end: Option<nat>)
    | Partial(dataStart: nat, dataEnd: nat)
    | BadTerminator(dataStart: nat, dataEnd: nat, offset: nat)
    | Chunk(dataStart: nat, dataEnd: nat)
  {
    /** How much of the byte string must be seen to tell. */
    function Extent(): nat {
      match this
      case BadLine(o) => o
      case Terminal(Some(e)) => e
      case BadTerminator(_, de, _) => de + 2
      case Chunk(_, de) => de + 2
      case _ => 0
    }

    predicate Decided() {
      BadLine? || BadTerminator? || Chunk? || (Terminal? && end.Some?)
    }
  }

  function DataStep(b: seq<byte>, size: nat, dataStart: nat): Step {
    var dataEnd := dataStart + size;
    if dataEnd + 2 > |b| then Partial(dataStart, dataEnd)
    else if b[dataEnd] != CR then BadTerminator(dataStart, dataEnd, dataEnd + 1)
    else if b[dataEnd + 1] != LF then BadTerminator(dataStart, dataEnd, dataEnd + 2)
    else Chunk(dataStart, dataEnd)
  }

  function StepAt(b: seq<byte>, left: nat): (r: Step)
    ensures r.Chunk? || r.BadTerminator? ==> r.dataStart < r.dataEnd && r.dataEnd + 2 <= |b|
    ensures r.BadTerminator? ==> r.dataEnd < r.offset <= r.dataEnd + 2
    ensures r.BadLine? ==> 0 < r.offset <= |b|
    ensures r.Terminal? && r.end.Some? ==> 0 < r.end.value <= |b|
    ensures r.Partial? ==> r.dataStart <= |b| && r.dataStart < r.dataEnd && |b| < r.dataEnd + 2
    ensures left > 0 ==> (r.Partial? || r.Chunk? || r.BadTerminator?) && r.dataStart == 0 && r.dataEnd == left
  {
    if left > 0 then DataStep(b, left, 0)
    else match ScanSizeLine(b)
      case Incomplete => NeedLine
      case BadSize(offset) => BadLine(offset)
      case Line(size, dataStart) =>
        if size == 0 then Terminal(TerminalEnd(b, dataStart)) else DataStep(b, size, dataStart)
  }

  // ---- the scanner ----

  datatype Range = Range(start: nat, end: nat)

  /** Chunk payload locations found in a buffer, at absolute offsets. */
  datatype PayloadScan = PayloadScan(
    payloads: seq<Range>,
    partial: Option<Range>,
    end: Option<nat>,
    resumeFrom: nat,
    dataLeft: nat)

  datatype ScanResult = Scanned(scan: PayloadScan) | ScanError(offset: nat)

  function Prepend(ps: seq<Range>, r: ScanResult): (out: ScanResult)
    ensures ps == [] ==> out == r
  {
    match r
    case ScanError(_) => r
    case Scanned(s) =>
      assert ps == [] ==> ps + s.payloads == s.payloads;
      Scanned(s.(payloads := ps + s.payloads))
  }

  /** The scan's result when no complete chunk stands at `i` of `size` bytes. */
  function StopScan(step: Step, i: nat, size: nat): ScanResult
    requires !step.Chunk?
  {
    match step
    case BadLine(offset) => ScanError(i + offset)
    case BadTerminator(_, _, offset) => ScanError(i + offset)
    case Terminal(Some(e)) => Scanned(PayloadScan([], None, Some(i + e), i + e, 0))
    case Partial(ds, de) =>
      var end: nat := if i + de <= size then i + de else size;
      var left: nat := if i + de <= size then 0 else i + de - size;
      Scanned(PayloadScan([], Some(Range(i + ds, end)), None, i, left))
    case _ => Scanned(PayloadScan([], None, None, i, 0))
  }

  function ChunkRange(step: Step, i: nat): Range
    requires step.Chunk?
  {
    Range(i + step.dataStart, i + step.dataEnd)
  }

  function AfterChunk(step: Step, i: nat): nat
    requires step.Chunk?
  {
    i + step.dataEnd + 2
  }

  /** The scan of `b` from offset `i`, chunk by chunk. */
  function ScanFrom(b: seq<byte>, i: nat, left: nat): ScanResult
    requires i <= |b|
    decreases |b| - i
  {
    var step := StepAt(b[i..], left);
    if step.Chunk? then
      Prepend([ChunkRange(step, i)], ScanFrom(b, AfterChunk(step, i), 0))
    else
      StopScan(step, i, |b|)
  }

  lemma PrependTwice(ps: seq<Range>, qs: seq<Range>, r: ScanResult)
    ensures Prepend(ps, Prepend(qs, r)) == Prepend(ps + qs, r)
  {
    if r.Scanned? {
      assert ps + (qs + r.scan.payloads) == ps + qs + r.scan.payloads;
    }
  }

  /** The scanning loop: `index` is the current chunk's start, `step` what stands
      there, and `payloads` the ranges of the complete chunks before it. */
  method ScanChunkPayloads(b: seq<byte>, start: nat, dataLeft: nat) returns (r: ScanResult)
    requires start <= |b|
    ensures r == ScanFrom(b, start, dataLeft)
  {
    var payloads: seq<Range> := [];
    var index := start;
    ghost var left := dataLeft;
    var step := StepAt(b[start..], dataLeft);
    while step.Chunk?
      invariant index <= |b|
      invariant step == StepAt(b[index..], left)
      invariant ScanFrom(b, start, dataLeft) == Prepend(payloads, ScanFrom(b, index, left))
      decreases |b| - index
    {
      PrependTwice(payloads, [ChunkRange(step, index)], ScanFrom(b, AfterChunk(step, index), 0));
      payloads := payloads + [ChunkRange(step, index)];
      index, left := AfterChunk(step, index), 0;
      step := StepAt(b[index..], 0);
    }
    return Prepend(payloads, StopScan(step, index, |b|));
  }
}
