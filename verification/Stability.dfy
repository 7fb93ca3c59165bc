/** Cutting or extending a buffer does not change what the scanner already decided. */
module Stability {
  import opened Bytes
  import opened Framing

  lemma {:induction false} HexRunCut(b: seq<byte>, k: nat)
    requires k <= |b|
    ensures HexRun(b[..k]) == Min(HexRun(b), k)
  {
    if k > 0 && IsHex(b[0]) {
      assert b[..k][1..] == b[1..][..k - 1];
      HexRunCut(b[1..], k - 1);
    }
  }

  /** A size line, once read, does not depend on the bytes after it. */
  lemma SizeLineCut(b: seq<byte>, k: nat)
    requires k <= |b|
    ensures !ScanSizeLine(b[..k]).Incomplete? ==> ScanSizeLine(b) == ScanSizeLine(b[..k])
    ensures ScanSizeLine(b).Line? && ScanSizeLine(b).dataStart <= k ==> ScanSizeLine(b[..k]) == ScanSizeLine(b)
  {
    HexRunCut(b, k);
    var n := HexRun(b);
    if n < k {
      assert b[..k][..n] == b[..n];
      FindCut(b, CRLF, n, k);
    }
  }

  /** A malformed size line cut before its bad byte is merely incomplete; cut right
      after it, it is incomplete or malformed in the same way. */
  lemma BadSizePrefix(b: seq<byte>, k: nat)
    requires ScanSizeLine(b).BadSize?
    requires ScanSizeLine(b).offset - 1 <= k <= ScanSizeLine(b).offset
    ensures ScanSizeLine(b[..k]).Incomplete? || (k == ScanSizeLine(b).offset && ScanSizeLine(b[..k]) == ScanSizeLine(b))
  {
    HexRunCut(b, k);
  }

  lemma TerminalEndCut(b: seq<byte>, dataStart: nat, k: nat)
    requires k <= |b|
    ensures TerminalEnd(b[..k], dataStart).Some? ==> TerminalEnd(b, dataStart) == TerminalEnd(b[..k], dataStart)
    ensures TerminalEnd(b, dataStart).Some? && TerminalEnd(b, dataStart).value <= k
            ==> TerminalEnd(b[..k], dataStart) == TerminalEnd(b, dataStart)
  {
    var c := b[..k];
    FindCut(b, HEADER_TERMINATOR, dataStart, k);
    if dataStart + 2 <= k {
      assert c[dataStart..dataStart + 2] == b[dataStart..dataStart + 2];
    }
  }

  /** Once a step is decided, appending bytes does not change it. */
  lemma StepExtend(b: seq<byte>, k: nat, left: nat)
    requires k <= |b|
    requires StepAt(b[..k], left).Decided()
    ensures StepAt(b, left) == StepAt(b[..k], left)
  {
    if left == 0 {
      SizeLineCut(b, k);
      var line := ScanSizeLine(b[..k]);
      if line.Line? {
        TerminalEndCut(b, line.dataStart, k);
      }
    }
  }

  /** A decided step only depends on the bytes up to its extent. */
  lemma StepCut(b: seq<byte>, k: nat, left: nat)
    requires k <= |b|
    requires StepAt(b, left).Chunk? || (StepAt(b, left).Terminal? && StepAt(b, left).end.Some?)
    requires StepAt(b, left).Extent() <= k
    ensures StepAt(b[..k], left) == StepAt(b, left)
  {
    if left == 0 {
      SizeLineCut(b, k);
      var line := ScanSizeLine(b);
      TerminalEndCut(b, line.dataStart, k);
    }
  }

  /** Cut before or right after its bad byte, a malformed chunk carries the same
      data; before it, nothing is wrong yet. */
  lemma ErrorPrefix(b: seq<byte>, left: nat, k: nat)
    requires StepAt(b, left).BadLine? || StepAt(b, left).BadTerminator?
    requires StepAt(b, left).offset - 1 <= k <= StepAt(b, left).offset
    ensures var step := StepAt(b, left);
      var cut := StepAt(b[..k], left);
      && (cut == step || cut == if step.BadLine? then NeedLine else Partial(step.dataStart, step.dataEnd))
      && (k < step.offset ==> cut != step)
  {
    var step := StepAt(b, left);
    if left == 0 {
      if step.BadLine? {
        BadSizePrefix(b, k);
      } else {
        SizeLineCut(b, k);
      }
    }
  }

  /** An unfinished chunk keeps its data range as bytes arrive. */
  lemma PartialStays(b: seq<byte>, c: seq<byte>, left: nat)
    requires StepAt(b, left).Partial?
    ensures var step := StepAt(b + c, left);
      && (step.Partial? || step.Chunk? || step.BadTerminator?)
      && step.dataStart == StepAt(b, left).dataStart
      && step.dataEnd == StepAt(b, left).dataEnd
  {
    assert (b + c)[..|b|] == b;
    if left == 0 {
      SizeLineCut(b + c, |b|);
    }
  }

  /** Cut inside its data, a chunk is unfinished, with the same data range. */
  lemma StepInside(b: seq<byte>, k: nat, left: nat)
    requires var step := StepAt(b, left);
      (step.Chunk? || step.Partial? || step.BadTerminator?) && step.dataStart < k <= step.dataEnd && k <= |b|
    ensures StepAt(b[..k], left) == Partial(StepAt(b, left).dataStart, StepAt(b, left).dataEnd)
  {
    if left == 0 {
      SizeLineCut(b, k);
    }
  }

  /** A step inside a chunk's data, as seen from `k` bytes earlier, where the
      chunk's data started at `dataStart`. */
  function SeenEarlier(step: Step, dataStart: nat, k: nat): Step
    requires step.Partial? || step.Chunk? || step.BadTerminator?
  {
    match step
    case Partial(_, de) => Partial(dataStart, k + de)
    case BadTerminator(_, de, o) => BadTerminator(dataStart, k + de, k + o)
    case Chunk(_, de) => Chunk(dataStart, k + de)
  }

  /** Inside a chunk's data, the chunk goes on with the bytes that follow. */
  lemma PartialExtend(p: seq<byte>, c: seq<byte>, left: nat)
    requires StepAt(p, left).Partial?
    requires StepAt(p, left).dataStart < |p| < StepAt(p, left).dataEnd
    ensures StepAt(p + c, left) ==
      SeenEarlier(StepAt(c, StepAt(p, left).dataEnd - |p|), StepAt(p, left).dataStart, |p|)
  {
    var b := p + c;
    assert b[..|p|] == p;
    if left == 0 {
      SizeLineCut(b, |p|);
    }
  }
}
