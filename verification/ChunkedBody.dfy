/** What a chunked byte string means: its payload, where it ends, how much of it a
    recording limit keeps, and how it splits at a point where reading may resume.
    Every definition follows the chunks one by one; none mentions reads. */
module ChunkedBody {
  import opened Bytes
  import opened Framing
  import opened Stability

  /** The data bytes of the first chunk that are present. */
  function Data(b: seq<byte>, left: nat): seq<byte> {
    match StepAt(b, left)
    case Chunk(ds, de) => b[ds..de]
    case BadTerminator(ds, de, _) => b[ds..de]
    case Partial(ds, de) => b[ds..if de <= |b| then de else |b|]
    case _ => []
  }

  /** The bytes after the first chunk, which is complete. */
  function Tail(b: seq<byte>, left: nat): (r: seq<byte>)
    requires StepAt(b, left).Chunk?
    ensures |r| < |b|
  {
    b[AfterChunk(StepAt(b, left), 0)..]
  }

  function HeadSize(b: seq<byte>, left: nat): (n: nat)
    requires StepAt(b, left).Chunk?
    ensures n + |Tail(b, left)| == |b|
  {
    AfterChunk(StepAt(b, left), 0)
  }

  /** All payload bytes of `b`, in order. */
  function Payload(b: seq<byte>, left: nat): seq<byte>
    decreases |b|
  {
    if StepAt(b, left).Chunk? then Data(b, left) + Payload(Tail(b, left), 0) else Data(b, left)
  }

  /** How a chunked body stands: ended or malformed after `size` bytes, or open. */
  datatype Verdict = Complete(size: nat) | Malformed(size: nat) | Open
  {
    function Later(k: nat): Verdict {
      match this
      case Complete(n) => Complete(k + n)
      case Malformed(n) => Malformed(k + n)
      case Open => Open
    }

    /** How many of `total` received bytes belong to the message. */
    function Attributed(total: nat): nat {
      if Open? then total else size
    }
  }

  function StepVerdict(step: Step): Verdict {
    match step
    case BadLine(o) => Malformed(o)
    case BadTerminator(_, _, o) => Malformed(o)
    case Terminal(Some(e)) => Complete(e)
    case _ => Open
  }

  function VerdictOf(b: seq<byte>, left: nat): (v: Verdict)
    ensures !v.Open? ==> 0 < v.size <= |b|
    decreases |b|
  {
    if StepAt(b, left).Chunk? then VerdictOf(Tail(b, left), 0).Later(HeadSize(b, left))
    else StepVerdict(StepAt(b, left))
  }

  /** Where a spent budget of `room` data bytes cuts a chunk. */
  function Cut(step: Step, room: nat): nat
    requires step.Chunk? || step.BadTerminator? || step.Partial?
  {
    if room == 0 then 0 else step.dataStart + room
  }

  /** How many wire bytes are kept when only `room` payload bytes may be. */
  function Keep(b: seq<byte>, left: nat, room: nat): (n: nat)
    ensures n <= |b|
    decreases |b|
  {
    var step := StepAt(b, left);
    if |Data(b, left)| > room then Cut(step, room)
    else if step.Chunk? then HeadSize(b, left) + Keep(Tail(b, left), 0, room - |Data(b, left)|)
    else StepVerdict(step).Attributed(|b|)
  }

  /** `Some(n)` when `b` stops at a chunk-size line (n = 0) or `n` bytes before the
      end of a chunk's data, of which at least one byte is present. */
  function Resumes(b: seq<byte>, left: nat): Option<nat>
    decreases |b|
  {
    var step := StepAt(b, left);
    if b == [] then Some(left)
    else if step.Chunk? then Resumes(Tail(b, left), 0)
    else if step.Partial? && step.dataStart < |b| < step.dataEnd then Some(step.dataEnd - |b|)
    else None
  }

  /** Whether `b` stops inside a chunk: after its size line, before the end of its CRLF. */
  predicate EndsInChunk(b: seq<byte>, left: nat)
    decreases |b|
  {
    if StepAt(b, left).Chunk? then EndsInChunk(Tail(b, left), 0) else StepAt(b, left).Partial?
  }

  /** How many bytes the complete chunks at the start of `b` take. */
  function ChunksSize(b: seq<byte>, left: nat): (n: nat)
    ensures n <= |b|
    decreases |b|
  {
    if StepAt(b, left).Chunk? then HeadSize(b, left) + ChunksSize(Tail(b, left), 0) else 0
  }

  // ---- reading on from a point where reading may resume ----

  lemma ExtendChunk(p: seq<byte>, c: seq<byte>, left: nat)
    requires StepAt(p, left).Decided()
    ensures StepAt(p + c, left) == StepAt(p, left)
    ensures Data(p + c, left) == Data(p, left)
    ensures StepAt(p, left).Chunk? ==>
      Tail(p + c, left) == Tail(p, left) + c && HeadSize(p + c, left) == HeadSize(p, left)
  {
    hide StepAt;
    assert (p + c)[..|p|] == p;
    StepExtend(p + c, |p|, left);
  }

  lemma ExtendPartial(p: seq<byte>, c: seq<byte>, left: nat)
    requires StepAt(p, left).Partial?
    requires StepAt(p, left).dataStart < |p| < StepAt(p, left).dataEnd
    ensures var more: nat := StepAt(p, left).dataEnd - |p|;
      && StepAt(p + c, left) == SeenEarlier(StepAt(c, more), StepAt(p, left).dataStart, |p|)
      && Data(p + c, left) == Data(p, left) + Data(c, more)
      && |Data(p, left)| == |p| - StepAt(p, left).dataStart
  {
    hide StepAt;
    PartialExtend(p, c, left);
    var step := StepAt(p, left);
    SliceAcross(p, c, step.dataStart, Min(step.dataEnd - |p|, |c|));
    var more: nat := step.dataEnd - |p|;
    DataSeenEarlier(p, c, left, more, step.dataStart);
    assert Data(p, left) == p[step.dataStart..];
  }

  lemma DataSeenEarlier(p: seq<byte>, c: seq<byte>, left: nat, more: nat, ds: nat)
    requires ds <= |p| && more > 0
    requires StepAt(c, more).Partial? || StepAt(c, more).Chunk? || StepAt(c, more).BadTerminator?
    requires StepAt(p + c, left) == SeenEarlier(StepAt(c, more), ds, |p|)
    ensures Data(c, more) == c[..Min(more, |c|)]
    ensures Data(p + c, left) == (p + c)[ds..|p| + Min(more, |c|)]
  {
  }

  lemma SliceAcross(p: seq<byte>, c: seq<byte>, from: nat, k: nat)
    requires from <= |p| && k <= |c|
    ensures (p + c)[from..|p| + k] == p[from..] + c[..k]
  {
  }

  lemma ExtendPartialTail(p: seq<byte>, c: seq<byte>, left: nat, more: nat)
    requires StepAt(c, more).Chunk? && more > 0
    requires exists ds: nat :: StepAt(p + c, left) == SeenEarlier(StepAt(c, more), ds, |p|)
    ensures Tail(p + c, left) == Tail(c, more)
    ensures HeadSize(p + c, left) == |p| + HeadSize(c, more)
  {
    hide StepAt;
  }

  lemma Associates(a: seq<byte>, b: seq<byte>, c: seq<byte>)
    ensures a + (b + c) == a + b + c
  {
  }

  lemma {:induction false} PayloadExtends(p: seq<byte>, c: seq<byte>, left: nat)
    requires Resumes(p, left).Some?
    ensures Payload(p + c, left) == Payload(p, left) + Payload(c, Resumes(p, left).value)
    decreases |p|
  {
    hide StepAt;
    if p == [] {
      assert p + c == c;
    } else if StepAt(p, left).Chunk? {
      ExtendChunk(p, c, left);
      PayloadExtends(Tail(p, left), c, 0);
      Associates(Data(p, left), Payload(Tail(p, left), 0), Payload(c, Resumes(p, left).value));
    } else {
      PartialPayloadExtends(p, c, left);
    }
  }

  lemma PartialPayloadExtends(p: seq<byte>, c: seq<byte>, left: nat)
    requires Resumes(p, left).Some? && p != [] && !StepAt(p, left).Chunk?
    ensures Payload(p + c, left) == Payload(p, left) + Payload(c, Resumes(p, left).value)
  {
    hide StepAt;
    var more: nat := Resumes(p, left).value;
    ExtendPartial(p, c, left);
    if StepAt(c, more).Chunk? {
      ExtendPartialTail(p, c, left, more);
      Associates(Data(p, left), Data(c, more), Payload(Tail(c, more), 0));
    }
  }

  lemma {:induction false} VerdictExtends(p: seq<byte>, c: seq<byte>, left: nat)
    requires Resumes(p, left).Some?
    ensures VerdictOf(p + c, left) == VerdictOf(c, Resumes(p, left).value).Later(|p|)
    decreases |p|
  {
    hide StepAt;
    if p == [] {
      assert p + c == c;
    } else if StepAt(p, left).Chunk? {
      ExtendChunk(p, c, left);
      VerdictExtends(Tail(p, left), c, 0);
    } else {
      var more: nat := Resumes(p, left).value;
      ExtendPartial(p, c, left);
      if StepAt(c, more).Chunk? {
        ExtendPartialTail(p, c, left, more);
      }
    }
  }

  lemma {:induction false} ResumesExtends(p: seq<byte>, c: seq<byte>, left: nat)
    requires Resumes(p, left).Some?
    ensures Resumes(p + c, left) == Resumes(c, Resumes(p, left).value)
    decreases |p|
  {
    hide StepAt;
    if p == [] {
      assert p + c == c;
    } else if StepAt(p, left).Chunk? {
      ExtendChunk(p, c, left);
      ResumesExtends(Tail(p, left), c, 0);
    } else if c == [] {
      assert p + c == p;
    } else {
      var more: nat := Resumes(p, left).value;
      ExtendPartial(p, c, left);
      if StepAt(c, more).Chunk? {
        ExtendPartialTail(p, c, left, more);
      }
    }
  }

  lemma KeepExtendsPartial(p: seq<byte>, c: seq<byte>, left: nat, room: nat)
    requires StepAt(p, left).Partial?
    requires StepAt(p, left).dataStart < |p| < StepAt(p, left).dataEnd
    ensures |Data(p, left)| <= room ==>
      Keep(p + c, left, room) == |p| + Keep(c, StepAt(p, left).dataEnd - |p|, room - |Data(p, left)|)
    ensures |Data(p, left)| > room ==>
      Keep(p + c, left, room) == Keep(p, left, room) && Keep(p, left, room) < |p|
    ensures Payload(p, left) == Data(p, left)
  {
    hide StepAt;
    var more: nat := StepAt(p, left).dataEnd - |p|;
    ExtendPartial(p, c, left);
    if StepAt(c, more).Chunk? {
      ExtendPartialTail(p, c, left, more);
    }
  }

  lemma {:induction false} KeepChunk(b: seq<byte>, left: nat, room: nat)
    requires StepAt(b, left).Chunk?
    ensures |Payload(b, left)| == |Data(b, left)| + |Payload(Tail(b, left), 0)|
    ensures Keep(b, left, room) ==
      if |Data(b, left)| > room then Cut(StepAt(b, left), room)
      else HeadSize(b, left) + Keep(Tail(b, left), 0, room - |Data(b, left)|)
    ensures |Data(b, left)| > room ==> Keep(b, left, room) < |b|
  {
    hide StepAt;
  }

  lemma NothingYet(p: seq<byte>, left: nat)
    requires p == []
    ensures Payload(p, left) == []
  {
  }

  lemma {:induction false} KeepExtends(p: seq<byte>, c: seq<byte>, left: nat, room: nat)
    requires Resumes(p, left).Some?
    ensures |Payload(p, left)| <= room ==>
      Keep(p + c, left, room) == |p| + Keep(c, Resumes(p, left).value, room - |Payload(p, left)|)
    ensures |Payload(p, left)| > room ==>
      Keep(p + c, left, room) == Keep(p, left, room) && Keep(p, left, room) < |p|
    decreases |p|
  {
    hide StepAt, Payload, Keep, Data, Tail, HeadSize;
    if p == [] {
      assert p + c == c;
      NothingYet(p, left);
    } else if StepAt(p, left).Chunk? {
      ExtendChunk(p, c, left);
      KeepChunk(p, left, room);
      KeepChunk(p + c, left, room);
      if |Data(p, left)| <= room {
        KeepExtends(Tail(p, left), c, 0, room - |Data(p, left)|);
      }
    } else {
      KeepExtendsPartial(p, c, left, room);
    }
  }

  /** Whether the whole stops inside a chunk shows in the later bytes. */
  lemma {:induction false} EndsInChunkExtends(p: seq<byte>, c: seq<byte>, left: nat)
    requires Resumes(p, left).Some?
    ensures EndsInChunk(p + c, left) == EndsInChunk(c, Resumes(p, left).value)
    decreases |p|
  {
    hide StepAt;
    if p == [] {
      assert p + c == c;
    } else if StepAt(p, left).Chunk? {
      ExtendChunk(p, c, left);
      EndsInChunkExtends(Tail(p, left), c, 0);
    } else {
      var more: nat := Resumes(p, left).value;
      ExtendPartial(p, c, left);
      if StepAt(c, more).Chunk? {
        ExtendPartialTail(p, c, left, more);
      }
    }
  }

  /** A body that stops inside a chunk is open. */
  lemma {:induction false} InChunkIsOpen(b: seq<byte>, left: nat)
    requires EndsInChunk(b, left)
    ensures VerdictOf(b, left).Open?
    decreases |b|
  {
    hide StepAt;
    if StepAt(b, left).Chunk? {
      InChunkIsOpen(Tail(b, left), 0);
    }
  }

  // ---- a body that ended or failed ----

  /** Bytes after the end of the body, or after its bad byte, change nothing. */
  lemma {:induction false} StopIsFinal(b: seq<byte>, c: seq<byte>, left: nat)
    requires !VerdictOf(b, left).Open?
    ensures VerdictOf(b + c, left) == VerdictOf(b, left)
    ensures Payload(b + c, left) == Payload(b, left)
    decreases |b|
  {
    ExtendChunk(b, c, left);
    if StepAt(b, left).Chunk? {
      StopIsFinal(Tail(b, left), c, 0);
    }
  }

  lemma {:induction false} StopFixesKeep(b: seq<byte>, c: seq<byte>, left: nat, room: nat)
    requires !VerdictOf(b, left).Open?
    ensures Keep(b + c, left, room) == Keep(b, left, room)
    decreases |b|
  {
    ExtendChunk(b, c, left);
    if StepAt(b, left).Chunk? && |Data(b, left)| <= room {
      StopFixesKeep(Tail(b, left), c, 0, room - |Data(b, left)|);
    }
  }

  lemma CutChunk(b: seq<byte>, k: nat, left: nat)
    requires StepAt(b, left).Chunk? && HeadSize(b, left) <= k <= |b|
    ensures StepAt(b[..k], left) == StepAt(b, left)
    ensures Data(b[..k], left) == Data(b, left)
    ensures Tail(b[..k], left) == Tail(b, left)[..k - HeadSize(b, left)]
  {
    hide StepAt;
    StepCut(b, k, left);
  }

  /** A complete body is complete without the bytes after its end. */
  lemma {:induction false} CompleteCut(b: seq<byte>, left: nat)
    requires VerdictOf(b, left).Complete?
    ensures VerdictOf(b[..VerdictOf(b, left).size], left) == VerdictOf(b, left)
    decreases |b|
  {
    var k := VerdictOf(b, left).size;
    if StepAt(b, left).Chunk? {
      CutChunk(b, k, left);
      CompleteCut(Tail(b, left), 0);
    } else {
      StepCut(b, k, left);
    }
  }

  /** Cut before or right after its bad byte, a malformed body has the same payload,
      all of its bytes are attributed, and a recording is cut at the same place. */
  lemma {:induction false} MalformedCut(b: seq<byte>, left: nat, k: nat)
    requires VerdictOf(b, left).Malformed?
    requires VerdictOf(b, left).size - 1 <= k <= VerdictOf(b, left).size
    ensures Payload(b[..k], left) == Payload(b, left)
    ensures VerdictOf(b[..k], left).Open? || (k == VerdictOf(b, left).size && VerdictOf(b[..k], left) == VerdictOf(b, left))
    decreases |b|
  {
    hide StepAt;
    if StepAt(b, left).Chunk? {
      CutChunk(b, k, left);
      MalformedCut(Tail(b, left), 0, k - HeadSize(b, left));
    } else {
      ErrorPrefix(b, left, k);
    }
  }

  lemma {:induction false} MalformedKeep(b: seq<byte>, left: nat, k: nat, room: nat)
    requires VerdictOf(b, left).Malformed?
    requires VerdictOf(b, left).size - 1 <= k <= VerdictOf(b, left).size
    requires |Payload(b, left)| > room
    ensures Keep(b[..k], left, room) == Keep(b, left, room)
    decreases |b|
  {
    hide StepAt;
    if StepAt(b, left).Chunk? {
      CutChunk(b, k, left);
      if |Data(b, left)| <= room {
        MalformedKeep(Tail(b, left), 0, k - HeadSize(b, left), room - |Data(b, left)|);
      }
    } else {
      ErrorPrefix(b, left, k);
    }
  }

  /** With room for all of the payload, every attributed byte is kept. */
  lemma {:induction false} KeepAll(b: seq<byte>, left: nat, room: nat)
    requires |Payload(b, left)| <= room
    ensures Keep(b, left, room) == VerdictOf(b, left).Attributed(|b|)
    decreases |b|
  {
    if StepAt(b, left).Chunk? {
      KeepAll(Tail(b, left), 0, room - |Data(b, left)|);
    }
  }

  /** A recording that is cut stops before the segment's last byte. */
  lemma {:induction false} KeepCuts(b: seq<byte>, left: nat, room: nat)
    requires |Payload(b, left)| > room
    ensures Keep(b, left, room) < |b|
    decreases |b|
  {
    hide StepAt;
    if StepAt(b, left).Chunk? && |Data(b, left)| <= room {
      KeepCuts(Tail(b, left), 0, room - |Data(b, left)|);
    }
  }

  /** More bytes only ever add payload after what was there. */
  lemma {:induction false} PayloadGrows(b: seq<byte>, c: seq<byte>, left: nat)
    ensures Payload(b, left) <= Payload(b + c, left)
    decreases |b|
  {
    if StepAt(b, left).Chunk? {
      hide StepAt;
      ExtendChunk(b, c, left);
      PayloadGrows(Tail(b, left), c, 0);
    } else if StepAt(b, left).Decided() {
      ExtendChunk(b, c, left);
    } else if StepAt(b, left).Partial? {
      PartialGrows(b, c, left);
    }
  }

  lemma PartialGrows(b: seq<byte>, c: seq<byte>, left: nat)
    requires StepAt(b, left).Partial?
    ensures Data(b, left) <= Data(b + c, left) <= Payload(b + c, left)
  {
    hide StepAt;
    PartialStays(b, c, left);
    var ds := StepAt(b, left).dataStart;
    assert (b + c)[ds..|b|] == b[ds..|b|];
  }
}
