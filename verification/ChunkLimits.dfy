/** Where the parser stops or cuts a chunked body, and what it delivers of a buffer. */
module ChunkLimits {
  import opened Bytes
  import opened Framing
  import opened Stability
  import opened ChunkedBody
  import opened ScanMeaning

  /** The offset just past payload byte `budget`, found by walking the ranges. */
  function LimitWalk(ps: seq<Range>, partial: Option<Range>, budget: nat): Option<nat>
    requires budget > 0
    decreases |ps|
  {
    if ps == [] then
      if partial.Some? && Size(partial.value) >= budget then Some(partial.value.start + budget) else None
    else if Size(ps[0]) > budget then Some(ps[0].start + budget)
    else if Size(ps[0]) == budget then
      if |ps| > 1 || partial.Some? then Some(ps[0].end + 2) else None
    else LimitWalk(ps[1..], partial, budget - Size(ps[0]))
  }

  function LimitOffset(s: PayloadScan, budget: nat): Option<nat> {
    if budget == 0 then if s.payloads != [] || s.partial.Some? then Some(0) else None
    else LimitWalk(s.payloads, s.partial, budget)
  }

  method ChunkLimitOffset(s: PayloadScan, budget: nat) returns (stop: Option<nat>)
    requires forall r :: r in s.payloads ==> r.start <= r.end
    requires s.partial.Some? ==> s.partial.value.start <= s.partial.value.end
    ensures stop == LimitOffset(s, budget)
  {
    if budget == 0 {
      return if s.payloads != [] || s.partial.Some? then Some(0) else None;
    }
    var left := budget;
    for index := 0 to |s.payloads|
      invariant left > 0
      invariant LimitOffset(s, budget) == LimitWalk(s.payloads[index..], s.partial, left)
    {
      var range := s.payloads[index];
      assert s.payloads[index..][0] == range && s.payloads[index..][1..] == s.payloads[index + 1..];
      if Size(range) > left {
        return Some(range.start + left);
      }
      if Size(range) == left {
        return if index + 1 < |s.payloads| || s.partial.Some? then Some(range.end + 2) else None;
      }
      left := left - Size(range);
    }
    if s.partial.Some? && Size(s.partial.value) >= left {
      return Some(s.partial.value.start + left);
    }
    return None;
  }

  datatype Delivery = Delivery(length: nat, feed: nat, dataLeft: nat, payload: nat)

  /** Complete chunks whole, a partial one as far as it is there, and a size line fed ahead. */
  function ChunkDelivery(s: PayloadScan, buffered: nat): Delivery {
    var payload := Total(s.payloads);
    if s.partial.None? || s.dataLeft == 0 then Delivery(s.resumeFrom, s.resumeFrom, 0, payload)
    else if Size(s.partial.value) > 0 then
      Delivery(buffered, buffered, s.dataLeft, payload + Size(s.partial.value))
    else Delivery(s.resumeFrom, buffered, 0, payload)
  }

  // ---- the walk against the byte-string definitions ----

  lemma WalkCons(r: Range, size: nat, ps: seq<Range>, partial: Option<Range>, budget: nat)
    requires budget > 0 && size == Size(r)
    ensures LimitWalk([r] + ps, partial, budget) ==
      if size > budget then Some(r.start + budget)
      else if size == budget then if ps != [] || partial.Some? then Some(r.end + 2) else None
      else LimitWalk(ps, partial, budget - size)
  {
    assert ([r] + ps)[1..] == ps;
  }

  /** The kept length, one chunk at a time. */
  lemma KeepCons(c: seq<byte>, left: nat, room: nat)
    requires room > 0 && StepAt(c, left).Chunk?
    ensures var step := StepAt(c, left); var size := |Data(c, left)|;
      && size == step.dataEnd - step.dataStart
      && |Payload(c, left)| == size + |Payload(Tail(c, left), 0)|
      && Keep(c, left, room) ==
           if size > room then step.dataStart + room
           else AfterChunk(step, 0) + Keep(Tail(c, left), 0, room - size)
  {
    hide StepAt;
  }

  lemma KeepInPartial(c: seq<byte>, left: nat, room: nat)
    requires 0 < room < |Payload(c, left)| && StepAt(c, left).Partial?
    ensures var step := StepAt(c, left);
      && Keep(c, left, room) == step.dataStart + room
      && step.dataStart + room < (if step.dataEnd <= |c| then step.dataEnd else |c|)
  {
    hide StepAt;
  }

  /** With more payload than room, the walk finds where the recording is cut. */
  lemma {:induction false} WalkIsKeep(b: seq<byte>, i: nat, left: nat, room: nat)
    requires i <= |b| && ScanFrom(b, i, left).Scanned? && 0 < room < |Payload(b[i..], left)|
    ensures var s := ScanFrom(b, i, left).scan;
      LimitWalk(s.payloads, s.partial, room) == Some(i + Keep(b[i..], left, room))
    decreases |b| - i
  {
    hide StepAt, Keep, LimitWalk;
    var step := StepAt(b[i..], left);
    if step.Chunk? {
      ScanStep(b, i, left);
      KeepCons(b[i..], left, room);
      hide Payload, Data;
      var next := AfterChunk(step, i);
      var t := ScanFrom(b, next, 0).scan;
      var size := |Data(b[i..], left)|;
      WalkCons(ChunkRange(step, i), size, t.payloads, t.partial, room);
      if size < room {
        WalkIsKeep(b, next, 0, room - size);
      } else if size == room {
        SomethingFollows(b, next);
      }
    } else {
      KeepInPartial(b[i..], left, room);
      WalkInPartial(step, i, |b|, room);
    }
  }

  /** A budget that ends inside the one incomplete chunk. */
  lemma WalkInPartial(step: Step, i: nat, size: nat, room: nat)
    requires step.Partial? && room > 0 && StopScan(step, i, size).Scanned?
    requires i + step.dataStart + room < (if i + step.dataEnd <= size then i + step.dataEnd else size)
    ensures var s := StopScan(step, i, size).scan;
      LimitWalk(s.payloads, s.partial, room) == Some(i + step.dataStart + room)
  {
  }

  /** With more payload than room, the stop at that many bytes is the recording cut. */
  lemma LimitIsKeep(b: seq<byte>, left: nat, room: nat)
    requires ScanFrom(b, 0, left).Scanned? && room < |Payload(b, left)|
    ensures LimitOffset(ScanFrom(b, 0, left).scan, room) == Some(Keep(b, left, room))
  {
    hide StepAt;
    assert b[0..] == b;
    if room > 0 {
      WalkIsKeep(b, 0, left, room);
    } else if StepAt(b, left).Chunk? {
      ScanStep(b, 0, left);
    }
  }

  /** Payload after a chunk boundary shows as a chunk or a partial one, and none of
      it is kept once the room is spent. */
  lemma SomethingFollows(b: seq<byte>, i: nat)
    requires i <= |b| && ScanFrom(b, i, 0).Scanned? && |Payload(b[i..], 0)| > 0
    ensures var s := ScanFrom(b, i, 0).scan; s.payloads != [] || s.partial.Some?
    ensures Keep(b[i..], 0, 0) == 0
  {
    hide StepAt;
    if StepAt(b[i..], 0).Chunk? {
      ScanStep(b, i, 0);
    }
  }

  /** `stop` has exactly `budget` payload bytes of `b[i..]` before it. */
  predicate StopsAfter(b: seq<byte>, i: nat, left: nat, budget: nat, stop: nat) {
    && i <= stop <= |b|
    && budget <= |Payload(b[i..], left)|
    && Payload(b[i..stop], left) == Payload(b[i..], left)[..budget]
    && VerdictOf(b[i..stop], left) == Open
  }

  /** A stop the walk finds has exactly its budget of payload bytes before it. */
  lemma {:induction false} WalkStops(b: seq<byte>, i: nat, left: nat, budget: nat)
    requires i <= |b| && ScanFrom(b, i, left).Scanned? && budget > 0
    requires var s := ScanFrom(b, i, left).scan; LimitWalk(s.payloads, s.partial, budget).Some?
    ensures var s := ScanFrom(b, i, left).scan;
      StopsAfter(b, i, left, budget, LimitWalk(s.payloads, s.partial, budget).value)
    decreases |b| - i
  {
    hide StepAt, StopsAfter;
    var step := StepAt(b[i..], left);
    if step.Chunk? {
      ScanStep(b, i, left);
      var next := AfterChunk(step, i);
      var t := ScanFrom(b, next, 0).scan;
      var size := |Data(b[i..], left)|;
      WalkCons(ChunkRange(step, i), size, t.payloads, t.partial, budget);
      hide Data, LimitWalk;
      if size < budget {
        WalkStops(b, next, 0, budget - size);
        StopsLater(b, i, left, budget - size, LimitWalk(t.payloads, t.partial, budget - size).value);
      } else if size == budget {
        StopsNow(b, next);
        StopsLater(b, i, left, 0, next);
      } else {
        StopsInside(b, i, left, budget);
      }
    } else {
      StopsInside(b, i, left, budget);
    }
  }

  lemma StopsNow(b: seq<byte>, i: nat)
    requires i <= |b|
    ensures StopsAfter(b, i, 0, 0, i)
  {
    assert b[i..i] == [];
  }

  lemma StopsInside(b: seq<byte>, i: nat, left: nat, budget: nat)
    requires i <= |b| && 0 < budget <= |Data(b[i..], left)|
    requires StepAt(b[i..], left).Chunk? || StepAt(b[i..], left).Partial?
    ensures StopsAfter(b, i, left, budget, i + StepAt(b[i..], left).dataStart + budget)
  {
    hide StepAt;
    var c := b[i..];
    var k := StepAt(c, left).dataStart + budget;
    InsideChunk(c, k, left);
    assert b[i..i + k] == c[..k];
    assert Data(c, left)[..budget] == Payload(c, left)[..budget];
  }

  lemma StopsLater(b: seq<byte>, i: nat, left: nat, budget: nat, stop: nat)
    requires i <= |b| && StepAt(b[i..], left).Chunk? && AfterChunk(StepAt(b[i..], left), i) <= |b|
    requires StopsAfter(b, AfterChunk(StepAt(b[i..], left), i), 0, budget, stop)
    ensures StopsAfter(b, i, left, |Data(b[i..], left)| + budget, stop)
  {
    hide StepAt;
    ScanStep(b, i, left);
    WholeChunkBefore(b, i, stop, left);
    var next := AfterChunk(StepAt(b[i..], left), i);
    assert Payload(b[i..], left) == Data(b[i..], left) + Payload(b[next..], 0);
  }

  lemma WholeChunkBefore(b: seq<byte>, i: nat, stop: nat, left: nat)
    requires i <= stop <= |b| && StepAt(b[i..], left).Chunk?
    requires AfterChunk(StepAt(b[i..], left), i) <= stop
    ensures Payload(b[i..stop], left) ==
      Data(b[i..], left) + Payload(b[AfterChunk(StepAt(b[i..], left), i)..stop], 0)
    ensures VerdictOf(b[i..stop], left).Open? <==>
      VerdictOf(b[AfterChunk(StepAt(b[i..], left), i)..stop], 0).Open?
    ensures Resumes(b[i..stop], left) == Resumes(b[AfterChunk(StepAt(b[i..], left), i)..stop], 0)
  {
    hide StepAt;
    var c := b[i..];
    CutChunk(c, stop - i, left);
    assert b[i..stop] == c[..stop - i];
    assert Tail(c, left)[..stop - AfterChunk(StepAt(c, left), i)]
        == b[AfterChunk(StepAt(c, left), i)..stop];
  }

  /** Cut inside its data, a chunk is a partial one with the data before the cut. */
  lemma InsideChunk(b: seq<byte>, k: nat, left: nat)
    requires var step := StepAt(b, left);
      (step.Chunk? || step.Partial? || step.BadTerminator?) && step.dataStart < k <= step.dataEnd && k <= |b|
    ensures StepAt(b[..k], left) == Partial(StepAt(b, left).dataStart, StepAt(b, left).dataEnd)
    ensures Payload(b[..k], left) == Data(b, left)[..k - StepAt(b, left).dataStart]
    ensures VerdictOf(b[..k], left) == Open
  {
    hide StepAt;
    StepInside(b, k, left);
  }

  /** When the walk finds no stop, the payload seen so far is within the budget. */
  lemma {:induction false} WalkFindsNone(b: seq<byte>, i: nat, left: nat, budget: nat)
    requires i <= |b| && ScanFrom(b, i, left).Scanned? && budget > 0
    requires var s := ScanFrom(b, i, left).scan; LimitWalk(s.payloads, s.partial, budget).None?
    ensures |Payload(b[i..], left)| <= budget
    ensures |Payload(b[i..], left)| == budget ==> ScanFrom(b, i, left).scan.partial.None?
    decreases |b| - i
  {
    hide StepAt;
    var step := StepAt(b[i..], left);
    if step.Chunk? {
      ScanStep(b, i, left);
      var next := AfterChunk(step, i);
      var t := ScanFrom(b, next, 0).scan;
      var size := |Data(b[i..], left)|;
      WalkCons(ChunkRange(step, i), size, t.payloads, t.partial, budget);
      if size < budget {
        WalkFindsNone(b, next, 0, budget - size);
      } else {
        ScanIsPayload(b, next, 0);
        assert Spans(t) == [];
      }
    }
  }

  /** When the walk finds a stop with no payload past the budget, the bytes end in a chunk. */
  lemma {:induction false} WalkFindsChunk(ps: seq<Range>, partial: Option<Range>, budget: nat)
    requires budget > 0 && LimitWalk(ps, partial, budget).Some?
    requires forall i :: 0 <= i < |ps| ==> Size(ps[i]) > 0
    requires Total(ps) + (if partial.Some? then Size(partial.value) else 0) <= budget
    ensures partial.Some?
    decreases |ps|
  {
    if ps != [] && Size(ps[0]) < budget {
      WalkFindsChunk(ps[1..], partial, budget - Size(ps[0]));
    }
  }

  // ---- deliveries ----

  /** Everything before the first incomplete chunk can be delivered. */
  lemma {:induction false} ResumePoint(b: seq<byte>, i: nat, left: nat)
    requires i <= |b| && ScanFrom(b, i, left).Scanned? && ScanFrom(b, i, left).scan.end.None?
    ensures var s := ScanFrom(b, i, left).scan;
      && i <= s.resumeFrom <= |b|
      && Resumes(b[i..s.resumeFrom], left) == Some(if s.payloads == [] then left else 0)
      && |Payload(b[i..s.resumeFrom], left)| == Total(s.payloads)
      && (s.payloads == [] ==> s.resumeFrom == i)
    decreases |b| - i
  {
    hide StepAt;
    var step := StepAt(b[i..], left);
    var s := ScanFrom(b, i, left).scan;
    if step.Chunk? {
      ScanStep(b, i, left);
      var next := AfterChunk(step, i);
      ResumePoint(b, next, 0);
      var t := ScanFrom(b, next, 0).scan;
      assert s.payloads[1..] == t.payloads;
      WholeChunkBefore(b, i, s.resumeFrom, left);
      if t.payloads == [] {
        assert b[next..s.resumeFrom] == [];
      }
    } else {
      assert b[i..i] == [];
    }
  }

  /** A buffer that ends inside a chunk's data can be delivered whole. */
  lemma {:induction false} ResumeInside(b: seq<byte>, i: nat, left: nat)
    requires i <= |b| && ScanFrom(b, i, left).Scanned?
    requires var s := ScanFrom(b, i, left).scan;
      s.partial.Some? && s.dataLeft > 0 && Size(s.partial.value) > 0
    ensures Resumes(b[i..], left) == Some(ScanFrom(b, i, left).scan.dataLeft)
    decreases |b| - i
  {
    hide StepAt;
    var step := StepAt(b[i..], left);
    if step.Chunk? {
      ScanStep(b, i, left);
      ResumeInside(b, AfterChunk(step, i), 0);
    }
  }

  /** The size line a delivery leaves in the buffer after feeding it, if any. */
  predicate FedAhead(b: seq<byte>, left: nat, fed: nat) {
    fed > 0 ==> left == 0 && fed <= |b| && StepAt(b[..fed], 0).Partial? && StepAt(b[..fed], 0).dataStart == fed
  }

  lemma {:induction false} HeldLine(b: seq<byte>, i: nat, left: nat)
    requires i <= |b| && ScanFrom(b, i, left).Scanned?
    requires var s := ScanFrom(b, i, left).scan;
      s.partial.Some? && s.dataLeft > 0 && Size(s.partial.value) == 0
    ensures var s := ScanFrom(b, i, left).scan;
      i <= s.resumeFrom <= |b| &&
      var at := if s.payloads == [] then left else 0;
      StepAt(b[s.resumeFrom..], at).Partial? && StepAt(b[s.resumeFrom..], at).dataStart == |b| - s.resumeFrom
    decreases |b| - i
  {
    hide StepAt;
    var step := StepAt(b[i..], left);
    if step.Chunk? {
      ScanStep(b, i, left);
      HeldLine(b, AfterChunk(step, i), 0);
    }
  }

  /** What a delivery does: the delivered bytes end where reading may resume and
      carry the payload it counts. */
  lemma DeliveryResumes(b: seq<byte>, left: nat)
    requires ScanFrom(b, 0, left).Scanned? && ScanFrom(b, 0, left).scan.end.None?
    ensures var d := ChunkDelivery(ScanFrom(b, 0, left).scan, |b|);
      && d.length <= d.feed <= |b|
      && d.payload == |Payload(b[..d.length], left)|
      && (d.feed == 0 ==> d.payload == 0)
      && (d.feed > 0 ==> Resumes(b[..d.length], left) == Some(d.dataLeft))
  {
    hide StepAt;
    var s := ScanFrom(b, 0, left).scan;
    assert b[0..] == b && b[..|b|] == b;
    ResumePoint(b, 0, left);
    assert b[..s.resumeFrom] == b[0..s.resumeFrom];
    if s.partial.Some? && s.dataLeft > 0 && Size(s.partial.value) > 0 {
      ResumeInside(b, 0, left);
      ScanIsPayload(b, 0, left);
      TotalSnoc(s.payloads, s.partial.value);
    } else if left > 0 && s.payloads == [] {
      assert StepAt(b, left).Partial?;
    }
  }

  /** No byte is fed to the parser twice: a delivery feeds on from what was fed
      ahead, and what it feeds ahead is the size line left in the buffer. */
  lemma DeliveryFeedsOn(b: seq<byte>, left: nat, fed: nat)
    requires ScanFrom(b, 0, left).Scanned? && ScanFrom(b, 0, left).scan.end.None?
    requires FedAhead(b, left, fed)
    ensures var d := ChunkDelivery(ScanFrom(b, 0, left).scan, |b|);
      d.feed > 0 ==>
        && fed <= d.feed
        && d.length <= d.feed <= |b|
        && FedAhead(b[d.length..], d.dataLeft, d.feed - d.length)
  {
    hide StepAt;
    var s := ScanFrom(b, 0, left).scan;
    var d := ChunkDelivery(s, |b|);
    assert b[0..] == b;
    DeliveryResumes(b, left);
    if fed > 0 {
      FedBeforeData(b, left, fed);
      if StepAt(b, left).Chunk? {
        ScanStep(b, 0, 0);
        ResumePoint(b, AfterChunk(StepAt(b, 0), 0), 0);
      }
    }
    if s.partial.Some? && s.dataLeft > 0 && Size(s.partial.value) == 0 && d.feed > 0 {
      HeldLine(b, 0, left);
      assert b[d.length..][..d.feed - d.length] == b[d.length..];
    }
  }

  lemma {:induction false} TotalSnoc(ps: seq<Range>, r: Range)
    ensures Total(ps + [r]) == Total(ps) + Size(r)
  {
    if ps != [] {
      assert (ps + [r])[1..] == ps[1..] + [r];
      TotalSnoc(ps[1..], r);
    }
  }

  /** A size line fed ahead is still the one the buffer starts with. */
  lemma FedBeforeData(b: seq<byte>, left: nat, fed: nat)
    requires FedAhead(b, left, fed) && fed > 0
    ensures var step := StepAt(b, 0);
      (step.Partial? || step.Chunk? || step.BadTerminator?) && step.dataStart == fed
  {
    SizeLineCut(b, fed);
  }
}
