/** Bounded recording buffers: the last bytes of a connection, the last records. */
module Recording {
  import opened Bytes

  /** The last `n` of `s`, or all of it without a limit. */
  function Last<T>(s: seq<T>, limit: Option<nat>): seq<T> {
    if limit.Some? && limit.value < |s| then s[|s| - limit.value..] else s
  }

  function TotalSize(parts: seq<seq<byte>>): nat {
    if parts == [] then 0 else |parts[0]| + TotalSize(parts[1..])
  }

  lemma {:induction false} TotalSizeSnoc(parts: seq<seq<byte>>, x: seq<byte>)
    ensures TotalSize(parts + [x]) == TotalSize(parts) + |x|
  {
    if parts != [] {
      assert (parts + [x])[1..] == parts[1..] + [x];
      TotalSizeSnoc(parts[1..], x);
    }
  }

  lemma {:induction false} JoinSize(parts: seq<seq<byte>>)
    ensures |Join(parts)| == TotalSize(parts)
  {
    if parts != [] {
      JoinSize(parts[1..]);
    }
  }

  /** Of two neighbours at least one has `size` bytes, and the last one has. */
  predicate Coalesced(parts: seq<seq<byte>>, size: nat) {
    && (forall i :: 0 <= i < |parts| - 1 ==> |parts[i]| >= size || |parts[i + 1]| >= size)
    && (parts != [] ==> |parts[|parts| - 1]| >= size)
  }

  /** Coalesced pieces average half of `size`. */
  lemma {:induction false} CoalescedCount(parts: seq<seq<byte>>, size: nat)
    requires Coalesced(parts, size)
    ensures |parts| * size <= 2 * TotalSize(parts)
    decreases |parts|
  {
    if |parts| >= 2 {
      var rest := parts[2..];
      assert parts[1..][1..] == rest && parts[1..][0] == parts[1];
      assert forall i :: 0 <= i < |rest| ==> rest[i] == parts[i + 2];
      CoalescedCount(rest, size);
      assert |parts| * size == |rest| * size + 2 * size;
    }
  }

  /** Newest bytes up to a maximum, held in pieces and evicted lazily. */
  class BoundedByteBuffer {
    const maxsize: Option<nat>
    const coalesceSize: nat

    var chunks: seq<seq<byte>>
    var headOffset: nat
    var pending: seq<byte>
    var size: nat
    var droppedCount: nat

    /** Everything written since the last `Clear`, and what was evicted before it. */
    ghost var written: seq<byte>
    ghost var evictedBefore: nat

    function Overflow(): nat
      reads this
    {
      if maxsize.None? || size <= maxsize.value then 0 else size - maxsize.value
    }

    /** All chunks and the pending bytes, from the head offset on. */
    ghost function Held(): seq<byte>
      requires headOffset <= |Join(chunks)|
      reads this
    {
      Join(chunks)[headOffset..] + pending
    }

    ghost predicate Shape()
      reads this
    {
      && coalesceSize > 0 && (maxsize.Some? ==> maxsize.value > 0)
      && (if chunks == [] then headOffset == 0 else headOffset < |chunks[0]|)
      && (forall i :: 0 <= i < |chunks| ==> chunks[i] != [])
      && (chunks != [] ==> Coalesced(chunks[1..], coalesceSize))
      && headOffset <= |Join(chunks)|
    }

    ghost predicate Valid()
      reads this
    {
      && Shape() && size == |Held()|
      && |pending| < coalesceSize
      && Overflow() <= |pending|
      && size <= |written| && Held() == written[|written| - size..]
      && Last(written, maxsize) == Last(Held(), maxsize)
      && droppedCount + Overflow() == evictedBefore + (|written| - |Last(written, maxsize)|)
    }

    /** What a reader of the buffer sees. */
    ghost function Contents(): seq<byte>
      reads this
    {
      Last(written, maxsize)
    }

    /** How many bytes were evicted over the buffer's whole life. */
    ghost function Evicted(): nat
      reads this
    {
      evictedBefore + (|written| - |Last(written, maxsize)|)
    }

    constructor (maxsize: Option<nat>, coalesceSize: nat)
      requires coalesceSize > 0 && (maxsize.Some? ==> maxsize.value > 0)
      ensures Valid() && Contents() == [] && Evicted() == 0
      ensures this.maxsize == maxsize && this.coalesceSize == coalesceSize
    {
      this.maxsize := maxsize;
      this.coalesceSize := coalesceSize;
      chunks, headOffset, pending, size, droppedCount := [], 0, [], 0, 0;
      written, evictedBefore := [], 0;
      new;
      hide Join, Coalesced;
      JoinEmpty([], []);
    }

    /** Eviction pops whole chunks from the head, then advances into the next one. */
    method EvictExcess()
      requires Shape() && size == |Held()|
      modifies this`chunks, this`headOffset, this`pending, this`size, this`droppedCount
      ensures Shape() && size == |Held()| && Overflow() == 0
      ensures Held() == Last(old(Held()), maxsize)
      ensures droppedCount == old(droppedCount) + old(Overflow()) && |pending| <= old(|pending|)
    {
      hide Join, Coalesced;
      var excess := Overflow();
      if excess == 0 {
        return;
      }
      ghost var all := Held();
      droppedCount := droppedCount + excess;
      size := size - excess;
      while excess > 0 && chunks != []
        invariant Shape() && pending == old(pending)
        invariant size == old(size) - old(Overflow()) && droppedCount == old(droppedCount) + old(Overflow())
        invariant 0 <= excess && size + excess <= |all|
        invariant |Held()| == size + excess && Held() == all[|all| - size - excess..]
        decreases |chunks|
      {
        var retained := |chunks[0]| - headOffset;
        DropFromHead(chunks, headOffset, pending, Min(excess, retained));
        if retained > excess {
          headOffset := headOffset + excess;
          return;
        }
        CoalescedTail(chunks, coalesceSize);
        chunks := chunks[1..];
        headOffset := 0;
        excess := excess - retained;
      }
      JoinEmpty(chunks, pending);
      pending := pending[excess..];
    }

    /** The pending bytes become a chunk; the bytes held do not change. */
    method SealPending(ghost next: nat)
      requires Shape() && (|pending| >= coalesceSize || next >= coalesceSize)
      modifies this`chunks, this`pending
      ensures headOffset <= |Join(chunks)| && Held() == old(Held()) && pending == []
      ensures old(pending) == [] ==> chunks == old(chunks)
      ensures old(pending) != [] ==> chunks == old(chunks) + [old(pending)]
    {
      if pending != [] {
        JoinSnoc(chunks, pending);
        chunks := chunks + [pending];
        pending := [];
      }
      assert Join(chunks)[headOffset..] + [] == Join(chunks)[headOffset..];
    }

    method Extend(data: seq<byte>)
      requires Valid()
      modifies this
      ensures Valid() && written == old(written) + data && evictedBefore == old(evictedBefore)
    {
      hide Join, Coalesced, Last;
      var length := |data|;
      if length == 0 {
        assert written + data == written;
        return;
      }
      HeldWithMore(written, size, data, maxsize);
      written := written + data;
      if maxsize.Some? && length >= maxsize.value {
        ReplaceAll(data);
        return;
      }
      size := size + length;
      if length >= coalesceSize {
        AppendChunk(data);
        return;
      }
      AppendPending(data);
    }

    /** A small write joins the pending bytes, which are sealed once there are enough. */
    method AppendPending(data: seq<byte>)
      requires Shape() && size == |Held()| + |data| && Overflow() <= |pending| + |data|
      requires size <= |written| && Held() + data == written[|written| - size..]
      requires Last(written, maxsize) == Last(Held() + data, maxsize)
      requires droppedCount + Overflow() == Evicted()
      modifies this`chunks, this`headOffset, this`pending, this`size, this`droppedCount
      ensures Valid()
    {
      hide Join, Coalesced, Last;
      pending := pending + data;
      assert Join(chunks)[headOffset..] + pending == old(Held()) + data;
      assert Held() + [] == Held();
      if |pending| >= coalesceSize {
        AppendChunk([]);
      }
    }

    /** Remove everything held without counting it as evicted. */
    method Clear()
      requires Valid()
      modifies this
      ensures Valid() && written == [] && Contents() == [] && Evicted() == old(Evicted())
    {
      droppedCount := droppedCount + Overflow();
      chunks, headOffset, pending, size := [], 0, [], 0;
      written, evictedBefore := [], Evicted();
    }

    /** Join the contents; eviction deferred until now is carried out first. */
    method ToBytes() returns (r: seq<byte>)
      requires Valid()
      modifies this`chunks, this`headOffset, this`pending, this`size, this`droppedCount
      ensures Valid() && r == Contents() && Overflow() == 0
    {
      hide Last, Coalesced;
      LastOfSuffix(written, Held(), maxsize);
      EvictExcess();
      if headOffset > 0 {
        SliceHead(chunks, headOffset);
        chunks := [chunks[0][headOffset..]] + chunks[1..];
        headOffset := 0;
      }
      assert Join(chunks)[0..] == Join(chunks);
      r := Join(chunks) + pending;
    }

    function Len(): (n: nat)
      requires Valid()
      reads this
      ensures n == |Contents()|
    {
      size - Overflow()
    }

    function Dropped(): (n: nat)
      requires Valid()
      reads this
      ensures n == Evicted()
    {
      droppedCount + Overflow()
    }

    /** A write of at least the maximum replaces everything held. */
    method ReplaceAll(data: seq<byte>)
      requires coalesceSize > 0 && maxsize.Some? && 0 < maxsize.value <= |data| <= |written|
      requires Last(written, maxsize) == data[|data| - maxsize.value..]
      requires droppedCount + (size + |data| - maxsize.value) == Evicted()
      modifies this`chunks, this`headOffset, this`pending, this`size, this`droppedCount
      ensures Valid()
    {
      hide Join, Coalesced;
      var max := maxsize.value;
      var kept := data[|data| - max..];
      droppedCount := droppedCount + (size + |data| - max);
      chunks := [kept];
      headOffset, pending, size := 0, [], max;
      OneChunk(kept, coalesceSize);
    }

    /** Seal what is pending and add a chunk. */
    method SealAndAppend(data: seq<byte>)
      requires Shape()
      requires data == [] ==> |pending| >= coalesceSize
      requires data != [] ==> |data| >= coalesceSize
      modifies this`chunks, this`pending
      ensures Shape() && Held() == old(Held()) + data && pending == []
    {
      hide Join, Coalesced;
      ChunksGrow(chunks, pending, data, coalesceSize);
      SealPending(|data|);
      if data != [] {
        AppendedChunk(chunks, headOffset, data);
        chunks := chunks + [data];
      }
      assert Held() == old(Held()) + data;
      assert chunks == old(chunks) + (if old(pending) == [] then [] else [old(pending)]) + (if data == [] then [] else [data]);
    }

    /** Add a chunk, and evict down to the maximum. */
    method AppendChunk(data: seq<byte>)
      requires Shape() && size == |Held()| + |data|
      requires data == [] ==> |pending| >= coalesceSize
      requires data != [] ==> |data| >= coalesceSize
      requires size <= |written| && Held() + data == written[|written| - size..]
      requires Last(written, maxsize) == Last(Held() + data, maxsize)
      requires droppedCount + Overflow() == Evicted()
      modifies this`chunks, this`headOffset, this`pending, this`size, this`droppedCount
      ensures Valid()
    {
      hide Join, Coalesced, Last, Held;
      LastOfSuffix(written, Held() + data, maxsize);
      SealAndAppend(data);
      EvictExcess();
      SettledIsValid();
    }

    /** With nothing deferred, holding the newest bytes is all there is to it. */
    lemma SettledIsValid()
      requires Shape() && size == |Held()| && Overflow() == 0 && Held() == Last(written, maxsize)
      requires droppedCount == Evicted() && |pending| < coalesceSize
      ensures Valid()
    {
    }
  }

  /** The bytes held are the newest ones, so they stay so as bytes are added. */
  lemma HeldWithMore(written: seq<byte>, size: nat, data: seq<byte>, limit: Option<nat>)
    requires size <= |written| && Last(written, limit) == Last(written[|written| - size..], limit)
    ensures var held := written[|written| - size..];
      var all := written + data;
      && held + data == all[|all| - (size + |data|)..]
      && Last(all, limit) == Last(held + data, limit)
      && (limit.Some? && |data| >= limit.value ==> Last(all, limit) == data[|data| - limit.value..])
      && |Last(written, limit)| == (if limit.Some? then Min(limit.value, |written|) else |written|)
      && |Last(all, limit)| == (if limit.Some? then Min(limit.value, |all|) else |all|)
      && (limit.Some? ==> Min(limit.value, |written|) == Min(limit.value, size))
  {
    var held := written[|written| - size..];
    LastSize(written, limit);
    LastSize(held, limit);
    LastSize(written + data, limit);
    LastWithMore(written, data, limit);
    LastWithMore(held, data, limit);
    hide Last;
    assert held + data == (written + data)[|written| - size..];
  }

  lemma LastSize(s: seq<byte>, limit: Option<nat>)
    ensures |Last(s, limit)| == (if limit.Some? then Min(limit.value, |s|) else |s|)
  {
  }

  /** What is kept of more is what is kept of what was kept and more. */
  lemma LastWithMore(s: seq<byte>, data: seq<byte>, limit: Option<nat>)
    ensures Last(s + data, limit) == Last(Last(s, limit) + data, limit)
    ensures limit.Some? && |data| >= limit.value ==> Last(s + data, limit) == data[|data| - limit.value..]
  {
    if limit.Some? && |s| > limit.value {
      assert (s + data)[|s| - limit.value..] == Last(s, limit) + data;
    }
  }

  lemma LastOfSuffix(written: seq<byte>, held: seq<byte>, limit: Option<nat>)
    requires |held| <= |written| && held == written[|written| - |held|..]
    requires Last(written, limit) == Last(held, limit)
    ensures var h := Last(held, limit);
      |h| <= |written| && h == written[|written| - |h|..] && Last(h, limit) == h
  {
  }

  lemma SliceHead(chunks: seq<seq<byte>>, offset: nat)
    requires chunks != [] && offset <= |chunks[0]|
    ensures var sliced := [chunks[0][offset..]] + chunks[1..];
      && sliced[1..] == chunks[1..]
      && offset <= |Join(chunks)| && Join(sliced)[0..] == Join(chunks)[offset..]
  {
    var sliced := [chunks[0][offset..]] + chunks[1..];
    assert sliced[1..] == chunks[1..];
  }

  /** The representation stays small: pieces average half of `coalesceSize`. */
  lemma ChunkCountBounded(b: BoundedByteBuffer)
    requires b.Valid() && b.maxsize.Some?
    ensures (|b.chunks| - 1) * b.coalesceSize <= 2 * b.maxsize.value
    ensures b.Overflow() <= |b.pending| < b.coalesceSize
  {
    if b.chunks == [] { return; }
    var rest := b.chunks[1..];
    CoalescedCount(rest, b.coalesceSize);
    JoinSize(rest);
    assert Join(b.chunks) == b.chunks[0] + Join(rest);
  }

  lemma OneChunk(x: seq<byte>, size: nat)
    ensures Join([x]) == x && |Join([x])| == |x| && Join([x])[0..] + [] == x && Coalesced([x][1..], size)
  {
    assert Join([x]) == x + Join([x][1..]);
  }

  lemma AppendedChunk(chunks: seq<seq<byte>>, offset: nat, data: seq<byte>)
    requires offset <= |Join(chunks)|
    ensures offset <= |Join(chunks + [data])|
    ensures Join(chunks + [data])[offset..] + [] == Join(chunks)[offset..] + [] + data
  {
    JoinSnoc(chunks, data);
  }

  /** Sealing what is pending and adding a chunk keeps the pieces coalesced: a small
      piece is only ever followed by a large one. */
  lemma ChunksGrow(chunks: seq<seq<byte>>, pending: seq<byte>, data: seq<byte>, size: nat)
    requires chunks != [] ==> Coalesced(chunks[1..], size)
    requires forall i :: 0 <= i < |chunks| ==> chunks[i] != []
    requires size > 0 && (if data == [] then |pending| >= size else |data| >= size)
    ensures var grown := chunks + (if pending == [] then [] else [pending]) + (if data == [] then [] else [data]);
      && (forall i :: 0 <= i < |grown| ==> grown[i] != [])
      && grown != [] && Coalesced(grown[1..], size)
      && (chunks != [] ==> grown[0] == chunks[0])
  {
  }

  lemma JoinEmpty(chunks: seq<seq<byte>>, pending: seq<byte>)
    ensures chunks == [] ==> |Join(chunks)| == 0 && Join(chunks)[0..] + pending == pending
    ensures chunks == [] ==> forall k :: 0 <= k <= |pending| ==> Join(chunks)[0..] + pending[k..] == pending[k..]
  {
  }

  /** Dropping `k` bytes of the head chunk, up to all that is left of it. */
  lemma DropFromHead(chunks: seq<seq<byte>>, offset: nat, pending: seq<byte>, k: nat)
    requires chunks != [] && offset + k <= |chunks[0]|
    ensures offset + k <= |Join(chunks)|
    ensures (Join(chunks)[offset..] + pending)[k..] == Join(chunks)[offset + k..] + pending
    ensures offset + k == |chunks[0]| ==> Join(chunks)[offset + k..] == Join(chunks[1..])[0..]
  {
  }

  lemma CoalescedTail(chunks: seq<seq<byte>>, size: nat)
    requires chunks != [] && Coalesced(chunks[1..], size)
    ensures var rest := chunks[1..];
      (rest != [] ==> Coalesced(rest[1..], size)) && forall i :: 0 <= i < |rest| ==> rest[i] == chunks[i + 1]
  {
    var rest := chunks[1..];
    if rest != [] {
      assert forall i :: 0 <= i < |rest| - 1 ==> rest[1..][i] == rest[i + 1];
    }
  }
}
