/** Recorded traffic: bounded histories, bounded queues, and the request timestamps. */
module Traffic {
  import opened Bytes
  import opened Recording

  /** The latest entries put and not yet taken, in order, at most `maxSize` of them. */
  class BoundedRecordQueue<T(==)> {
    const maxSize: Option<nat>
    var queue: seq<T>
    var dropped: nat
    // everything ever put, and the positions in it of the entries handed out
    ghost var puts: seq<T>
    ghost var taken: seq<nat>

    /** The queue is the end of what was put; every entry before it was handed out, in
        order, or dropped. */
    ghost predicate Valid()
      reads this
    {
      && (maxSize.Some? ==> maxSize.value >= 1 && |queue| <= maxSize.value)
      && |queue| <= |puts| && queue == puts[|puts| - |queue|..]
      && |taken| + dropped + |queue| == |puts|
      && (forall i :: 0 <= i < |taken| ==> taken[i] < |puts| - |queue|)
      && (forall i, j :: 0 <= i < j < |taken| ==> taken[i] < taken[j])
    }

    constructor (maxSize: Option<nat>)
      requires maxSize.Some? ==> maxSize.value >= 1
      ensures Valid() && this.maxSize == maxSize && puts == [] && taken == []
    {
      this.maxSize := maxSize;
      queue, dropped, puts, taken := [], 0, [], [];
    }

    method Put(item: T)
      requires Valid()
      modifies this
      ensures Valid() && puts == old(puts) + [item] && taken == old(taken)
      ensures queue == Last(old(queue) + [item], maxSize)
      ensures dropped == old(dropped) + (if maxSize == Some(|old(queue)|) then 1 else 0)
    {
      if maxSize.Some? && |queue| >= maxSize.value {
        queue, dropped := queue[1..], dropped + 1;
      }
      queue, puts := queue + [item], puts + [item];
    }

    method GetNowait() returns (item: Option<T>)
      requires Valid()
      modifies this
      ensures Valid() && puts == old(puts) && dropped == old(dropped)
      ensures item.None? <==> old(queue) == []
      ensures item.Some? ==> item.value == old(queue)[0] && queue == old(queue)[1..]
      ensures item.Some? ==> exists at: nat :: taken == old(taken) + [at] && at < |puts| && puts[at] == item.value
      ensures item.None? ==> queue == old(queue) && taken == old(taken)
    {
      if queue == [] { return None; }
      ghost var at: nat := |puts| - |queue|;
      item := Some(queue[0]);
      queue, taken := queue[1..], taken + [at];
    }
  }

  /** Drop the oldest entries beyond the limit; what went comes back. */
  method TrimHistory<T>(items: seq<T>, maxSize: Option<nat>) returns (kept: seq<T>, evicted: seq<T>)
    ensures evicted + kept == items && kept == Last(items, maxSize)
  {
    if maxSize.None? { return items, []; }
    var excess := |items| - maxSize.value;
    if excess <= 0 { return items, []; }
    kept, evicted := items[excess..], items[..excess];
  }

  /** Distinct requests, each with the time it was received and no other times. */
  ghost predicate Stamped(requests: seq<nat>, timestamps: map<nat, real>, received: seq<Received>) {
    && |requests| <= |received|
    && (forall i, j :: 0 <= i < j < |requests| ==> requests[i] != requests[j])
    && (forall id :: id in timestamps <==> id in requests)
    && (forall i :: 0 <= i < |requests| ==> timestamps[requests[i]] == received[|received| - |requests| + i].at)
  }

  lemma StampedOneMore(requests: seq<nat>, timestamps: map<nat, real>, received: seq<Received>, next: Received,
                       evicted: seq<nat>, kept: seq<nat>)
    requires Stamped(requests, timestamps, received) && next.id !in requests
    requires evicted + kept == requests + [next.id] && kept != []
    ensures Stamped(kept, (timestamps - Elements(evicted))[next.id := next.at], received + [next])
  {
    var more, stamps := requests + [next.id], (timestamps - Elements(evicted))[next.id := next.at];
    KeptElements(more, evicted, kept);
    assert forall i :: 0 <= i < |kept| ==> kept[i] == more[|evicted| + i];
    forall i | 0 <= i < |kept| - 1
      ensures stamps[kept[i]] == (received + [next])[|received| + 1 - |kept| + i].at
    {
      assert kept[i] == requests[|evicted| + i] && kept[i] in kept;
    }
  }

  datatype Received = Received(id: nat, at: real)

  /** Requests are told apart by identity, `id`. */
  class TrafficRecorder {
    const bufferSize: Option<nat>
    var requests: seq<nat>
    var timestamps: map<nat, real>
    var queue: BoundedRecordQueue<nat>
    ghost var received: seq<Received>

    /** The history is the latest requests, and a timestamp is kept for exactly those. */
    ghost predicate Valid()
      reads this, queue
    {
      && queue.Valid() && queue.maxSize == bufferSize && (bufferSize.Some? ==> bufferSize.value >= 1)
      && queue.puts == Ids(received)
      && requests == Last(Ids(received), bufferSize)
      && Stamped(requests, timestamps, received)
    }

    constructor (bufferSize: Option<nat>)
      requires bufferSize.Some? ==> bufferSize.value >= 1
      ensures Valid() && fresh(queue) && received == [] && this.bufferSize == bufferSize
    {
      this.bufferSize := bufferSize;
      requests, timestamps, received := [], map[], [];
      queue := new BoundedRecordQueue<nat>(bufferSize);
    }

    /** Record a request that is not in the history already. */
    method RecordRequest(id: nat, now: real)
      requires Valid() && id !in requests
      modifies this, queue
      ensures Valid() && queue == old(queue) && received == old(received) + [Received(id, now)]
    {
      hide Stamped, Last, Ids, Elements;
      LastOfMore(Ids(received), id, bufferSize);
      IdsSnoc(received, Received(id, now));
      LastIsNonEmpty(requests, id, bufferSize);
      var kept, evicted := TrimHistory(requests + [id], bufferSize);
      StampedOneMore(requests, timestamps, received, Received(id, now), evicted, kept);
      timestamps := (timestamps - Elements(evicted))[id := now];
      requests, received := kept, received + [Received(id, now)];
      queue.Put(id);
    }

    /** The time a request was received, while it is in the history. */
    method GetRequestTimestamp(id: nat) returns (at: Option<real>)
      requires Valid()
      ensures at.Some? <==> id in requests
      ensures at.Some? ==> exists i :: 0 <= i < |received| && received[i] == Received(id, at.value)
    {
      hide Last, Ids, BoundedRecordQueue.Valid;
      if id !in timestamps { return None; }
      ghost var i := StampIsReception(requests, timestamps, received, bufferSize, id);
      at := Some(timestamps[id]);
    }
  }

  /** A kept timestamp is the time its request was received. */
  lemma StampIsReception(requests: seq<nat>, timestamps: map<nat, real>, received: seq<Received>, limit: Option<nat>,
                         id: nat) returns (i: nat)
    requires Stamped(requests, timestamps, received) && requests == Last(Ids(received), limit)
    requires id in timestamps
    ensures i < |received| && received[i] == Received(id, timestamps[id])
  {
    hide *;
    var k := StampedAt(requests, timestamps, received, id);
    i := |received| - |requests| + k;
    LastAt(Ids(received), limit, k);
    IdAt(received, i);
  }

  lemma LastAt(s: seq<nat>, limit: Option<nat>, k: nat)
    requires k < |Last(s, limit)|
    ensures Last(s, limit)[k] == s[|s| - |Last(s, limit)| + k]
  {
  }

  lemma IdAt(received: seq<Received>, i: nat)
    requires i < |received|
    ensures Ids(received)[i] == received[i].id
  {
    IdsAt(received);
  }

  lemma StampedAt(requests: seq<nat>, timestamps: map<nat, real>, received: seq<Received>, id: nat) returns (k: nat)
    requires Stamped(requests, timestamps, received) && id in timestamps
    ensures k < |requests| <= |received| && requests[k] == id
    ensures timestamps[id] == received[|received| - |requests| + k].at
  {
    k :| 0 <= k < |requests| && requests[k] == id;
  }

  function Ids(received: seq<Received>): (r: seq<nat>)
    ensures |r| == |received|
  {
    if received == [] then [] else Ids(received[..|received| - 1]) + [received[|received| - 1].id]
  }

  lemma IdsSnoc(received: seq<Received>, last: Received)
    ensures Ids(received + [last]) == Ids(received) + [last.id]
  {
    assert (received + [last])[..|received|] == received;
  }

  lemma {:induction false} IdsAt(received: seq<Received>)
    ensures forall i :: 0 <= i < |received| ==> Ids(received)[i] == received[i].id
  {
    if received != [] { IdsAt(received[..|received| - 1]); }
  }

  function Elements(s: seq<nat>): set<nat> {
    set i | 0 <= i < |s| :: s[i]
  }

  /** Of a list without repetitions, what is kept and what goes have nothing in common. */
  lemma KeptElements(s: seq<nat>, evicted: seq<nat>, kept: seq<nat>)
    requires evicted + kept == s && forall i, j :: 0 <= i < j < |s| ==> s[i] != s[j]
    ensures forall id :: id in s <==> id in Elements(evicted) || id in kept
    ensures forall id :: id in kept ==> id !in Elements(evicted)
  {
    forall id | id in kept ensures id !in Elements(evicted) {
      var k :| 0 <= k < |kept| && kept[k] == id;
      assert s[|evicted| + k] == id;
      forall i | 0 <= i < |evicted| ensures evicted[i] != id { assert s[i] == evicted[i]; }
    }
    forall id ensures id in s <==> id in Elements(evicted) || id in kept {
      if id in s {
        var i :| 0 <= i < |s| && s[i] == id;
        if i < |evicted| { assert evicted[i] == id; } else { assert kept[i - |evicted|] == id; }
      }
    }
  }

  lemma LastIsNonEmpty<T>(s: seq<T>, x: T, limit: Option<nat>)
    requires limit.Some? ==> limit.value >= 1
    ensures Last(s + [x], limit) != []
  {
  }

  /** Trimming after each addition keeps the same as trimming once. */
  lemma LastOfMore<T>(all: seq<T>, x: T, limit: Option<nat>)
    ensures Last(Last(all, limit) + [x], limit) == Last(all + [x], limit)
  {
  }
}
