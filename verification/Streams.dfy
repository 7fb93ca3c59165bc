/** Stream-level read-ahead: bytes handed back to a reader come out first. */
module Streams {
  import opened Bytes

  /** How a stream stops once its pieces are used up. */
  datatype Ending = AtEof | Broken | Cancelled

  datatype ReadStatus = DataRead | EndOfStream | ReadFailed | ReadCancelled

  function StatusAt(ending: Ending): ReadStatus {
    match ending
    case AtEof => EndOfStream
    case Broken => ReadFailed
    case Cancelled => ReadCancelled
  }

  /** What another task would count while a read waits for the network. */
  datatype Moment = Moment(bytesRead: nat, bytesConsumed: nat)

  /** Where a call began: how many waits and received bytes there were, how many bytes its
      caller had consumed, and how many were consumed, passed in or handed back. */
  datatype Start = Start(waits: nat, received: nat, consumed: nat, atHand: nat)

  /** A reader: the bytes held for it, then the pieces the network has yet to
      deliver, in the order and sizes they will arrive.  A wrapped `read` may hand
      back a whole piece whatever size was asked for.  `received` counts the bytes
      such reads returned, so bytes handed back and read again count once; `waits` has the
      counters that each wait for the network would show. */
  class ByteStream {
    var unread: seq<byte>
    var pieces: seq<seq<byte>>
    var received: nat
    var waits: seq<Moment>
    const ending: Ending
    /** How many bytes the network delivers in all. */
    ghost const total: nat

    ghost predicate Valid()
      reads this
    {
      && (forall i :: 0 <= i < |pieces| ==> pieces[i] != [])
      && received + |Join(pieces)| == total
    }

    /** The bytes still to be read, in stream order. */
    ghost function Logical(): seq<byte>
      reads this
    {
      unread + Join(pieces)
    }

    ghost function Now(initial: nat, consumed: nat): Start
      reads this
    {
      Start(|waits|, received, consumed, consumed + initial + |unread|)
    }

    /** No wait since `start` saw more consumed than was at hand then and received since, and
        each saw counters between those of the start and those now. */
    ghost predicate Watched(start: Start, consumed: nat)
      reads this`waits, this`received
    {
      && start.waits <= |waits| && start.received <= received && start.consumed <= consumed
      && forall i :: start.waits <= i < |waits| ==>
           && start.received <= waits[i].bytesRead <= received
           && start.consumed <= waits[i].bytesConsumed <= consumed
           && waits[i].bytesConsumed + start.received <= start.atHand + waits[i].bytesRead
    }

    lemma WatchBegins(initial: nat, consumed: nat)
      ensures Watched(Now(initial, consumed), consumed)
    {
    }

    lemma WatchGoesOn(start: Start, consumed: nat, more: nat)
      requires Watched(start, consumed) && consumed <= more
      ensures Watched(start, more)
    {
    }

    constructor (pieces: seq<seq<byte>>, ending: Ending)
      requires forall i :: 0 <= i < |pieces| ==> pieces[i] != []
      ensures Valid() && Logical() == Join(pieces) && this.ending == ending && unread == []
      ensures this.pieces == pieces && received == 0 && waits == [] && total == |Join(pieces)|
    {
      this.unread := [];
      this.received := 0;
      this.waits := [];
      this.total := |Join(pieces)|;
      this.pieces := pieces;
      this.ending := ending;
    }

    /** What was received is what is no longer in the stream, and what was handed back. */
    lemma ReceivedBalance()
      requires Valid()
      ensures received == total - |Logical()| + |unread|
    {
    }

    method UnreadData(data: seq<byte>)
      modifies this`unread
      ensures Logical() == data + old(Logical())
      ensures unread == data + old(unread)
    {
      unread := data + unread;
      assert unread + Join(pieces) == data + (old(unread) + Join(pieces));
    }

    /** Up to `limit` of the held bytes, or all of them. */
    method TakeUnreadData(limit: Option<nat>) returns (data: seq<byte>)
      modifies this`unread
      ensures data + unread == old(unread) && data + Logical() == old(Logical())
      ensures |data| == if limit.Some? then Min(limit.value, |old(unread)|) else |old(unread)|
    {
      var size := if limit.Some? && limit.value < |unread| then limit.value else |unread|;
      data := unread[..size];
      unread := unread[size..];
      assert data + (unread + Join(pieces)) == data + unread + Join(pieces);
    }

    /** Held bytes before the stream's own; no bytes only at the stream's end.  `consumed`
        counts the bytes the caller's sink holds while the read waits. */
    method Read(maxBytes: nat, consumed: nat) returns (data: seq<byte>, status: ReadStatus)
      requires Valid() && maxBytes > 0
      modifies this
      ensures Valid() && data + Logical() == old(Logical())
      ensures status.DataRead? <==> data != []
      ensures !status.DataRead? ==> Logical() == [] && status == StatusAt(ending)
      ensures received == old(received) + (if old(unread) == [] then |data| else 0)
      ensures waits == old(waits) + (if old(unread) == [] then [Moment(old(received), consumed)] else [])
      ensures old(unread) == [] && old(pieces) != [] ==>
        data == old(pieces)[0] && pieces == old(pieces)[1..] && unread == []
      ensures old(unread) == [] && old(pieces) == [] ==> data == []
    {
      hide Join;
      data := TakeUnreadData(Some(maxBytes));
      if data != [] { return data, DataRead; }
      data, status := Receive(consumed);
    }

    /** Wait for the network's next piece, or for the end. */
    method Receive(consumed: nat) returns (data: seq<byte>, status: ReadStatus)
      requires Valid() && unread == []
      modifies this`pieces, this`received, this`waits
      ensures Valid() && data + Logical() == old(Logical())
      ensures if old(pieces) == [] then data == [] && pieces == [] else data == old(pieces)[0] && pieces == old(pieces)[1..]
      ensures old(pieces) == [] ==> Logical() == []
      ensures status == if old(pieces) == [] then StatusAt(ending) else DataRead
      ensures received == old(received) + |data| && (old(pieces) != [] ==> data != [])
      ensures waits == old(waits) + [Moment(old(received), consumed)]
    {
      waits := waits + [Moment(received, consumed)];
      if pieces == [] { return [], StatusAt(ending); }
      data := pieces[0];
      received := received + |data|;
      pieces := pieces[1..];
      return data, DataRead;
    }
  }
}
