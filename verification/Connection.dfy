/** A connection, as the finite list of what its read calls return. */
module Connection {
  import opened Bytes
  import opened Protocol

  /** One return of a read call: some octets, possibly none, and an error or none. */
  datatype ReadEvent = ReadEvent(data: bytes, err: Option<Error>)

  /** The octets that arrive up to the first error. */
  function Received(events: seq<ReadEvent>): bytes {
    if events == [] then []
    else if events[0].err.Some? then events[0].data
    else events[0].data + Received(events[1..])
  }

  /** The error that ends the reads; a peer that stays silent runs into the read deadline. */
  function FinalError(events: seq<ReadEvent>): Error {
    if events == [] then Timeout
    else if events[0].err.Some? then events[0].err.value
    else FinalError(events[1..])
  }

  predicate EndsQuietly(e: Error) {
    e == Timeout || e == Eof
  }

  /** The events from `i` on deliver what is still missing. */
  ghost predicate Pending(events: seq<ReadEvent>, i: nat, seen: bytes)
    requires i <= |events|
  {
    Received(events) == seen + Received(events[i..]) && FinalError(events) == FinalError(events[i..])
  }

  function EventAt(events: seq<ReadEvent>, i: nat): ReadEvent {
    if i < |events| then events[i] else ReadEvent([], Some(Timeout))
  }

  lemma PendingStep(events: seq<ReadEvent>, i: nat, seen: bytes) returns (future: bytes)
    requires i <= |events| && Pending(events, i, seen)
    ensures var e := EventAt(events, i);
            && Received(events) == seen + e.data + future
            && (e.err.Some? ==> FinalError(events) == e.err.value && Received(events) == seen + e.data)
            && (e.err.None? ==> i < |events| && Pending(events, i + 1, seen + e.data))
  {
    var e := EventAt(events, i);
    future := if e.err.Some? then [] else Received(events[i + 1..]);
    if i < |events| {
      assert events[i..][1..] == events[i + 1..];
    }
    Associate(seen, e.data, future);
  }
}
