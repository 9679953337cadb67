/** A whole session on one connection: the server's flight, the handshake, the client's two records,
    and the server's application data. */
module Session {
  import opened Bytes
  import opened Protocol
  import opened Record
  import opened Protection
  import opened Connection
  import opened AppReader
  import opened KeySchedule
  import opened Flow
  import opened FlightReader

  /** What the client sends after the server's flight, and what it gets back. */
  datatype Exchange = Exchange(finished: TLSPlaintext, request: TLSPlaintext, response: AppData)

  lemma HandshakeKeysUsable(c: Client, clientHello: bytes, flight: bytes)
    requires LawfulPrimitives(c.primitives) && Handshake4To12(c, clientHello, flight).Ok?
    ensures UsableKeys(Handshake4To12(c, clientHello, flight).value)
  {
    var d := Decrypt(c, clientHello, flight).value;
    HandshakeFrom(c, clientHello, flight, d);
    SessionKeysUsable(c.primitives, d.sharedSecret, clientHello, d.serverHello, d.records);
  }

  /** The client's Finished under its handshake key, and its request under its application key. */
  function ClientRecords(c: Client, keys: SessionKeys, request: bytes): Result<(TLSPlaintext, TLSPlaintext), Error>
    requires UsableKeys(keys)
  {
    var finished := BuildClientFinishedRecord(c, keys, 0);
    var sent := Sealed(c.suite, keys.clientKey, keys.clientIV, 0, APPLICATION_DATA, request);
    match (finished, sent)
    case (Err(e), _) => Err(e)
    case (_, Err(e)) => Err(e)
    case (Ok(a), Ok(b)) => Ok((a, b))
  }

  /** The second reader goes on where the first one stopped. */
  ghost function SessionOf(c: Client, clientHello: bytes, request: bytes, events: seq<ReadEvent>, isComplete: bytes -> bool)
    : Result<Exchange, Error>
    requires LawfulPrimitives(c.primitives)
  {
    var flight :- FlightFrom(events, 0, isComplete);
    var keys :- Handshake4To12(c, clientHello, flight);
    HandshakeKeysUsable(c, clientHello, flight);
    match ClientRecords(c, keys, request)
    case Err(e) => Err(e)
    case Ok(records) =>
      var left := events[UsedFrom(events, 0, isComplete)..];
      var response :- StreamOutcome(c.suite, keys.serverKey, keys.serverIV, Received(left), FinalError(left));
      Ok(Exchange(records.0, records.1, response))
  }

  method Run(c: Client, clientHello: bytes, request: bytes, events: seq<ReadEvent>, isComplete: bytes -> bool)
    returns (r: Result<Exchange, Error>)
    requires LawfulPrimitives(c.primitives)
    ensures r == SessionOf(c, clientHello, request, events, isComplete)
  {
    var flight, used := ReadServerHandshakeFlight(events, isComplete);
    if flight.Err? {
      return Err(flight.error);
    }
    var keys :- DoHandshake(c, clientHello, flight.value);
    HandshakeKeysUsable(c, clientHello, flight.value);
    var sent := ClientRecords(c, keys, request);
    match sent {
      case Err(e) => return Err(e);
      case Ok(records) =>
        var response :- ReadServerApplicationData(c.suite, events[used..], keys.serverKey, keys.serverIV);
        return Ok(Exchange(records.0, records.1, response));
    }
  }
}
