/** Sessions with an honest server: when they succeed, however the octets are cut into reads. */
module HonestSession {
  import opened Bytes
  import opened Protocol
  import opened Record
  import opened Protection
  import opened Sequencing
  import opened Wire
  import opened Connection
  import opened AppReader
  import opened Nonce
  import opened ServerHellos
  import opened Dispatch
  import opened KeySchedule
  import opened Flow
  import opened FlightReader
  import opened HonestFlight
  import opened Overrun
  import opened ServerFlights
  import opened PlainClients
  import opened Session

  /** The keys that both sides derive from the messages exchanged. */
  ghost function KeysOf(c: Client, clientHello: bytes, ms: seq<bytes>, s: Server): (k: SessionKeys)
    requires LawfulPrimitives(c.primitives) && HandshakeSecretsFor(c.primitives, s.shared, clientHello, s.hello).Ok?
    ensures UsableKeys(k) && SessionKeysOver(c.primitives, s.shared, clientHello, s.hello, Concat(ms)) == Ok(k)
  {
    SessionKeysFollowTheSchedule(c.primitives, s.shared, clientHello, s.hello, Concat(ms));
    SessionKeysOver(c.primitives, s.shared, clientHello, s.hello, Concat(ms)).value
  }

  /** Reads that deliver nothing change nothing for the next reader. */
  lemma {:induction false} QuietReads(events: seq<ReadEvent>, n: nat, k: nat)
    requires n <= k <= |events| && Taken(events, n) == Taken(events, k)
    requires forall j :: 0 <= j < k ==> events[j].err.None?
    ensures Received(events[n..]) == Received(events[k..]) && FinalError(events[n..]) == FinalError(events[k..])
    decreases k - n
  {
    if n == k {
    } else {
      TakenGrows(events, n + 1, k);
      assert |Taken(events, n + 1)| == |Taken(events, n)| + |events[n].data|;
      assert events[n].data == [] && Taken(events, n + 1) == Taken(events, n) + [];
      assert events[n..][0] == events[n] && events[n..][1..] == events[n + 1..];
      assert [] + Received(events[n + 1..]) == Received(events[n + 1..]);
      QuietReads(events, n + 1, k);
    }
  }

  lemma KeysFromRecords(c: Client, clientHello: bytes, items: seq<Item>, ms: seq<bytes>, s: Server)
    requires Answers(c, clientHello, items, ms, s)
    ensures SessionKeysFor(c.primitives, s.shared, clientHello, s.hello, Plaintexts(items)) == Ok(KeysOf(c, clientHello, ms, s))
  {
    Understood(items, ms);
    var keys := KeysOf(c, clientHello, ms, s);
  }

  lemma FinishedRead(c: Client, clientHello: bytes, items: seq<Item>, ms: seq<bytes>, s: Server)
    requires Answers(c, clientHello, items, ms, s)
    ensures var keys := KeysOf(c, clientHello, ms, s);
            var rec := BuildClientFinishedRecord(c, keys, 0);
            && rec.Ok? && rec.value.WellFramed()
            && var plain := OpenedRaw(c.suite, keys.handshake.clientKey, keys.handshake.clientIV, 0, [rec.value]);
               plain.Ok? && FlightIn(plain.value) == Ok(NOTHING.(finished := Some(keys.clientFinished)))
    ensures var keys := KeysOf(c, clientHello, ms, s);
            FinishedMac(c.primitives, keys.handshake.clientTrafficSecret, clientHello + s.hello + Concat(ms)) == Ok(keys.clientFinished)
  {
    SessionKeysFollowTheSchedule(c.primitives, s.shared, clientHello, s.hello, Concat(ms));
    KeysFromRecords(c, clientHello, items, ms, s);
    ClientFinishedArrives(c, s.shared, clientHello, s.hello, Plaintexts(items), 0);
  }

  lemma RequestRead(suite: Suite, key: bytes, iv: bytes, request: bytes)
    requires Lawful(suite) && |key| == KEY_SIZE && |iv| == NONCE_SIZE && |request| <= MAX_PAYLOAD_LEN
    ensures var rec := Sealed(suite, key, iv, 0, APPLICATION_DATA, request);
            && rec.Ok? && rec.value.WellFramed()
            && OpenedRaw(suite, key, iv, 0, [rec.value]) == Ok([ProtectedRecord(23, request)])
  {
    SealedOpens(suite, key, iv, 0, APPLICATION_DATA, request);
    SingleRecord(suite, key, iv, 0, Sealed(suite, key, iv, 0, APPLICATION_DATA, request).value);
  }

  /** The octets of a response under the server's application keys. */
  ghost function Sealing(c: Client, keys: SessionKeys, response: seq<Item>): bytes
    requires UsableKeys(keys)
  {
    MarshalAll(Sent(c.suite, keys.serverKey, keys.serverIV, 0, response))
  }

  /** The first `k` reads deliver the flight, the others the response, and then the peer is silent. */
  ghost predicate Delivers(events: seq<ReadEvent>, k: nat, flight: bytes, data: bytes) {
    && k <= |events| && Taken(events, k) == flight && (forall j :: 0 <= j < k ==> events[j].err.None?)
    && Received(events[k..]) == data && (FinalError(events[k..]) == Eof || FinalError(events[k..]) == Timeout)
  }

  /** What a session with an honest server comes to: the server reads the client's Finished and
      request, and the client exactly the server's data. */
  ghost predicate Delivered(c: Client, clientHello: bytes, request: bytes, ms: seq<bytes>, s: Server,
                            response: seq<Item>, x: Exchange)
    requires LawfulPrimitives(c.primitives) && HandshakeSecretsFor(c.primitives, s.shared, clientHello, s.hello).Ok?
  {
    var keys := KeysOf(c, clientHello, ms, s);
    var plain := OpenedRaw(c.suite, keys.handshake.clientKey, keys.handshake.clientIV, 0, [x.finished]);
    && x.response == AppData(ApplicationContents(response), Plaintexts(response))
    && OpenedRaw(c.suite, keys.clientKey, keys.clientIV, 0, [x.request]) == Ok([ProtectedRecord(23, request)])
    && plain.Ok? && FlightIn(plain.value) == Ok(NOTHING.(finished := Some(keys.clientFinished)))
    && FinishedMac(c.primitives, keys.handshake.clientTrafficSecret, clientHello + s.hello + Concat(ms)) == Ok(keys.clientFinished)
  }

  /** After reads that end with an honest flight, and whatever the server then seals under the keys
      just derived: the session succeeds exactly when the server proves itself, and delivers. */
  lemma SessionAfterFlight(c: Client, clientHello: bytes, request: bytes,
                           items: seq<Item>, ms: seq<bytes>, s: Server, response: seq<Item>, tail: bytes,
                           events: seq<ReadEvent>, k: nat, isComplete: bytes -> bool)
    requires Honest(c, clientHello, items, ms, s) && Decides(c, clientHello, isComplete)
    requires Delivers(events, k, MarshalAll(Records(c, items, s)), Sealing(c, KeysOf(c, clientHello, ms, s), response) + tail)
    requires AllSendable(response) && Plaintexts(response) != [] && !HasRecord(tail) && |request| <= MAX_PAYLOAD_LEN
    ensures var r := SessionOf(c, clientHello, request, events, isComplete);
            && (r.Ok? <==> Proves(c, clientHello, ms, s))
            && (r.Ok? ==> Delivered(c, clientHello, request, ms, s, response, r.value))
  {
    var keys := KeysOf(c, clientHello, ms, s);
    var wire := MarshalAll(Records(c, items, s));
    HonestFlightStops(c, clientHello, items, ms, s, events, k, isComplete);
    AnswerDecides(c, clientHello, items, ms, s);
    FinishedRead(c, clientHello, items, ms, s);
    RequestRead(c.suite, keys.clientKey, keys.clientIV, request);
    ApplicationDataArrives(c.suite, keys.serverKey, keys.serverIV, response, tail, FinalError(events[k..]));
  }

  lemma HonestFlightStops(c: Client, clientHello: bytes, items: seq<Item>, ms: seq<bytes>, s: Server,
                          events: seq<ReadEvent>, k: nat, isComplete: bytes -> bool)
    requires Honest(c, clientHello, items, ms, s) && Decides(c, clientHello, isComplete)
    requires k <= |events| && Taken(events, k) == MarshalAll(Records(c, items, s))
    requires forall j :: 0 <= j < k ==> events[j].err.None?
    ensures FlightFrom(events, 0, isComplete) == Ok(MarshalAll(Records(c, items, s)))
    ensures var left := events[UsedFrom(events, 0, isComplete)..];
            Received(left) == Received(events[k..]) && FinalError(left) == FinalError(events[k..])
  {
    WireIsNotEmpty(c, items, s);
    assert EndsAt(events, k, MarshalAll(Records(c, items, s)));
    HonestFlightIsRead(c, clientHello, items, ms, s, events, isComplete);
    HonestFlightUses(c, clientHello, items, ms, s, events, k, isComplete);
    QuietReads(events, UsedFrom(events, 0, isComplete), k);
  }

  // ----- However the octets are cut -----

  /** The octets that arrive are the flight and then the response, and then the peer is silent. */
  ghost predicate Arrives(events: seq<ReadEvent>, flight: bytes, data: bytes) {
    Received(events) == flight + data && (FinalError(events) == Eof || FinalError(events) == Timeout)
  }

  lemma ReadAfterFlight(events: seq<ReadEvent>, k: nat, flight: bytes, data: bytes)
    requires Arrives(events, flight, data) && EndsAt(events, k, flight) && data != []
    ensures Delivers(events, k, flight, data)
  {
    TakenIsFront(events, k - 1);
    var future := PendingStep(events, k - 1, Taken(events, k - 1));
    assert |Received(events)| == |flight| + |data|;
    TakenIsFront(events, k);
    assert (flight + Received(events[k..]))[|flight|..] == Received(events[k..]);
    assert (flight + data)[|flight|..] == data;
  }

  /** A returned flight is the front of what arrives. */
  lemma ReturnedIsFront(events: seq<ReadEvent>, isComplete: bytes -> bool) returns (future: bytes)
    requires FlightFrom(events, 0, isComplete).Ok?
    ensures Received(events) == FlightFrom(events, 0, isComplete).value + future
  {
    var k := ReturnedFlight(events, isComplete);
    forall j | 0 <= j < k ensures events[j].err.None? {
      assert EventAt(events, j).err.None?;
    }
    TakenIsFront(events, k);
    future := PendingStep(events, k, Taken(events, k));
  }

  lemma NotDecryptedIsRefused(c: Client, clientHello: bytes, request: bytes, events: seq<ReadEvent>, isComplete: bytes -> bool)
    requires LawfulPrimitives(c.primitives)
    requires FlightFrom(events, 0, isComplete).Ok? ==> !FlightComplete(c, clientHello, FlightFrom(events, 0, isComplete).value)
    ensures SessionOf(c, clientHello, request, events, isComplete).Err?
  {
    if FlightFrom(events, 0, isComplete).Ok? {
      HandshakeExact(c, clientHello, FlightFrom(events, 0, isComplete).value);
    }
  }

  /** The first octets of a response that begins with a protected record spoil the flight. */
  lemma ResponseSpoils(c: Client, clientHello: bytes, items: seq<Item>, ms: seq<bytes>, s: Server,
                       rs: seq<TLSPlaintext>, tail: bytes, part: bytes, rest: bytes)
    requires Honest(c, clientHello, items, ms, s) && part != []
    requires Frames(part + rest) == Framed(rs, tail) && rs != [] && rs[0].typ == APPLICATION_DATA
    requires Opened(Some(c.suite(s.secrets.serverKey)), s.secrets.serverIV, Advance(0, |Plaintexts(items)|), rs[0]).Err?
    ensures !FlightComplete(c, clientHello, MarshalAll(Records(c, items, s)) + part)
  {
    FirstRecordOfPart(part, rest, rs, tail);
    PastTheFlight(c, clientHello, items, ms, s, part);
  }

  /** Whatever arrives, if the returned flight is not the honest one it does not decrypt. */
  lemma OtherFlightsFail(c: Client, clientHello: bytes, items: seq<Item>, ms: seq<bytes>, s: Server,
                         rs: seq<TLSPlaintext>, tail: bytes, buf: bytes, future: bytes)
    requires Honest(c, clientHello, items, ms, s) && rs != [] && rs[0].typ == APPLICATION_DATA && AllWellFramed(rs) && !HasRecord(tail)
    requires Opened(Some(c.suite(s.secrets.serverKey)), s.secrets.serverIV, Advance(0, |Plaintexts(items)|), rs[0]).Err?
    requires buf + future == MarshalAll(Records(c, items, s)) + (MarshalAll(rs) + tail)
    requires buf != MarshalAll(Records(c, items, s))
    ensures !FlightComplete(c, clientHello, buf)
  {
    var wire, data := MarshalAll(Records(c, items, s)), MarshalAll(rs) + tail;
    var part := PartsMeet(buf, future, wire, data);
    if |buf| < |wire| {
      PartIsIncomplete(c, clientHello, items, ms, s, buf, part);
    } else {
      FramesExact(data, rs, tail);
      ResponseSpoils(c, clientHello, items, ms, s, rs, tail, part, future);
    }
  }

  /** Two ways to cut octets in two. */
  lemma PartsMeet(a: bytes, b: bytes, x: bytes, y: bytes) returns (part: bytes)
    requires a + b == x + y && a != x
    ensures part != []
    ensures |a| < |x| ==> x == a + part
    ensures |a| >= |x| ==> a == x + part && y == part + b
  {
    var s := a + b;
    assert s[..|a|] == a && s[|a|..] == b && (x + y)[..|x|] == x && (x + y)[|x|..] == y;
    if |a| < |x| {
      part := x[|a|..];
      assert x[..|a|] == s[..|a|];
    } else {
      part := a[|x|..];
      assert a[..|x|] == s[..|x|] && s[|x|..] == part + b;
    }
  }

  /** The first protected record of the response does not open under the server's handshake key at
      the number after its flight. */
  ghost predicate KeysSeparate(c: Client, items: seq<Item>, s: Server, keys: SessionKeys, response: seq<Item>)
    requires |s.secrets.serverKey| == KEY_SIZE && |s.secrets.serverIV| == NONCE_SIZE && UsableKeys(keys)
    requires response != [] && response[0].Protected?
  {
    var first := Sealed(c.suite, keys.serverKey, keys.serverIV, 0, response[0].typ, response[0].content).value;
    Opened(Some(c.suite(s.secrets.serverKey)), s.secrets.serverIV, Advance(0, |Plaintexts(items)|), first).Err?
  }

  lemma ResponseStarts(suite: Suite, key: bytes, iv: bytes, response: seq<Item>)
    requires Lawful(suite) && |key| == KEY_SIZE && |iv| == NONCE_SIZE
    requires AllSendable(response) && response != [] && response[0].Protected?
    ensures var rs := Sent(suite, key, iv, 0, response);
            && rs != [] && AllWellFramed(rs) && rs[0].typ == APPLICATION_DATA && Plaintexts(response) != []
            && rs[0] == Sealed(suite, key, iv, 0, response[0].typ, response[0].content).value
            && MarshalAll(rs) != []
  {
    SentDecodes(suite, key, iv, 0, response);
    assert Sendable(response[0]);
    SealedOpens(suite, key, iv, 0, response[0].typ, response[0].content);
    RecordsOnlyExact(MarshalAll(Sent(suite, key, iv, 0, response)), Sent(suite, key, iv, 0, response));
  }

  lemma NoReadEndsThere(c: Client, clientHello: bytes, request: bytes, items: seq<Item>, ms: seq<bytes>, s: Server,
                        rs: seq<TLSPlaintext>, tail: bytes, events: seq<ReadEvent>, isComplete: bytes -> bool)
    requires Honest(c, clientHello, items, ms, s) && Decides(c, clientHello, isComplete)
    requires rs != [] && rs[0].typ == APPLICATION_DATA && AllWellFramed(rs) && !HasRecord(tail)
    requires Opened(Some(c.suite(s.secrets.serverKey)), s.secrets.serverIV, Advance(0, |Plaintexts(items)|), rs[0]).Err?
    requires Received(events) == MarshalAll(Records(c, items, s)) + (MarshalAll(rs) + tail)
    requires !SomeReadEndsWith(events, MarshalAll(Records(c, items, s)))
    ensures SessionOf(c, clientHello, request, events, isComplete).Err?
  {
    HonestFlightIsRead(c, clientHello, items, ms, s, events, isComplete);
    if FlightFrom(events, 0, isComplete).Ok? {
      var future := ReturnedIsFront(events, isComplete);
      OtherFlightsFail(c, clientHello, items, ms, s, rs, tail, FlightFrom(events, 0, isComplete).value, future);
    }
    NotDecryptedIsRefused(c, clientHello, request, events, isComplete);
  }

  /** However an honest flight and the response after it are cut into reads: the session succeeds
      exactly when the server proves itself and some read ends with the flight, and then both sides
      have read exactly what the other sealed. */
  lemma SessionWithHonestServer(c: Client, clientHello: bytes, request: bytes,
                                items: seq<Item>, ms: seq<bytes>, s: Server, response: seq<Item>, tail: bytes,
                                events: seq<ReadEvent>, isComplete: bytes -> bool)
    requires Honest(c, clientHello, items, ms, s) && Decides(c, clientHello, isComplete)
    requires Arrives(events, MarshalAll(Records(c, items, s)), Sealing(c, KeysOf(c, clientHello, ms, s), response) + tail)
    requires AllSendable(response) && !HasRecord(tail) && |request| <= MAX_PAYLOAD_LEN
    requires response != [] && response[0].Protected? && KeysSeparate(c, items, s, KeysOf(c, clientHello, ms, s), response)
    ensures var r := SessionOf(c, clientHello, request, events, isComplete);
            && (r.Ok? <==> Proves(c, clientHello, ms, s) && SomeReadEndsWith(events, MarshalAll(Records(c, items, s))))
            && (r.Ok? ==> Delivered(c, clientHello, request, ms, s, response, r.value))
  {
    var keys := KeysOf(c, clientHello, ms, s);
    var wire, rs := MarshalAll(Records(c, items, s)), Sent(c.suite, keys.serverKey, keys.serverIV, 0, response);
    ResponseStarts(c.suite, keys.serverKey, keys.serverIV, response);
    if SomeReadEndsWith(events, wire) {
      var k: nat :| EndsAt(events, k, wire);
      ReadAfterFlight(events, k, wire, Sealing(c, keys, response) + tail);
      SessionAfterFlight(c, clientHello, request, items, ms, s, response, tail, events, k, isComplete);
    } else {
      NoReadEndsThere(c, clientHello, request, items, ms, s, rs, tail, events, isComplete);
    }
  }

  /** Whatever the cipher, and although the server proves itself: a flight read together with octets
      that end inside a record is lost. */
  lemma TogetherWithMore(c: Client, clientHello: bytes, request: bytes, items: seq<Item>, ms: seq<bytes>, s: Server,
                         more: bytes, isComplete: bytes -> bool)
    requires Answers(c, clientHello, items, ms, s) && Decides(c, clientHello, isComplete) && Frames(more).rest != []
    ensures var events := [ReadEvent(MarshalAll(Records(c, items, s)) + more, Some(Eof))];
            SessionOf(c, clientHello, request, events, isComplete).Err?
  {
    var buf := MarshalAll(Records(c, items, s)) + more;
    var events := [ReadEvent(buf, Some(Eof))];
    FramesOfWire(c, items, s, more);
    TailFails(c, clientHello, buf);
    if FlightFrom(events, 0, isComplete).Ok? {
      OneReadTaken(buf, events, isComplete);
    }
    NotDecryptedIsRefused(c, clientHello, request, events, isComplete);
  }

  lemma OneReadTaken(buf: bytes, events: seq<ReadEvent>, isComplete: bytes -> bool)
    requires events == [ReadEvent(buf, Some(Eof))] && FlightFrom(events, 0, isComplete).Ok?
    ensures FlightFrom(events, 0, isComplete).value == buf
  {
    var k := ReturnedFlight(events, isComplete);
    assert Taken(events, 0) == [] && Taken(events, 1) == [] + buf && [] + buf == buf;
  }

  /** One octet is enough. */
  lemma OneOctetMore()
    ensures Frames([APPLICATION_DATA]).rest == [APPLICATION_DATA]
  {
    FramesExact([APPLICATION_DATA], [], [APPLICATION_DATA]);
    assert MarshalAll([]) + [APPLICATION_DATA] == [APPLICATION_DATA];
  }

  lemma TwoReads(wire: bytes, data: bytes) returns (events: seq<ReadEvent>)
    ensures Delivers(events, 1, wire, data) && Received(events) == wire + data && FinalError(events) == Eof
  {
    events := [ReadEvent(wire, None), ReadEvent(data, Some(Eof))];
    assert events[1..] == [ReadEvent(data, Some(Eof))];
    assert Taken(events, 0) == [] && Taken(events, 1) == [] + wire && [] + wire == wire;
  }

  /** The same octets and the same end: cut after the flight the session succeeds, read at once it
      fails. */
  lemma CuttingMatters(c: Client, clientHello: bytes, request: bytes, items: seq<Item>, ms: seq<bytes>, s: Server,
                       response: seq<Item>, tail: bytes, isComplete: bytes -> bool)
    returns (apart: seq<ReadEvent>, together: seq<ReadEvent>)
    requires Honest(c, clientHello, items, ms, s) && Decides(c, clientHello, isComplete)
    requires Proves(c, clientHello, ms, s)
    requires AllSendable(response) && Plaintexts(response) != [] && |request| <= MAX_PAYLOAD_LEN
    requires !HasRecord(tail) && tail != []
    ensures Received(apart) == Received(together) && FinalError(apart) == FinalError(together)
    ensures var r := SessionOf(c, clientHello, request, apart, isComplete);
            r.Ok? && Delivered(c, clientHello, request, ms, s, response, r.value)
    ensures SessionOf(c, clientHello, request, together, isComplete).Err?
  {
    var keys := KeysOf(c, clientHello, ms, s);
    var wire, data := MarshalAll(Records(c, items, s)), Sealing(c, keys, response) + tail;
    apart := TwoReads(wire, data);
    together := [ReadEvent(wire + data, Some(Eof))];
    SessionAfterFlight(c, clientHello, request, items, ms, s, response, tail, apart, 1, isComplete);
    ResponseEndsInside(c.suite, keys.serverKey, keys.serverIV, response, tail);
    TogetherWithMore(c, clientHello, request, items, ms, s, data, isComplete);
  }

  lemma ResponseEndsInside(suite: Suite, key: bytes, iv: bytes, response: seq<Item>, tail: bytes)
    requires Lawful(suite) && |key| == KEY_SIZE && |iv| == NONCE_SIZE && AllSendable(response) && !HasRecord(tail)
    ensures Frames(MarshalAll(Sent(suite, key, iv, 0, response)) + tail).rest == tail
  {
    var rs := Sent(suite, key, iv, 0, response);
    SentDecodes(suite, key, iv, 0, response);
    FramesExact(MarshalAll(rs) + tail, rs, tail);
  }

  lemma SessionInTwoReads(c: Client, clientHello: bytes, request: bytes, items: seq<Item>, ms: seq<bytes>, s: Server,
                          response: seq<Item>, isComplete: bytes -> bool) returns (events: seq<ReadEvent>)
    requires Honest(c, clientHello, items, ms, s) && Decides(c, clientHello, isComplete)
    requires Proves(c, clientHello, ms, s)
    requires AllSendable(response) && Plaintexts(response) != [] && |request| <= MAX_PAYLOAD_LEN
    ensures var r := SessionOf(c, clientHello, request, events, isComplete);
            r.Ok? && r.value.response == AppData(ApplicationContents(response), Plaintexts(response))
  {
    var keys := KeysOf(c, clientHello, ms, s);
    events := TwoReads(MarshalAll(Records(c, items, s)), Sealing(c, keys, response) + []);
    SessionAfterFlight(c, clientHello, request, items, ms, s, response, [], events, 1, isComplete);
  }

  /** Such sessions exist: for every request and every response that can be sealed there is one
      that succeeds. */
  lemma SomeSessionSucceeds(clientHello: bytes, request: bytes, h: Hello, front: seq<bytes>, der: bytes, response: seq<Item>)
    returns (events: seq<ReadEvent>, isComplete: bytes -> bool)
    requires clientHello != [] && Offers(h) && Leads(front) && |der| <= MAX_CERTIFICATE && |request| <= MAX_PAYLOAD_LEN
    requires AllSendable(response) && Plaintexts(response) != []
    ensures LawfulClient(PLAIN_CLIENT) && Decides(PLAIN_CLIENT, clientHello, isComplete)
    ensures var r := SessionOf(PLAIN_CLIENT, clientHello, request, events, isComplete);
            r.Ok? && r.value.response == AppData(ApplicationContents(response), Plaintexts(response))
  {
    var items, ms := PlainClientAccepts(clientHello, h, front, der);
    var s := ServerOf(PLAIN_CLIENT, clientHello, h);
    isComplete := buf => FlightComplete(PLAIN_CLIENT, clientHello, buf);
    AnswerDecides(PLAIN_CLIENT, clientHello, items, ms, s);
    events := SessionInTwoReads(PLAIN_CLIENT, clientHello, request, items, ms, s, response, isComplete);
  }

  // ----- For one client, without assuming that keys are separate -----

  lemma PlainHandshakeIV(s: Server, clientHello: bytes)
    requires s.shared != [] && clientHello != [] && s.hello != []
    requires HandshakeSecretsFor(PLAIN_PRIMITIVES, s.shared, clientHello, s.hello) == Ok(s.secrets)
    ensures |s.secrets.serverIV| == NONCE_SIZE
    ensures s.secrets.serverIV[0] == (s.shared[0] as int + |clientHello + s.hello| % 256) % 256
  {
    PlainClientIsLawful();
    HandshakeSecretsFollowTheSchedule(PLAIN_PRIMITIVES, s.shared, clientHello, s.hello);
    var hs := HandshakeSecret(PLAIN_PRIMITIVES, s.shared);
    PlainSecret(hs, SERVER_HANDSHAKE, clientHello + s.hello);
    PlainValue(DeriveSecret(PLAIN_PRIMITIVES, hs, SERVER_HANDSHAKE, clientHello + s.hello), IV, NONCE_SIZE);
  }

  lemma PlainMaster(sharedSecret: bytes)
    ensures MasterSecret(PLAIN_PRIMITIVES, sharedSecret) == Zeros(HASH_LEN)
  {
    assert [0] + Zeros(HASH_LEN - 1) == Zeros(HASH_LEN);
  }

  lemma ServerIVFollows(p: Primitives, sharedSecret: bytes, clientHello: bytes, serverHello: bytes, messages: bytes)
    requires LawfulPrimitives(p) && sharedSecret != [] && clientHello != [] && serverHello != []
    ensures var k := SessionKeysOver(p, sharedSecret, clientHello, serverHello, messages);
            var secret := DeriveSecret(p, MasterSecret(p, sharedSecret), SERVER_APPLICATION, clientHello + serverHello + messages);
            k.Ok? && k.value.serverIV == TrafficValue(p, secret, IV, NONCE_SIZE)
  {
    SessionKeysFollowTheSchedule(p, sharedSecret, clientHello, serverHello, messages);
  }

  lemma PlainApplicationIV(sharedSecret: bytes, clientHello: bytes, serverHello: bytes, messages: bytes)
    requires sharedSecret != [] && clientHello != [] && serverHello != []
    ensures var k := SessionKeysOver(PLAIN_PRIMITIVES, sharedSecret, clientHello, serverHello, messages);
            k.Ok? && |k.value.serverIV| == NONCE_SIZE && k.value.serverIV[0] == |clientHello + serverHello + messages| % 256
  {
    PlainClientIsLawful();
    var whole, master := clientHello + serverHello + messages, MasterSecret(PLAIN_PRIMITIVES, sharedSecret);
    ServerIVFollows(PLAIN_PRIMITIVES, sharedSecret, clientHello, serverHello, messages);
    PlainMaster(sharedSecret);
    PlainSecret(master, SERVER_APPLICATION, whole);
    PlainValue(DeriveSecret(PLAIN_PRIMITIVES, master, SERVER_APPLICATION, whole), IV, NONCE_SIZE);
  }

  lemma PlainShared(clientHello: bytes, items: seq<Item>, s: Server)
    requires Greets(PLAIN_CLIENT, clientHello, items, s)
    ensures s.shared == Zeros(32) && clientHello != [] && s.hello != []
    ensures HandshakeSecretsFor(PLAIN_PRIMITIVES, s.shared, clientHello, s.hello) == Ok(s.secrets)
  {
    PlainClientIsLawful();
    HandshakeSecretsExact(PLAIN_PRIMITIVES, s.shared, clientHello, s.hello);
  }

  lemma PlainIVsDiffer(s: Server, clientHello: bytes, messages: bytes)
    requires s.shared == Zeros(32) && clientHello != [] && s.hello != [] && |messages| % 256 != 0
    requires HandshakeSecretsFor(PLAIN_PRIMITIVES, s.shared, clientHello, s.hello) == Ok(s.secrets)
    ensures var k := SessionKeysOver(PLAIN_PRIMITIVES, s.shared, clientHello, s.hello, messages);
            k.Ok? && |k.value.serverIV| == |s.secrets.serverIV| == NONCE_SIZE && k.value.serverIV[0] != s.secrets.serverIV[0]
  {
    PlainHandshakeIV(s, clientHello);
    PlainApplicationIV(s.shared, clientHello, s.hello, messages);
    SumsDiffer(|clientHello + s.hello|, |messages|);
    assert |clientHello + s.hello + messages| == |clientHello + s.hello| + |messages|;
  }

  lemma SumsDiffer(n: nat, m: nat)
    requires m % 256 != 0
    ensures (n + m) % 256 != (0 + n % 256) % 256
  {
  }

  /** Ivs that differ in their first octet never share a nonce. */
  lemma NoncesDiffer(iv: bytes, iv': bytes, m: uint64, n: uint64)
    requires |iv| == |iv'| == NONCE_SIZE && iv[0] != iv'[0]
    ensures RecordNonce(iv, m) != RecordNonce(iv', n)
  {
    XorZero(iv[0]);
    XorZero(iv'[0]);
    assert RecordNonce(iv, m)[0] == iv[0] && RecordNonce(iv', n)[0] == iv'[0];
  }

  /** This cipher refuses what was sealed under another nonce, whatever the keys. */
  lemma PlainRefuses(key: bytes, key': bytes, iv: bytes, iv': bytes, m: uint64, n: uint64, typ: byte, content: bytes)
    requires |key| == |key'| == KEY_SIZE && |iv| == |iv'| == NONCE_SIZE && iv[0] != iv'[0]
    ensures Opened(Some(PLAIN_SUITE(key')), iv', n, Sealed(PLAIN_SUITE, key, iv, m, typ, content).value) == Err(BadRecordMac)
  {
    var text := BuildTLSInnerPlaintext(typ, content);
    var a, b := RecordNonce(iv, m), RecordNonce(iv', n);
    NoncesDiffer(iv, iv', m, n);
    assert PlainTag(a)[..NONCE_SIZE] == a && PlainTag(b)[..NONCE_SIZE] == b;
    var rec := Sealed(PLAIN_SUITE, key, iv, m, typ, content).value;
    assert rec.payload == text + PlainTag(a);
    assert rec.payload[|rec.payload| - TAG_SIZE..] == PlainTag(a);
  }

  /** What the exact result asks for can be met: for this client it holds of every honest flight whose
      messages have a length that 256 does not divide. */
  lemma PlainKeysSeparate(clientHello: bytes, items: seq<Item>, ms: seq<bytes>, s: Server, response: seq<Item>)
    requires Honest(PLAIN_CLIENT, clientHello, items, ms, s) && |Concat(ms)| % 256 != 0
    requires response != [] && response[0].Protected?
    ensures KeysSeparate(PLAIN_CLIENT, items, s, KeysOf(PLAIN_CLIENT, clientHello, ms, s), response)
  {
    var keys := KeysOf(PLAIN_CLIENT, clientHello, ms, s);
    PlainShared(clientHello, items, s);
    PlainIVsDiffer(s, clientHello, Concat(ms));
    PlainRefuses(keys.serverKey, s.secrets.serverKey, keys.serverIV, s.secrets.serverIV, 0,
                 Advance(0, |Plaintexts(items)|), response[0].typ, response[0].content);
  }
}
