/** What octets have to say for the client to decrypt them and for the handshake to succeed, in
    terms of records, messages and their contents alone. */
module Meaning {
  import opened Bytes
  import opened Protocol
  import opened Record
  import opened Protection
  import opened Wire
  import opened Reassembly
  import opened Messages
  import opened ServerHellos
  import opened Dispatch
  import opened KeySchedule
  import opened Flow
  import opened HonestFlight
  import opened Ordering

  /** One way to read a flight: its records, the messages in the clear and the hello among them,
      what the server says by it, the plaintexts, and the encrypted messages. */
  datatype Reading = Reading(
    records: seq<TLSPlaintext>,
    clear: seq<bytes>,
    hello: Hello,
    server: Server,
    plain: seq<TLSPlaintext>,
    messages: seq<bytes>)

  /** The octets are whole records. */
  ghost predicate ReadsRecords(buf: bytes, r: Reading) {
    buf == MarshalAll(r.records) && r.records != [] && AllWellFramed(r.records)
  }

  /** The clear records carry whole messages; the first ServerHello is a hello written out, with a
      share that the client can agree on, and the secrets follow. */
  ghost predicate ReadsHello(c: Client, clientHello: bytes, r: Reading) {
    && HandshakeStream(OtherRecords(r.records)) == Concat(r.clear) && AllMessages(r.clear)
    && FirstOf(r.clear, SERVER_HELLO) == Some(r.server.hello)
    && r.hello.original == r.server.hello && EncodesHello(StripHeader(r.server.hello, SERVER_HELLO), r.hello, [])
    && ShareIn(r.hello.extensions).Ok? && c.agree(ShareIn(r.hello.extensions).value.body) == Some(r.server.shared)
    && HandshakeSecretsFor(c.primitives, r.server.shared, clientHello, r.server.hello) == Ok(r.server.secrets)
  }

  /** Every protected record opens at its number, and together they carry whole messages, of which
      none of the four types repeats or fails to parse. */
  ghost predicate ReadsMessages(c: Client, r: Reading) {
    && |r.server.secrets.serverKey| == KEY_SIZE
    && AllOpenTo(Some(c.suite(r.server.secrets.serverKey)), r.server.secrets.serverIV, 0, AppRecords(r.records), r.plain)
    && HandshakeStream(r.plain) == Concat(r.messages) && AllMessages(r.messages) && Acceptable(r.messages)
  }

  ghost predicate Reads(c: Client, clientHello: bytes, buf: bytes, r: Reading) {
    ReadsRecords(buf, r) && ReadsHello(c, clientHello, r) && ReadsMessages(c, r)
  }

  ghost function DecryptedBy(r: Reading): Decrypted
    requires AllMessages(r.messages)
  {
    Decrypted(r.server.shared, r.server.hello, r.server.secrets, r.plain, FlightOf(r.messages))
  }

  lemma RecordsRead(buf: bytes, r: Reading)
    ensures ReadsRecords(buf, r) <==> RecordsOnly(buf) == Ok(r.records)
  {
    RecordsOnlyExact(buf, r.records);
  }

  lemma HelloRead(clear: seq<TLSPlaintext>, ms: seq<bytes>, m: bytes, h: Hello)
    requires HandshakeStream(clear) == Concat(ms) && AllMessages(ms)
    ensures ServerHelloIn(clear) == Ok(HelloAndMessage(h, m))
       <==> FirstOf(ms, SERVER_HELLO) == Some(m) && h.original == m && EncodesHello(StripHeader(m, SERVER_HELLO), h, [])
  {
    CollectedExact(Concat(ms), ms, []);
    HelloExact(FreshHello(), m, h);
  }

  lemma MessagesRead(c: Client, s: Server, app: seq<TLSPlaintext>, plain: seq<TLSPlaintext>)
    ensures OpenedRaw(c.suite, s.secrets.serverKey, s.secrets.serverIV, 0, app) == Ok(plain)
       <==> && |s.secrets.serverKey| == KEY_SIZE
            && AllOpenTo(Some(c.suite(s.secrets.serverKey)), s.secrets.serverIV, 0, app, plain)
  {
    if |s.secrets.serverKey| == KEY_SIZE {
      OpenedAllExact(Some(c.suite(s.secrets.serverKey)), s.secrets.serverIV, 0, app, plain);
    }
  }

  lemma FlightRead(plain: seq<TLSPlaintext>, ms: seq<bytes>)
    requires HandshakeStream(plain) == Concat(ms) && AllMessages(ms)
    ensures FlightIn(plain).Ok? <==> Acceptable(ms)
    ensures FlightIn(plain).Ok? ==> FlightIn(plain) == Ok(FlightOf(ms))
  {
    CollectedExact(Concat(ms), ms, []);
    DispatchExact(ms);
  }

  /** A reading decrypts. */
  lemma ReadingDecrypts(c: Client, clientHello: bytes, buf: bytes, r: Reading)
    requires Reads(c, clientHello, buf, r)
    ensures Decrypt(c, clientHello, buf) == Ok(DecryptedBy(r))
  {
    RecordsRead(buf, r);
    HelloRead(OtherRecords(r.records), r.clear, r.server.hello, r.hello);
    MessagesRead(c, r.server, AppRecords(r.records), r.plain);
    FlightRead(r.plain, r.messages);
    DecryptGoesOn(c, clientHello, buf, Sorted(OtherRecords(r.records), AppRecords(r.records)),
                  HelloAndMessage(r.hello, r.server.hello), r.server.shared, r.server.secrets, r.plain);
  }

  /** What the steps up to decryption have found. */
  lemma ParsedBefore(c: Client, clientHello: bytes, buf: bytes) returns (sorted: Sorted, h: HelloAndMessage)
    requires Decrypt(c, clientHello, buf).Ok?
    ensures SortedRecords(buf) == Ok(sorted) && ServerHelloIn(sorted.plaintext) == Ok(h)
    ensures var d := Decrypt(c, clientHello, buf).value;
            && d.serverHello == h.message && SharedSecretOf(c, h.hello.extensions) == Ok(d.sharedSecret)
  {
    sorted := SortedRecords(buf).value;
    h := ServerHelloIn(sorted.plaintext).value;
  }

  lemma OpenedBefore(c: Client, clientHello: bytes, buf: bytes, sorted: Sorted, h: HelloAndMessage, d: Decrypted)
    requires Decrypt(c, clientHello, buf) == Ok(d)
    requires SortedRecords(buf) == Ok(sorted) && ServerHelloIn(sorted.plaintext) == Ok(h)
    requires d.serverHello == h.message && SharedSecretOf(c, h.hello.extensions) == Ok(d.sharedSecret)
    ensures OpenedRaw(c.suite, d.secrets.serverKey, d.secrets.serverIV, 0, sorted.ciphertext) == Ok(d.records)
  {
    var plain := OpenedRaw(c.suite, d.secrets.serverKey, d.secrets.serverIV, 0, sorted.ciphertext);
    if plain.Err? {
      DecryptStops(c, clientHello, buf, sorted, h, d.sharedSecret, d.secrets);
    } else {
      DecryptGoesOn(c, clientHello, buf, sorted, h, d.sharedSecret, d.secrets, plain.value);
    }
  }

  lemma DecryptSteps(c: Client, clientHello: bytes, buf: bytes) returns (rs: seq<TLSPlaintext>, h: HelloAndMessage)
    requires Decrypt(c, clientHello, buf).Ok?
    ensures var d := Decrypt(c, clientHello, buf).value;
            && RecordsOnly(buf) == Ok(rs) && ServerHelloIn(OtherRecords(rs)) == Ok(h) && d.serverHello == h.message
            && SharedSecretOf(c, h.hello.extensions) == Ok(d.sharedSecret)
            && OpenedRaw(c.suite, d.secrets.serverKey, d.secrets.serverIV, 0, AppRecords(rs)) == Ok(d.records)
  {
    rs := RecordsOnly(buf).value;
    var sorted;
    sorted, h := ParsedBefore(c, clientHello, buf);
    OpenedBefore(c, clientHello, buf, sorted, h, Decrypt(c, clientHello, buf).value);
  }

  /** What decrypts has a reading. */
  lemma ReadingOf(c: Client, clientHello: bytes, buf: bytes) returns (r: Reading)
    requires Decrypt(c, clientHello, buf).Ok?
    ensures Reads(c, clientHello, buf, r) && Decrypt(c, clientHello, buf) == Ok(DecryptedBy(r))
  {
    var d := Decrypt(c, clientHello, buf).value;
    var rs, h := DecryptSteps(c, clientHello, buf);
    var clear, ms := Collected(HandshakeStream(OtherRecords(rs))).value, Collected(HandshakeStream(d.records)).value;
    r := Reading(rs, clear, h.hello, Server(d.sharedSecret, d.serverHello, d.secrets), d.records, ms);
    CollectedExact(HandshakeStream(OtherRecords(rs)), clear, []);
    CollectedExact(HandshakeStream(d.records), ms, []);
    RecordsRead(buf, r);
    HelloRead(OtherRecords(rs), clear, h.message, h.hello);
    MessagesRead(c, r.server, AppRecords(rs), d.records);
    FlightRead(d.records, ms);
  }

  /** Octets decrypt exactly when they have a reading, and then to what it says. */
  lemma DecryptExact(c: Client, clientHello: bytes, buf: bytes, d: Decrypted)
    ensures Decrypt(c, clientHello, buf) == Ok(d)
       <==> exists r :: Reads(c, clientHello, buf, r) && d == DecryptedBy(r)
  {
    if Decrypt(c, clientHello, buf) == Ok(d) {
      var r := ReadingOf(c, clientHello, buf);
    }
    forall r | Reads(c, clientHello, buf, r) && d == DecryptedBy(r) ensures Decrypt(c, clientHello, buf) == Ok(d) {
      ReadingDecrypts(c, clientHello, buf, r);
    }
  }

  /** No octets have two readings. */
  lemma ReadingIsUnique(c: Client, clientHello: bytes, buf: bytes, r: Reading, r': Reading)
    requires Reads(c, clientHello, buf, r) && Reads(c, clientHello, buf, r')
    ensures r == r'
  {
    RecordsRead(buf, r);
    RecordsRead(buf, r');
    ReadingDecrypts(c, clientHello, buf, r);
    ReadingDecrypts(c, clientHello, buf, r');
    CollectedExact(HandshakeStream(OtherRecords(r.records)), r.clear, []);
    CollectedExact(HandshakeStream(OtherRecords(r.records)), r'.clear, []);
    CollectedExact(HandshakeStream(r.plain), r.messages, []);
    CollectedExact(HandshakeStream(r.plain), r'.messages, []);
    HelloRead(OtherRecords(r.records), r.clear, r.server.hello, r.hello);
    HelloRead(OtherRecords(r.records), r.clear, r.server.hello, r'.hello);
  }

  /** A reading leads to keys over all its messages exactly when its server proves itself. */
  lemma ReadingDecides(c: Client, clientHello: bytes, buf: bytes, r: Reading)
    requires LawfulPrimitives(c.primitives) && Reads(c, clientHello, buf, r)
    ensures var k := Handshake4To12(c, clientHello, buf);
            && (k.Ok? <==> Proves(c, clientHello, r.messages, r.server))
            && (k.Ok? ==> k == SessionKeysOver(c.primitives, r.server.shared, clientHello, r.server.hello, Concat(r.messages)))
  {
    ReadingDecrypts(c, clientHello, buf, r);
    HandshakeFrom(c, clientHello, buf, DecryptedBy(r));
    CollectedExact(Concat(r.messages), r.messages, []);
  }

  /** On any octets at all: the handshake succeeds exactly when they have a reading whose server
      proves itself. */
  lemma AcceptedExactly(c: Client, clientHello: bytes, buf: bytes)
    requires LawfulPrimitives(c.primitives)
    ensures Handshake4To12(c, clientHello, buf).Ok?
       <==> exists r :: Reads(c, clientHello, buf, r) && Proves(c, clientHello, r.messages, r.server)
  {
    if Handshake4To12(c, clientHello, buf).Ok? {
      var r := ReadingOf(c, clientHello, buf);
      ReadingDecides(c, clientHello, buf, r);
    }
    forall r | Reads(c, clientHello, buf, r) && Proves(c, clientHello, r.messages, r.server)
      ensures Handshake4To12(c, clientHello, buf).Ok?
    {
      ReadingDecides(c, clientHello, buf, r);
    }
  }

  // ----- The server's messages, and no others -----

  lemma WholeOrShort(ms: seq<bytes>, part: seq<bytes>, rest: bytes, typ: byte)
    requires AllMessages(ms) && AllMessages(part) && Concat(ms) == Concat(part) + rest
    requires IndexOf(ms, typ) == |ms| - 1 && Occurs(part, typ)
    ensures part == ms
  {
    CollectedExact(Concat(part), part, []);
    CollectedExact(Concat(ms), ms, []);
    var more := CollectedGrows(Concat(part), rest);
    if more != [] {
      LastIsNotEarlier(part, more, typ);
    } else {
      assert part + [] == part;
    }
  }

  /** The handshake flight on any octets whatever, with records dropped, repeated, moved, altered or
      added: if the secrets are those of an honest server and no record under them is forged, then
      what counts as complete carries exactly that server's messages. */
  lemma OnlyTheServersMessages(c: Client, clientHello: bytes, items: seq<Item>, ms: seq<bytes>, s: Server,
                               buf: bytes, r: Reading)
    requires Honest(c, clientHello, items, ms, s) && |Plaintexts(items)| < WRAP
    requires Reads(c, clientHello, buf, r) && r.server.secrets == s.secrets && Occurs(r.messages, FINISHED)
    requires NoForgery(c.suite, s.secrets.serverKey, s.secrets.serverIV, items, buf)
    ensures r.messages == ms && r.plain <= Plaintexts(items)
  {
    PlainOfReading(c, items, s, buf, r);
    MessagesOfPart(Plaintexts(items), r.plain, ms, r.messages);
  }

  lemma PlainOfReading(c: Client, items: seq<Item>, s: Server, buf: bytes, r: Reading)
    requires Lawful(c.suite) && AllSendable(items) && |Plaintexts(items)| < WRAP
    requires |s.secrets.serverKey| == KEY_SIZE && |s.secrets.serverIV| == NONCE_SIZE
    requires ReadsRecords(buf, r) && ReadsMessages(c, r) && r.server.secrets == s.secrets
    requires NoForgery(c.suite, s.secrets.serverKey, s.secrets.serverIV, items, buf)
    ensures r.plain <= Plaintexts(items)
  {
    RecordsRead(buf, r);
    MessagesRead(c, r.server, AppRecords(r.records), r.plain);
    PlainIsPart(c.suite, s.secrets.serverKey, s.secrets.serverIV, items, buf, r.plain);
  }

  lemma MessagesOfPart(all: seq<TLSPlaintext>, plain: seq<TLSPlaintext>, ms: seq<bytes>, part: seq<bytes>)
    requires plain <= all && AllMessages(ms) && AllMessages(part)
    requires HandshakeStream(all) == Concat(ms) && HandshakeStream(plain) == Concat(part)
    requires IndexOf(ms, FINISHED) == |ms| - 1 && Occurs(part, FINISHED)
    ensures part == ms
  {
    StreamOfPart(all, |plain|);
    assert all[..|plain|] == plain;
    WholeOrShort(ms, part, HandshakeStream(all[|plain|..]), FINISHED);
  }

  lemma StreamOfPart(rs: seq<TLSPlaintext>, n: nat)
    requires n <= |rs|
    ensures HandshakeStream(rs) == HandshakeStream(rs[..n]) + HandshakeStream(rs[n..])
  {
    assert rs == rs[..n] + rs[n..];
    HandshakeStreamAppend(rs[..n], rs[n..]);
  }
}
