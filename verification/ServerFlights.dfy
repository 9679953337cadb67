/** A server's first flight, written out: messages with given contents, in records. */
module ServerFlights {
  import opened Bytes
  import opened Protocol
  import opened Record
  import opened Wire
  import opened Reassembly
  import opened Extensions
  import opened Messages
  import opened ServerHellos
  import opened ServerMessages
  import opened Dispatch
  import opened KeySchedule
  import opened Flow
  import opened HonestFlight

  // ----- The server's messages -----

  function Message(typ: byte, body: bytes): (m: bytes)
    requires 0 < |body| <= 0xff_ffff
    ensures IsMessage(m) && m[0] == typ && m[HANDSHAKE_HEADER_LEN..] == body && |m| == HANDSHAKE_HEADER_LEN + |body|
  {
    NewHandshakeCollects(typ, body);
    NewHandshake(typ, body).value.Marshal()
  }

  function ExtensionsMessage(es: seq<Extension>): bytes
    requires AllFit(es) && |MarshalEntries(es)| <= 0xffff
  {
    Message(ENCRYPTED_EXTENSIONS, Be16(|MarshalEntries(es)|) + MarshalEntries(es))
  }

  const MAX_CERTIFICATE := 0xff_ffff - 9

  function CertificateMessage(der: bytes): bytes
    requires |der| <= MAX_CERTIFICATE
  {
    var list := CertificateEntry(der, []).Encode();
    Message(CERTIFICATE, [0] + (Be24(|list|) + list))
  }

  function VerifyMessage(s: Signature): bytes
    requires |s.signature| <= 0xffff
  {
    Message(CERTIFICATE_VERIFY, Be16(s.algorithm) + (Be16(|s.signature|) + s.signature))
  }

  function FinishedMessage(mac: bytes): bytes
    requires |mac| == HASH_LEN
  {
    Message(FINISHED, mac)
  }

  lemma ExtensionsTaken(es: seq<Extension>, f: Flight)
    requires AllFit(es) && |MarshalEntries(es)| <= 0xffff && Distinct(es) && EmptyNamesFrom(es, 0)
    requires f.encryptedExtensions.None?
    ensures Took(ExtensionsMessage(es), f)
         == Ok(f.(encryptedExtensions := Some(EncryptedExtensionList(Kept(es), Acknowledges(es)))))
  {
    var m := ExtensionsMessage(es);
    SliceOfMessage(m);
    assert MarshalEntries(es) + [] == MarshalEntries(es);
    assert EncodesExtensions(EncryptedExtensionsBody(m), es, []);
    EncryptedExtensionsExact(m, EncryptedExtensionList(Kept(es), Acknowledges(es)));
  }

  lemma CertificateTaken(der: bytes, f: Flight)
    requires |der| <= MAX_CERTIFICATE && f.certificate.None?
    ensures Took(CertificateMessage(der), f) == Ok(f.(certificate := Some([der])))
  {
    var m, e := CertificateMessage(der), CertificateEntry(der, []);
    assert EncodeEach([e]) == [] + [e.Encode()] && CertsIn([e]) == [der];
    ConcatLast([], e.Encode());
    assert Concat([]) + e.Encode() == e.Encode();
    CertificateListWritten(e.Encode(), [e]);
    CertificateBodyWritten(m, e.Encode());
  }

  lemma VerifyTaken(s: Signature, f: Flight)
    requires |s.signature| <= 0xffff && f.certificateVerify.None?
    ensures Took(VerifyMessage(s), f) == Ok(f.(certificateVerify := Some(s)))
  {
    CertificateVerifyExact(Signature(0, []), VerifyMessage(s), s);
  }

  lemma FinishedTaken(mac: bytes, f: Flight)
    requires |mac| == HASH_LEN && f.finished.None?
    ensures Took(FinishedMessage(mac), f) == Ok(f.(finished := Some(mac)))
  {
    FinishedOfMessage([], FinishedMessage(mac));
  }

  /** The messages say `f` and nothing else. */
  ghost predicate Says(ms: seq<bytes>, f: Flight) {
    AllMessages(ms) && Acceptable(ms) && FlightOf(ms) == f
  }

  lemma SaysNext(ms: seq<bytes>, f: Flight, m: bytes, f': Flight)
    requires Says(ms, f) && IsMessage(m) && Took(m, f) == Ok(f')
    ensures Says(ms + [m], f')
  {
    AcceptableLast(ms, m);
  }

  lemma SaysThree(ms: seq<bytes>, f: Flight, a: bytes, b: bytes, c: bytes, f1: Flight, f2: Flight, f3: Flight)
    requires Says(ms, f) && IsMessage(a) && IsMessage(b) && IsMessage(c)
    requires Took(a, f) == Ok(f1) && Took(b, f1) == Ok(f2) && Took(c, f2) == Ok(f3)
    ensures Says(ms + [a, b, c], f3)
  {
    SaysNext(ms, f, a, f1);
    SaysNext(ms + [a], f1, b, f2);
    assert (ms + [a]) + [b] == ms + [a, b] && (ms + [a, b]) + [c] == ms + [a, b, c];
    SaysNext(ms + [a, b], f2, c, f3);
  }

  /** What may come first: nothing that repeats or does not parse, and none of the three messages by
      which the server proves itself. EncryptedExtensions may be there or not. */
  ghost predicate Leads(front: seq<bytes>) {
    && AllMessages(front) && Acceptable(front)
    && !Occurs(front, CERTIFICATE) && !Occurs(front, CERTIFICATE_VERIFY) && !Occurs(front, FINISHED)
  }

  lemma NothingLeads()
    ensures Leads([])
  {
  }

  lemma ExtensionsLead(es: seq<Extension>)
    requires AllFit(es) && |MarshalEntries(es)| <= 0xffff && Distinct(es) && EmptyNamesFrom(es, 0)
    ensures Leads([ExtensionsMessage(es)]) && Occurs([ExtensionsMessage(es)], ENCRYPTED_EXTENSIONS)
  {
    var m := ExtensionsMessage(es);
    assert FlightOf([]) == NOTHING && [] + [m] == [m];
    ExtensionsTaken(es, NOTHING);
    AcceptableLast([], m);
  }

  lemma IndexAfter(front: seq<bytes>, rest: seq<bytes>, typ: byte)
    requires !Occurs(front, typ)
    ensures IndexOf(front + rest, typ) == |front| + IndexOf(rest, typ)
  {
    IndexUnique(front + rest, typ, |front| + IndexOf(rest, typ));
  }

  function Proven(f: Flight, der: bytes, s: Signature, mac: bytes): Flight {
    f.(certificate := Some([der]), certificateVerify := Some(s), finished := Some(mac))
  }

  predicate Encodable(der: bytes, s: Signature, mac: bytes) {
    |der| <= MAX_CERTIFICATE && |s.signature| <= 0xffff && |mac| == HASH_LEN
  }

  /** Certificate, CertificateVerify and Finished, in the order of the standard. */
  function InOrder(front: seq<bytes>, der: bytes, s: Signature, mac: bytes): seq<bytes>
    requires Encodable(der, s, mac)
  {
    front + [CertificateMessage(der), VerifyMessage(s), FinishedMessage(mac)]
  }

  function OutOfOrder(front: seq<bytes>, der: bytes, s: Signature, mac: bytes): seq<bytes>
    requires Encodable(der, s, mac)
  {
    front + [CertificateMessage(der), FinishedMessage(mac), VerifyMessage(s)]
  }

  lemma LeadsOpen(front: seq<bytes>)
    requires Leads(front)
    ensures Says(front, FlightOf(front))
    ensures var f := FlightOf(front); f.certificate.None? && f.certificateVerify.None? && f.finished.None?
  {
  }

  lemma PlacesAfter(front: seq<bytes>, a: bytes, b: bytes, c: bytes, typ: byte)
    requires !Occurs(front, typ) && !HasType(a, typ)
    ensures HasType(b, typ) ==> IndexOf(front + [a, b, c], typ) == |front| + 1
    ensures !HasType(b, typ) && HasType(c, typ) ==> IndexOf(front + [a, b, c], typ) == |front| + 2
    ensures (front + [a, b, c])[..|front| + 1] == front + [a] && (front + [a, b, c])[..|front| + 2] == front + [a, b]
  {
    if HasType(b, typ) {
      IndexUnique([a, b, c], typ, 1);
    } else if HasType(c, typ) {
      IndexUnique([a, b, c], typ, 2);
    }
    IndexAfter(front, [a, b, c], typ);
  }

  lemma InOrderSays(front: seq<bytes>, der: bytes, s: Signature, mac: bytes)
    requires Leads(front) && Encodable(der, s, mac)
    ensures var ms := InOrder(front, der, s, mac);
            && Says(ms, Proven(FlightOf(front), der, s, mac))
            && IndexOf(ms, CERTIFICATE_VERIFY) == |front| + 1 && IndexOf(ms, FINISHED) == |front| + 2
            && ms[..|front| + 1] == front + [CertificateMessage(der)]
            && ms[..|front| + 2] == front + [CertificateMessage(der), VerifyMessage(s)]
  {
    var a, b, c := CertificateMessage(der), VerifyMessage(s), FinishedMessage(mac);
    PlacesAfter(front, a, b, c, CERTIFICATE_VERIFY);
    PlacesAfter(front, a, b, c, FINISHED);
    InOrderTaken(front, FlightOf(front), der, s, mac);
  }

  lemma InOrderTaken(front: seq<bytes>, f: Flight, der: bytes, s: Signature, mac: bytes)
    requires Leads(front) && Encodable(der, s, mac) && FlightOf(front) == f
    ensures Says(InOrder(front, der, s, mac), Proven(f, der, s, mac))
  {
    LeadsOpen(front);
    var f1 := f.(certificate := Some([der]));
    var f2 := f1.(certificateVerify := Some(s));
    CertificateTaken(der, f);
    VerifyTaken(s, f1);
    FinishedTaken(mac, f2);
    SaysThree(front, f, CertificateMessage(der), VerifyMessage(s), FinishedMessage(mac), f1, f2, Proven(f, der, s, mac));
  }

  lemma OutOfOrderSays(front: seq<bytes>, der: bytes, s: Signature, mac: bytes)
    requires Leads(front) && Encodable(der, s, mac)
    ensures var ms := OutOfOrder(front, der, s, mac);
            && Says(ms, Proven(FlightOf(front), der, s, mac))
            && IndexOf(ms, CERTIFICATE_VERIFY) == |front| + 2 && IndexOf(ms, FINISHED) == |front| + 1
            && ms[..|front| + 1] == front + [CertificateMessage(der)]
            && ms[..|front| + 2] == front + [CertificateMessage(der), FinishedMessage(mac)]
  {
    var a, b, c := CertificateMessage(der), FinishedMessage(mac), VerifyMessage(s);
    PlacesAfter(front, a, b, c, CERTIFICATE_VERIFY);
    PlacesAfter(front, a, b, c, FINISHED);
    OutOfOrderTaken(front, FlightOf(front), der, s, mac);
  }

  lemma OutOfOrderTaken(front: seq<bytes>, f: Flight, der: bytes, s: Signature, mac: bytes)
    requires Leads(front) && Encodable(der, s, mac) && FlightOf(front) == f
    ensures Says(OutOfOrder(front, der, s, mac), Proven(f, der, s, mac))
  {
    LeadsOpen(front);
    var f1 := f.(certificate := Some([der]));
    var f2 := f1.(finished := Some(mac));
    CertificateTaken(der, f);
    FinishedTaken(mac, f1);
    VerifyTaken(s, f2);
    SaysThree(front, f, CertificateMessage(der), FinishedMessage(mac), VerifyMessage(s), f1, f2, Proven(f, der, s, mac));
  }

  // ----- The server's records -----

  /** A stream cut into as few protected records as the size limit allows. */
  function Fragments(stream: bytes): seq<Item>
    decreases |stream|
  {
    if |stream| <= MAX_PAYLOAD_LEN then [Protected(HANDSHAKE, stream)]
    else [Protected(HANDSHAKE, stream[..MAX_PAYLOAD_LEN])] + Fragments(stream[MAX_PAYLOAD_LEN..])
  }

  lemma FragmentFirst(first: bytes, rest: seq<Item>)
    ensures HandshakeStream(Plaintexts([Protected(HANDSHAKE, first)] + rest)) == first + HandshakeStream(Plaintexts(rest))
    ensures ClearRecords([Protected(HANDSHAKE, first)] + rest) == ClearRecords(rest)
  {
    var items := [Protected(HANDSHAKE, first)] + rest;
    var rec := ProtectedRecord(HANDSHAKE, first);
    assert items[1..] == rest;
    assert Plaintexts(items) == [rec] + Plaintexts(rest) && ClearRecords(items) == [] + ClearRecords(rest);
    assert ([rec] + Plaintexts(rest))[1..] == Plaintexts(rest);
  }

  lemma {:induction false} FragmentsCarry(stream: bytes)
    ensures HandshakeStream(Plaintexts(Fragments(stream))) == stream && ClearRecords(Fragments(stream)) == []
    ensures AllSendable(Fragments(stream)) && (forall i :: 0 <= i < |Fragments(stream)| ==> Fragments(stream)[i].Protected?)
    ensures stream != [] ==> EndsInFragment(Fragments(stream))
    decreases |stream|
  {
    if |stream| <= MAX_PAYLOAD_LEN {
      FragmentFirst(stream, []);
      assert [Protected(HANDSHAKE, stream)] + [] == [Protected(HANDSHAKE, stream)] && stream + [] == stream;
    } else {
      var rest := stream[MAX_PAYLOAD_LEN..];
      FragmentsCarry(rest);
      FragmentFirst(stream[..MAX_PAYLOAD_LEN], Fragments(rest));
      Split(stream, MAX_PAYLOAD_LEN);
    }
  }

  function HandshakeRecord(m: bytes): TLSPlaintext {
    TLSPlaintext(HANDSHAKE, TLS_VERSION_1_2, Uint16(|m|), m)
  }

  /** The same in the clear. */
  function ClearFragments(stream: bytes): seq<Item>
    decreases |stream|
  {
    if |stream| <= MAX_PAYLOAD_LEN then [Clear(HandshakeRecord(stream))]
    else [Clear(HandshakeRecord(stream[..MAX_PAYLOAD_LEN]))] + ClearFragments(stream[MAX_PAYLOAD_LEN..])
  }

  lemma ClearFirst(first: bytes, rest: seq<Item>)
    ensures HandshakeStream(ClearRecords([Clear(HandshakeRecord(first))] + rest)) == first + HandshakeStream(ClearRecords(rest))
    ensures Plaintexts([Clear(HandshakeRecord(first))] + rest) == Plaintexts(rest)
  {
    var items, rec := [Clear(HandshakeRecord(first))] + rest, HandshakeRecord(first);
    assert items[1..] == rest;
    assert ClearRecords(items) == [rec] + ClearRecords(rest) && Plaintexts(items) == [] + Plaintexts(rest);
    assert ([rec] + ClearRecords(rest))[1..] == ClearRecords(rest);
  }

  lemma {:induction false} ClearFragmentsCarry(stream: bytes)
    ensures HandshakeStream(ClearRecords(ClearFragments(stream))) == stream && Plaintexts(ClearFragments(stream)) == []
    ensures AllSendable(ClearFragments(stream)) && WithoutAlert(ClearFragments(stream))
    decreases |stream|
  {
    if |stream| <= MAX_PAYLOAD_LEN {
      ClearFirst(stream, []);
      assert [Clear(HandshakeRecord(stream))] + [] == [Clear(HandshakeRecord(stream))] && stream + [] == stream;
    } else {
      var rest := stream[MAX_PAYLOAD_LEN..];
      ClearFragmentsCarry(rest);
      ClearFirst(stream[..MAX_PAYLOAD_LEN], ClearFragments(rest));
      Split(stream, MAX_PAYLOAD_LEN);
    }
  }

  lemma JoinedItems(clear: seq<Item>, rest: seq<Item>)
    requires AllSendable(clear) && WithoutAlert(clear) && AllSendable(rest) && EndsInFragment(rest)
    requires forall i :: 0 <= i < |rest| ==> rest[i].Protected?
    ensures AllSendable(clear + rest) && WithoutAlert(clear + rest) && EndsInFragment(clear + rest)
  {
    var items := clear + rest;
    forall i | 0 <= i < |items| ensures Sendable(items[i]) && (items[i].Clear? ==> items[i].record.typ != ALERT) {
      if i >= |clear| {
        assert Sendable(rest[i - |clear|]);
      } else {
        assert Sendable(clear[i]);
      }
    }
  }

  lemma ClearThenFragments(m: bytes, stream: bytes)
    requires stream != []
    ensures var items := ClearFragments(m) + Fragments(stream);
            && HandshakeStream(ClearRecords(items)) == m && HandshakeStream(Plaintexts(items)) == stream
            && AllSendable(items) && WithoutAlert(items) && EndsInFragment(items)
  {
    FragmentsCarry(stream);
    ClearFragmentsCarry(m);
    PlaintextsAppend(ClearFragments(m), Fragments(stream));
    assert ClearRecords(ClearFragments(m)) + [] == ClearRecords(ClearFragments(m));
    assert [] + Plaintexts(Fragments(stream)) == Plaintexts(Fragments(stream));
    JoinedItems(ClearFragments(m), Fragments(stream));
  }

  // ----- The hello -----

  /** A hello that can be written out, with valid extensions and a share. */
  predicate Offers(h: Hello) {
    && |h.random| == 32 && |h.sessionID| <= 255
    && AllFit(h.extensions) && |MarshalEntries(h.extensions)| <= 0xffff && ValidExtensions(h.extensions)
    && ShareIn(h.extensions).Ok?
  }

  function HelloMessage(h: Hello): bytes
    requires Offers(h)
  {
    Message(SERVER_HELLO, HelloPrefix(h) + ExtensionBlock(h.extensions))
  }

  lemma HelloIsRead(h: Hello)
    requires Offers(h)
    ensures var m := HelloMessage(h); Unmarshalled(FreshHello(), m) == Filled(h.(original := m), None)
  {
    var m := HelloMessage(h);
    assert HelloPrefix(h.(original := m)) == HelloPrefix(h);
    HelloExact(FreshHello(), m, h.(original := m));
  }

  lemma HelloIsFound(h: Hello, records: seq<TLSPlaintext>)
    requires Offers(h) && HandshakeStream(records) == HelloMessage(h)
    ensures var m := HelloMessage(h); ServerHelloIn(records) == Ok(HelloAndMessage(h.(original := m), m))
  {
    var m := HelloMessage(h);
    HelloIsRead(h);
    AloneFound(m, SERVER_HELLO);
  }

  lemma AloneFound(m: bytes, typ: byte)
    requires IsMessage(m) && m[0] == typ
    ensures Collected(m) == Ok([m]) && FirstOf([m], typ) == Some(m)
  {
    assert Concat([m]) == m + Concat([m][1..]) && m + [] == m;
    CollectedExact(m, [m], []);
    IndexUnique([m], typ, 0);
  }

  ghost predicate Agreeable(c: Client, clientHello: bytes, h: Hello) {
    LawfulClient(c) && clientHello != [] && Offers(h) && c.agree(ShareIn(h.extensions).value.body).Some?
  }

  ghost function ServerOf(c: Client, clientHello: bytes, h: Hello): (s: Server)
    requires Agreeable(c, clientHello, h)
    ensures |s.secrets.serverKey| == KEY_SIZE && |s.secrets.serverIV| == NONCE_SIZE
  {
    var shared := c.agree(ShareIn(h.extensions).value.body).value;
    HandshakeSecretsExact(c.primitives, shared, clientHello, HelloMessage(h));
    Server(shared, HelloMessage(h), HandshakeSecretsFor(c.primitives, shared, clientHello, HelloMessage(h)).value)
  }

  /** The hello in the clear, then the messages in protected records. */
  function FlightItems(h: Hello, ms: seq<bytes>): seq<Item>
    requires Offers(h)
  {
    ClearFragments(HelloMessage(h)) + Fragments(Concat(ms))
  }

  lemma HelloGreets(c: Client, clientHello: bytes, h: Hello, items: seq<Item>)
    requires Agreeable(c, clientHello, h) && HandshakeStream(ClearRecords(items)) == HelloMessage(h)
    ensures Greets(c, clientHello, items, ServerOf(c, clientHello, h))
  {
    HelloIsFound(h, ClearRecords(items));
    ServerAgrees(c, clientHello, h);
    GreetsWith(c, clientHello, items, h.(original := HelloMessage(h)), ServerOf(c, clientHello, h));
  }

  lemma ServerAgrees(c: Client, clientHello: bytes, h: Hello)
    requires Agreeable(c, clientHello, h)
    ensures var s := ServerOf(c, clientHello, h);
            && s.hello == HelloMessage(h) && SharedSecretOf(c, h.extensions) == Ok(s.shared)
            && HandshakeSecretsFor(c.primitives, s.shared, clientHello, s.hello) == Ok(s.secrets)
  {
    HandshakeSecretsExact(c.primitives, c.agree(ShareIn(h.extensions).value.body).value, clientHello, HelloMessage(h));
  }

  lemma GreetsWith(c: Client, clientHello: bytes, items: seq<Item>, h: Hello, s: Server)
    requires ServerHelloIn(ClearRecords(items)) == Ok(HelloAndMessage(h, s.hello))
    requires SharedSecretOf(c, h.extensions) == Ok(s.shared)
    requires HandshakeSecretsFor(c.primitives, s.shared, clientHello, s.hello) == Ok(s.secrets)
    ensures Greets(c, clientHello, items, s)
  {
  }

  /** Any such hello, and any list of messages that the dispatcher takes, can answer any client. */
  lemma FlightAnswers(c: Client, clientHello: bytes, h: Hello, ms: seq<bytes>, f: Flight)
    requires Agreeable(c, clientHello, h) && Says(ms, f) && ms != []
    ensures var items := FlightItems(h, ms);
            && Answers(c, clientHello, items, ms, ServerOf(c, clientHello, h))
            && (IndexOf(ms, FINISHED) == |ms| - 1 ==> Honest(c, clientHello, items, ms, ServerOf(c, clientHello, h)))
  {
    assert IsMessage(ms[0]);
    ClearThenFragments(HelloMessage(h), Concat(ms));
    HelloGreets(c, clientHello, h, FlightItems(h, ms));
  }

  // ----- What the standard asks for -----

  const TLS_VERSION_1_3: uint16 := 0x0304
  const CHACHA20_POLY1305_SHA256: uint16 := 0x1303

  /** The version, cipher suite, compression method and supported_versions of a TLS 1.3 hello, and
      EncryptedExtensions first among the messages (sections 4.1.3 and 4.3.1 of RFC 8446). */
  predicate Conforms(h: Hello, ms: seq<bytes>) {
    && h.version == TLS_VERSION_1_2 && h.cipherSuite == CHACHA20_POLY1305_SHA256 && h.compression == 0
    && VersionIn(h.extensions) == Ok(TLS_VERSION_1_3)
    && ms != [] && IndexOf(ms, ENCRYPTED_EXTENSIONS) == 0
  }

  function StandardHello(random: bytes, sessionID: bytes, share: KeyShare): Hello {
    Hello([], TLS_VERSION_1_2, random, sessionID, CHACHA20_POLY1305_SHA256, 0,
          [Tagged(EXT_SUPPORTED_VERSIONS, Be16(TLS_VERSION_1_3)), Tagged(EXT_KEY_SHARE, share.Marshal())])
  }

  /** The largest share for which the extensions fit their length field. */
  const MAX_SHARE := 0xffff - 14

  lemma TwoEntries(a: Extension, b: Extension)
    requires a.Fits() && b.Fits()
    ensures MarshalEntries([a, b]) == a.Marshal() + b.Marshal() && |MarshalEntries([a, b])| == 8 + |a.body| + |b.body|
  {
    assert MarshalEach([a, b]) == [a.Marshal(), b.Marshal()] == [a.Marshal()] + [b.Marshal()];
    ConcatLast([a.Marshal()], b.Marshal());
    assert [a.Marshal()] == [] + [a.Marshal()];
    ConcatLast([], a.Marshal());
    assert Concat([]) + a.Marshal() == a.Marshal();
  }

  lemma StandardHelloOffers(random: bytes, sessionID: bytes, share: KeyShare)
    requires |random| == 32 && |sessionID| <= 255 && |share.body| <= MAX_SHARE
    ensures var h := StandardHello(random, sessionID, share);
            && Offers(h) && ShareIn(h.extensions) == Ok(share)
            && VersionIn(h.extensions) == Ok(TLS_VERSION_1_3)
  {
    var h := StandardHello(random, sessionID, share);
    var a, b := h.extensions[0], h.extensions[1];
    TwoEntries(a, b);
    ServerKeyShareExact(b.body, share);
    assert WellFormed(a) && WellFormed(b) && Distinct(h.extensions);
    FirstTagIs(h.extensions, EXT_SUPPORTED_VERSIONS, 0);
    FirstTagIs(h.extensions, EXT_KEY_SHARE, 1);
  }

  lemma FirstTagIs(es: seq<Extension>, tag: uint16, k: nat)
    requires k < |es| && es[k].tag == tag && forall j :: 0 <= j < k ==> es[j].tag != tag
    ensures FirstTag(es, tag) == k
  {
  }

  /** The standard hello, octet by octet. */
  lemma StandardHelloOctets(random: bytes, sessionID: bytes, share: KeyShare)
    requires |random| == 32 && |sessionID| <= 255 && |share.body| <= MAX_SHARE
    ensures Offers(StandardHello(random, sessionID, share))
    ensures var n := |share.body|;
            var version: bytes := [0, 43, 0, 2, 3, 4];
            var entry: bytes := [share.tag / 256, share.tag % 256, n / 256, n % 256] + share.body;
            var list := version + ([0, 51, (n + 4) / 256, (n + 4) % 256] + entry);
            var m := HelloMessage(StandardHello(random, sessionID, share));
            && m[0] == 2
            && m[4..] == [3, 3] + random + [|sessionID|] + sessionID + [0x13, 0x03, 0] + [|list| / 256, |list| % 256] + list
  {
    var h := StandardHello(random, sessionID, share);
    StandardHelloOffers(random, sessionID, share);
    StandardListOctets(random, sessionID, share);
    var list := MarshalEntries(h.extensions);
    assert ExtensionBlock(h.extensions) == [|list| / 256, |list| % 256] + list;
    PrefixOctets(h, [|list| / 256, |list| % 256] + list);
    Associate([3, 3] + random + [|sessionID|] + sessionID + [0x13, 0x03, 0], [|list| / 256, |list| % 256], list);
  }

  lemma StandardListOctets(random: bytes, sessionID: bytes, share: KeyShare)
    requires |share.body| <= MAX_SHARE
    ensures var n := |share.body|;
            var version: bytes := [0, 43, 0, 2, 3, 4];
            var entry: bytes := [share.tag / 256, share.tag % 256, n / 256, n % 256] + share.body;
            MarshalEntries(StandardHello(random, sessionID, share).extensions)
            == version + ([0, 51, (n + 4) / 256, (n + 4) % 256] + entry)
  {
    var es := StandardHello(random, sessionID, share).extensions;
    TaggedOctets(share);
    TaggedOctets(es[0]);
    TaggedOctets(es[1]);
    TwoEntries(es[0], es[1]);
    assert es[0].Marshal() == [0, 43, 0, 2, 3, 4];
  }

  lemma PrefixOctets(h: Hello, rest: bytes)
    requires |h.sessionID| <= 255 && h.version == 0x0303 && h.cipherSuite == 0x1303 && h.compression == 0
    ensures HelloPrefix(h) + rest == [3, 3] + h.random + [|h.sessionID|] + h.sessionID + [0x13, 0x03, 0] + rest
  {
    var suite: bytes := [0x13, 0x03, 0];
    assert Be16(h.cipherSuite) + [h.compression] == suite && Be16(h.version) == [3, 3];
    Associate([3, 3] + h.random + [|h.sessionID|], h.sessionID, suite);
    Associate([3, 3] + h.random, [|h.sessionID|], h.sessionID + suite);
    Associate([3, 3], h.random, [|h.sessionID|] + (h.sessionID + suite));
  }
}
