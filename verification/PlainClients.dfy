/** One concrete client: the assumptions can be met, and the success sides are reached. */
module PlainClients {
  import opened Bytes
  import opened Protocol
  import opened Record
  import opened Protection
  import opened Wire
  import opened Connection
  import opened Reassembly
  import opened Extensions
  import opened Messages
  import opened ServerHellos
  import opened ServerMessages
  import opened Dispatch
  import opened KeySchedule
  import opened Flow
  import opened FlightReader
  import opened HonestFlight
  import opened ServerFlights
  import opened AcceptedFlights

  function PlainHash(m: bytes): bytes {
    [|m| % 256] + Zeros(HASH_LEN - 1)
  }

  function PlainMac(k: bytes, m: bytes): bytes {
    [if m == [] then 0 else m[0]] + Zeros(HASH_LEN - 1)
  }

  /** Depends on the secret, and on the hash that ends the info of a long derivation. */
  function PlainExpand(secret: bytes, info: bytes, n: nat): bytes {
    if n == 0 then []
    else
      var a: nat := if secret == [] then 0 else secret[0];
      var b: nat := if |info| < HASH_LEN then 0 else info[|info| - HASH_LEN];
      [(a + b) % 256] + Zeros(n - 1)
  }

  const PLAIN_PRIMITIVES := Primitives(PlainHash, PlainMac, PlainExpand)

  /** Trusts the first certificate, and takes the hash of certificate and transcript as signature. */
  const PLAIN_CLIENT := Client(
    PLAIN_PRIMITIVES,
    PLAIN_SUITE,
    (share: bytes) => Some(Zeros(32)),
    (certificates: seq<bytes>) => if certificates == [] then None else Some(certificates[0]),
    (leaf: bytes, algorithm: uint16, signature: bytes, transcript: bytes) => signature == PlainHash(leaf + transcript))

  lemma PlainClientIsLawful()
    ensures LawfulClient(PLAIN_CLIENT)
  {
  }

  ghost function PlainSignature(transcript: bytes, der: bytes): Signature {
    Signature(0x0403, PlainHash(der + transcript))
  }

  lemma PlainClientTrusts(der: bytes, transcript: bytes)
    requires transcript != []
    ensures Trusted(PLAIN_CLIENT, der, PlainSignature(transcript, der), transcript)
  {
  }

  lemma PlainClientAgrees(clientHello: bytes, h: Hello)
    requires clientHello != [] && Offers(h)
    ensures Agreeable(PLAIN_CLIENT, clientHello, h)
  {
    PlainClientIsLawful();
  }

  // ----- Flights that it accepts -----

  /** Certificate, CertificateVerify and Finished follow what is in front, and nothing else. */
  predicate ProofAfter(front: seq<bytes>, ms: seq<bytes>) {
    var n := |front|;
    && |ms| == n + 3 && front == ms[..n]
    && HasType(ms[n], CERTIFICATE) && HasType(ms[n + 1], CERTIFICATE_VERIFY) && HasType(ms[n + 2], FINISHED)
  }

  /** The success side of the handshake is reached, with every hello, every leading messages and
      every certificate. */
  lemma PlainClientAccepts(clientHello: bytes, h: Hello, front: seq<bytes>, der: bytes)
    returns (items: seq<Item>, ms: seq<bytes>)
    requires clientHello != [] && Offers(h) && Leads(front) && |der| <= MAX_CERTIFICATE
    ensures Agreeable(PLAIN_CLIENT, clientHello, h)
    ensures var s := ServerOf(PLAIN_CLIENT, clientHello, h);
            && Honest(PLAIN_CLIENT, clientHello, items, ms, s)
            && Handshake4To12(PLAIN_CLIENT, clientHello, MarshalAll(Records(PLAIN_CLIENT, items, s))).Ok?
    ensures ProofAfter(front, ms)
  {
    PlainClientAgrees(clientHello, h);
    var transcript := clientHello + HelloMessage(h) + Concat(front + [CertificateMessage(der)]);
    PlainClientTrusts(der, transcript);
    items, ms := HonestFlightsExist(PLAIN_CLIENT, clientHello, h, front, der, PlainSignature(transcript, der));
  }

  /** Among them is a flight as the standard has it: TLS 1.3 negotiated by supported_versions,
      ChaCha20-Poly1305, and EncryptedExtensions before the Certificate. */
  lemma StandardFlightAccepted(clientHello: bytes, random: bytes, sessionID: bytes, share: KeyShare,
                               es: seq<Extension>, der: bytes) returns (items: seq<Item>, ms: seq<bytes>)
    requires clientHello != [] && |random| == 32 && |sessionID| <= 255 && |share.body| <= MAX_SHARE
    requires AllFit(es) && |MarshalEntries(es)| <= 0xffff && Distinct(es) && EmptyNamesFrom(es, 0)
    requires |der| <= MAX_CERTIFICATE
    ensures var h := StandardHello(random, sessionID, share);
            && Agreeable(PLAIN_CLIENT, clientHello, h) && Conforms(h, ms)
            && var s := ServerOf(PLAIN_CLIENT, clientHello, h);
               && Honest(PLAIN_CLIENT, clientHello, items, ms, s)
               && Handshake4To12(PLAIN_CLIENT, clientHello, MarshalAll(Records(PLAIN_CLIENT, items, s))).Ok?
  {
    var h := StandardHello(random, sessionID, share);
    StandardHelloOffers(random, sessionID, share);
    ExtensionsLead(es);
    items, ms := PlainClientAccepts(clientHello, h, [ExtensionsMessage(es)], der);
    ConformsWithExtensions(random, sessionID, share, es, ms);
  }

  lemma ConformsWithExtensions(random: bytes, sessionID: bytes, share: KeyShare, es: seq<Extension>, ms: seq<bytes>)
    requires AllFit(es) && |MarshalEntries(es)| <= 0xffff && ProofAfter([ExtensionsMessage(es)], ms)
    requires VersionIn(StandardHello(random, sessionID, share).extensions) == Ok(TLS_VERSION_1_3)
    ensures Conforms(StandardHello(random, sessionID, share), ms)
  {
    assert ms[0] == [ExtensionsMessage(es)][0];
    IndexUnique(ms, ENCRYPTED_EXTENSIONS, 0);
  }

  /** And, for whatever hello, one without EncryptedExtensions: nothing of `Conforms` is needed. */
  lemma NonconformingFlightAccepted(clientHello: bytes, h: Hello, der: bytes) returns (items: seq<Item>, ms: seq<bytes>)
    requires clientHello != [] && Offers(h) && |der| <= MAX_CERTIFICATE
    ensures Agreeable(PLAIN_CLIENT, clientHello, h) && !Conforms(h, ms) && !Occurs(ms, ENCRYPTED_EXTENSIONS)
    ensures var s := ServerOf(PLAIN_CLIENT, clientHello, h);
            && Honest(PLAIN_CLIENT, clientHello, items, ms, s)
            && Handshake4To12(PLAIN_CLIENT, clientHello, MarshalAll(Records(PLAIN_CLIENT, items, s))).Ok?
  {
    var front: seq<bytes> := [];
    NothingLeads();
    items, ms := PlainClientAccepts(clientHello, h, front, der);
    LacksExtensions(h, ms);
  }

  lemma LacksExtensions(h: Hello, ms: seq<bytes>)
    requires ProofAfter([], ms)
    ensures !Occurs(ms, ENCRYPTED_EXTENSIONS) && !Conforms(h, ms)
  {
    IndexUnique(ms, ENCRYPTED_EXTENSIONS, 3);
  }

  lemma AcceptedOutOfOrder(c: Client, clientHello: bytes, h: Hello, front: seq<bytes>, der: bytes, signature: Signature)
    returns (items: seq<Item>, ms: seq<bytes>)
    requires Agreeable(c, clientHello, h) && Leads(front) && |der| <= MAX_CERTIFICATE && |signature.signature| <= 0xffff
    requires Trusted(c, der, signature, LateTranscript(c, clientHello, h, front, der))
    ensures var s := ServerOf(c, clientHello, h);
            && Answers(c, clientHello, items, ms, s)
            && IndexOf(ms, FINISHED) < IndexOf(ms, CERTIFICATE_VERIFY) < |ms|
            && Handshake4To12(c, clientHello, MarshalAll(Records(c, items, s))).Ok?
  {
    items, ms := OrderIsNotChecked(c, clientHello, h, front, der, signature);
    OutOfOrderSays(front, der, signature, EarlyMac(c, clientHello, h, front, der));
  }

  /** The success side is reached also with Finished before CertificateVerify. */
  lemma PlainClientAcceptsOutOfOrder(clientHello: bytes, h: Hello, front: seq<bytes>, der: bytes)
    returns (items: seq<Item>, ms: seq<bytes>)
    requires clientHello != [] && Offers(h) && Leads(front) && |der| <= MAX_CERTIFICATE
    ensures Agreeable(PLAIN_CLIENT, clientHello, h)
    ensures var s := ServerOf(PLAIN_CLIENT, clientHello, h);
            && Answers(PLAIN_CLIENT, clientHello, items, ms, s)
            && IndexOf(ms, FINISHED) < IndexOf(ms, CERTIFICATE_VERIFY) < |ms|
            && Handshake4To12(PLAIN_CLIENT, clientHello, MarshalAll(Records(PLAIN_CLIENT, items, s))).Ok?
  {
    PlainClientAgrees(clientHello, h);
    var transcript := LateTranscript(PLAIN_CLIENT, clientHello, h, front, der);
    PlainClientTrusts(der, transcript);
    items, ms := AcceptedOutOfOrder(PLAIN_CLIENT, clientHello, h, front, der, PlainSignature(transcript, der));
  }

  // ----- Keys -----

  lemma PlainSecret(secret: bytes, name: string, messages: bytes)
    requires secret != [] && |name| <= 200
    ensures DeriveSecret(PLAIN_PRIMITIVES, secret, name, messages)
         == [(secret[0] as int + |messages| % 256) % 256] + Zeros(HASH_LEN - 1)
  {
    var hash := PlainHash(messages);
    var info := HkdfInfo(Ascii(name), hash, HASH_LEN).value;
    var front := Be16(HASH_LEN) + ([|FullLabel(Ascii(name))|] + (FullLabel(Ascii(name)) + [|hash|]));
    assert info == front + hash;
    assert info[|info| - HASH_LEN] == hash[0];
  }

  lemma PlainValue(secret: bytes, name: string, n: nat)
    requires secret != [] && |name| <= 10 && n > 0
    ensures TrafficValue(PLAIN_PRIMITIVES, secret, name, n) == [secret[0]] + Zeros(n - 1)
  {
  }

  ghost predicate EveryKeyDiffers(k: SessionKeys, l: SessionKeys) {
    && k.transcriptHash != l.transcriptHash && k.clientFinished != l.clientFinished
    && k.clientKey != l.clientKey && k.serverKey != l.serverKey
  }

  /** The keys of a transcript, told by their first octets. */
  ghost predicate Heads(k: SessionKeys, master: byte, whole: nat) {
    && k.transcriptHash != [] && k.clientFinished != [] && k.clientKey != [] && k.serverKey != []
    && k.transcriptHash[0] == k.clientFinished[0] == whole % 256
    && k.clientKey[0] == k.serverKey[0] == (master as int + whole % 256) % 256
  }

  lemma PlainKeys(sharedSecret: bytes, clientHello: bytes, serverHello: bytes, messages: bytes)
    requires sharedSecret != [] && clientHello != [] && serverHello != []
    ensures var master := MasterSecret(PLAIN_PRIMITIVES, sharedSecret);
            var k := SessionKeysOver(PLAIN_PRIMITIVES, sharedSecret, clientHello, serverHello, messages);
            master != [] && k.Ok? && Heads(k.value, master[0], |clientHello + serverHello + messages|)
  {
    PlainClientIsLawful();
    var whole := clientHello + serverHello + messages;
    var master := MasterSecret(PLAIN_PRIMITIVES, sharedSecret);
    SessionKeysFollowTheSchedule(PLAIN_PRIMITIVES, sharedSecret, clientHello, serverHello, messages);
    PlainSecret(master, CLIENT_APPLICATION, whole);
    PlainSecret(master, SERVER_APPLICATION, whole);
    PlainValue(DeriveSecret(PLAIN_PRIMITIVES, master, CLIENT_APPLICATION, whole), KEY, KEY_SIZE);
    PlainValue(DeriveSecret(PLAIN_PRIMITIVES, master, SERVER_APPLICATION, whole), KEY, KEY_SIZE);
  }

  lemma HeadsDiffer(k: SessionKeys, l: SessionKeys, master: byte, n: nat, m: nat)
    requires Heads(k, master, n) && Heads(l, master, m) && n % 256 != m % 256
    ensures EveryKeyDiffers(k, l)
  {
  }

  /** Under this client's hashes, one message more of fewer than 256 octets changes every key. */
  lemma PlainKeysDiffer(sharedSecret: bytes, clientHello: bytes, serverHello: bytes, messages: bytes, more: bytes)
    requires sharedSecret != [] && clientHello != [] && serverHello != [] && 0 < |more| < 256
    ensures var k := SessionKeysOver(PLAIN_PRIMITIVES, sharedSecret, clientHello, serverHello, messages + more);
            var l := SessionKeysOver(PLAIN_PRIMITIVES, sharedSecret, clientHello, serverHello, messages);
            k.Ok? && l.Ok? && EveryKeyDiffers(k.value, l.value)
  {
    PlainKeys(sharedSecret, clientHello, serverHello, messages + more);
    PlainKeys(sharedSecret, clientHello, serverHello, messages);
    var n := |clientHello + serverHello + messages|;
    assert |clientHello + serverHello + (messages + more)| == n + |more|;
    HeadsDiffer(SessionKeysOver(PLAIN_PRIMITIVES, sharedSecret, clientHello, serverHello, messages + more).value,
                SessionKeysOver(PLAIN_PRIMITIVES, sharedSecret, clientHello, serverHello, messages).value,
                MasterSecret(PLAIN_PRIMITIVES, sharedSecret)[0], n + |more|, n);
  }

  lemma PlainClientGoesOn(clientHello: bytes, h: Hello, front: seq<bytes>, der: bytes, m: bytes)
    returns (items: seq<Item>, ms: seq<bytes>)
    requires clientHello != [] && Offers(h) && Leads(front) && |der| <= MAX_CERTIFICATE && IsMessage(m) && !Known(m[0])
    ensures Agreeable(PLAIN_CLIENT, clientHello, h)
    ensures GoesOn(PLAIN_CLIENT, clientHello, items, ms, ServerOf(PLAIN_CLIENT, clientHello, h), m)
  {
    var short;
    short, ms := PlainClientAccepts(clientHello, h, front, der);
    items := short + Fragments(m);
    MayGoOn(PLAIN_CLIENT, clientHello, short, ms, ServerOf(PLAIN_CLIENT, clientHello, h), m);
  }

  /** A ticket-sized message after the Finished: the flight is read and accepted, and every key
      differs from what the messages up to Finished give. */
  lemma KeysCoverWhatFollows(clientHello: bytes, h: Hello, front: seq<bytes>, der: bytes, isComplete: bytes -> bool)
    returns (items: seq<Item>, ms: seq<bytes>)
    requires clientHello != [] && Offers(h) && Leads(front) && |der| <= MAX_CERTIFICATE
    requires Decides(PLAIN_CLIENT, clientHello, isComplete)
    ensures Agreeable(PLAIN_CLIENT, clientHello, h)
    ensures var s := ServerOf(PLAIN_CLIENT, clientHello, h);
            && GoesOn(PLAIN_CLIENT, clientHello, items, ms, s, [4, 0, 0, 1, 7])
            && var wire := MarshalAll(Records(PLAIN_CLIENT, items, s));
               var standard := SessionKeysOver(PLAIN_PRIMITIVES, s.shared, clientHello, s.hello, Concat(ms));
               && FlightFrom([ReadEvent(wire, None)], 0, isComplete) == Ok(wire)
               && standard.Ok? && EveryKeyDiffers(Handshake4To12(PLAIN_CLIENT, clientHello, wire).value, standard.value)
  {
    var m: bytes := [4, 0, 0, 1, 7];
    MessageShape(m);
    items, ms := PlainClientGoesOn(clientHello, h, front, der, m);
    var s := ServerOf(PLAIN_CLIENT, clientHello, h);
    PlainKeysDiffer(s.shared, clientHello, s.hello, Concat(ms), m);
    ReadAtOnce(PLAIN_CLIENT, clientHello, items, ms + [m], s, isComplete);
  }
}
