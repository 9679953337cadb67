/** The key schedule (section 7.1 of RFC 8446) over abstract hash functions. */
module KeySchedule {
  import opened Bytes
  import opened Protocol
  import opened Record
  import opened Framing
  import opened Reassembly

  const HASH_LEN := 32
  const MAX_EXPAND := 255 * HASH_LEN

  /** SHA-256, HMAC-SHA-256 (key, message) and HKDF-Expand (secret, info, length). */
  datatype Primitives = Primitives(
    sha256: bytes -> bytes,
    hmac: (bytes, bytes) -> bytes,
    expand: (bytes, bytes, nat) -> bytes)

  /** All that is assumed of them: the lengths of their results. */
  ghost predicate LawfulPrimitives(p: Primitives) {
    && (forall m: bytes :: |p.sha256(m)| == HASH_LEN)
    && (forall k: bytes, m: bytes :: |p.hmac(k, m)| == HASH_LEN)
    && (forall s: bytes, i: bytes, n: nat :: |p.expand(s, i, n)| == n)
  }

  function Ascii(s: string): (r: bytes)
    ensures |r| == |s|
  {
    seq(|s|, i requires 0 <= i < |s| => s[i] as int % 256)
  }

  // ----- HkdfLabel -----

  function FullLabel(name: bytes): bytes {
    Ascii("tls13 ") + name
  }

  /** Only the low sixteen bits of the length are written. */
  function HkdfInfo(name: bytes, context: bytes, length: nat): Result<bytes, Error> {
    if |FullLabel(name)| > 255 then Err(HkdfLabelTooLong)
    else if |context| > 255 then Err(HkdfContextTooLong)
    else Ok(Be16(Uint16(length)) + ([|FullLabel(name)|] + (FullLabel(name) + ([|context|] + context))))
  }

  function ExpandLabel(p: Primitives, secret: bytes, name: bytes, context: bytes, length: nat): Result<bytes, Error> {
    var info :- HkdfInfo(name, context, length);
    if length > MAX_EXPAND then Err(HkdfOutputTooLong) else Ok(p.expand(secret, info, length))
  }

  lemma InfoBuilt(length: bytes, full: bytes, context: bytes)
    requires |full| <= 255 && |context| <= 255
    ensures length + [|full|] + full + [|context|] + context == length + ([|full|] + (full + ([|context|] + context)))
  {
    Associate(length + [|full|] + full, [|context|], context);
    Associate(length + [|full|], full, [|context|] + context);
    Associate(length, [|full|], full + ([|context|] + context));
  }

  method HkdfExpandLabelSHA256(p: Primitives, secret: bytes, name: bytes, context: bytes, length: nat)
    returns (r: Result<bytes, Error>)
    ensures r == ExpandLabel(p, secret, name, context, length)
  {
    var fullLabel := Ascii("tls13 ") + name;
    if |fullLabel| > 255 {
      return Err(HkdfLabelTooLong);
    }
    if |context| > 255 {
      return Err(HkdfContextTooLong);
    }
    var info: bytes := [length / 256 % 256, length % 256];
    info := info + [|fullLabel|];
    info := info + fullLabel;
    info := info + [|context|];
    info := info + context;
    InfoBuilt(Be16(Uint16(length)), fullLabel, context);
    if length > MAX_EXPAND {
      return Err(HkdfOutputTooLong);
    }
    return Ok(p.expand(secret, info, length));
  }

  datatype HkdfLabel = HkdfLabel(length: uint16, name: bytes, context: bytes)

  /** The HkdfLabel structure of the standard, read back. */
  function DecodeInfo(info: bytes): Option<HkdfLabel> {
    match ReadUint16(info)
    case None => None
    case Some(length) =>
      match ReadUint8Prefixed(length.rest)
      case None => None
      case Some(full) =>
        match ReadUint8Prefixed(full.rest)
        case None => None
        case Some(context) =>
          if context.rest != [] || !(Ascii("tls13 ") <= full.value) then None
          else Some(HkdfLabel(length.value, full.value[6..], context.value))
  }

  lemma InfoDecodes(name: bytes, context: bytes, length: nat)
    requires HkdfInfo(name, context, length).Ok?
    ensures DecodeInfo(HkdfInfo(name, context, length).value) == Some(HkdfLabel(Uint16(length), name, context))
  {
    var full := FullLabel(name);
    var c := [|context|] + context;
    Uint16Exact(HkdfInfo(name, context, length).value, Uint16(length), [|full|] + (full + c));
    Uint8PrefixedExact([|full|] + (full + c), full, c);
    assert context + [] == context;
    Uint8PrefixedExact(c, context, []);
    assert full[6..] == name;
  }

  /** Two derivations feed HKDF the same info exactly when their labels, their contexts and
      their lengths modulo 2^16 agree. */
  lemma InfoInjective(l1: bytes, c1: bytes, n1: nat, l2: bytes, c2: bytes, n2: nat)
    requires HkdfInfo(l1, c1, n1).Ok? && HkdfInfo(l2, c2, n2).Ok?
    ensures HkdfInfo(l1, c1, n1) == HkdfInfo(l2, c2, n2) <==> l1 == l2 && c1 == c2 && Uint16(n1) == Uint16(n2)
  {
    InfoDecodes(l1, c1, n1);
    InfoDecodes(l2, c2, n2);
  }

  // The labels of the schedule.
  const DERIVED := "derived"
  const CLIENT_HANDSHAKE := "c hs traffic"
  const SERVER_HANDSHAKE := "s hs traffic"
  const KEY := "key"
  const IV := "iv"
  const FINISHED_KEY := "finished"
  const CLIENT_APPLICATION := "c ap traffic"
  const SERVER_APPLICATION := "s ap traffic"

  const LABELS := [DERIVED, CLIENT_HANDSHAKE, SERVER_HANDSHAKE, KEY, IV, FINISHED_KEY, CLIENT_APPLICATION, SERVER_APPLICATION]

  /** Derivations under different labels of the schedule never share an info string. */
  lemma LabelsSeparate(i: nat, j: nat, c1: bytes, n1: nat, c2: bytes, n2: nat)
    requires i < j < |LABELS|
    requires |c1| <= 255 && |c2| <= 255
    ensures HkdfInfo(Ascii(LABELS[i]), c1, n1) != HkdfInfo(Ascii(LABELS[j]), c2, n2)
  {
    var a, b := LABELS[i], LABELS[j];
    InfoInjective(Ascii(a), c1, n1, Ascii(b), c2, n2);
    if |a| == |b| {
      if a[0] == b[0] {
        assert Ascii(a)[2] != Ascii(b)[2];
      } else {
        assert Ascii(a)[0] != Ascii(b)[0];
      }
    }
  }

  // ----- Handshake secrets -----

  function Extract(p: Primitives, salt: bytes, ikm: bytes): bytes {
    p.hmac(salt, ikm)
  }

  datatype HandshakeSecrets = HandshakeSecrets(
    transcriptHash: bytes,
    handshakeSecret: bytes,
    clientTrafficSecret: bytes,
    serverTrafficSecret: bytes,
    clientKey: bytes,
    clientIV: bytes,
    serverKey: bytes,
    serverIV: bytes)

  function HandshakeSecretsFor(p: Primitives, sharedSecret: bytes, clientHello: bytes, serverHello: bytes)
    : Result<HandshakeSecrets, Error>
  {
    if sharedSecret == [] then Err(EmptyInput("shared secret"))
    else if clientHello == [] then Err(EmptyInput("client hello"))
    else if serverHello == [] then Err(EmptyInput("server hello"))
    else
      var transcriptHash := p.sha256(clientHello + serverHello);
      var earlySecret := Extract(p, Zeros(HASH_LEN), Zeros(HASH_LEN));
      var derivedSecret :- ExpandLabel(p, earlySecret, Ascii(DERIVED), p.sha256([]), HASH_LEN);
      var handshakeSecret := Extract(p, derivedSecret, sharedSecret);
      var clientSecret :- ExpandLabel(p, handshakeSecret, Ascii(CLIENT_HANDSHAKE), transcriptHash, HASH_LEN);
      var serverSecret :- ExpandLabel(p, handshakeSecret, Ascii(SERVER_HANDSHAKE), transcriptHash, HASH_LEN);
      var clientKey :- ExpandLabel(p, clientSecret, Ascii(KEY), [], KEY_SIZE);
      var clientIV :- ExpandLabel(p, clientSecret, Ascii(IV), [], NONCE_SIZE);
      var serverKey :- ExpandLabel(p, serverSecret, Ascii(KEY), [], KEY_SIZE);
      var serverIV :- ExpandLabel(p, serverSecret, Ascii(IV), [], NONCE_SIZE);
      Ok(HandshakeSecrets(transcriptHash, handshakeSecret, clientSecret, serverSecret, clientKey, clientIV, serverKey, serverIV))
  }

  /** The derivation fails only on an empty input, and its keys fit the cipher. */
  lemma HandshakeSecretsExact(p: Primitives, sharedSecret: bytes, clientHello: bytes, serverHello: bytes)
    requires LawfulPrimitives(p)
    ensures var r := HandshakeSecretsFor(p, sharedSecret, clientHello, serverHello);
            && (r.Ok? <==> sharedSecret != [] && clientHello != [] && serverHello != [])
            && (r.Ok? ==> && |r.value.serverKey| == |r.value.clientKey| == KEY_SIZE
                          && |r.value.serverIV| == |r.value.clientIV| == NONCE_SIZE
                          && |r.value.serverTrafficSecret| == HASH_LEN)
  {
  }

  /** Derive-Secret and traffic keys as the standard defines them. */
  ghost function DeriveSecret(p: Primitives, secret: bytes, name: string, messages: bytes): bytes {
    p.expand(secret, ExpandedInfo(Ascii(name), p.sha256(messages), HASH_LEN), HASH_LEN)
  }

  ghost function TrafficValue(p: Primitives, secret: bytes, name: string, length: nat): bytes {
    p.expand(secret, ExpandedInfo(Ascii(name), [], length), length)
  }

  ghost function ExpandedInfo(name: bytes, context: bytes, length: nat): bytes {
    var r := HkdfInfo(name, context, length);
    if r.Ok? then r.value else []
  }

  ghost function EarlySecret(p: Primitives): bytes {
    Extract(p, Zeros(HASH_LEN), Zeros(HASH_LEN))
  }

  ghost function HandshakeSecret(p: Primitives, sharedSecret: bytes): bytes {
    Extract(p, DeriveSecret(p, EarlySecret(p), DERIVED, []), sharedSecret)
  }

  ghost function MasterSecret(p: Primitives, sharedSecret: bytes): bytes {
    Extract(p, DeriveSecret(p, HandshakeSecret(p, sharedSecret), DERIVED, []), Zeros(HASH_LEN))
  }

  lemma HandshakeSecretsFollowTheSchedule(p: Primitives, sharedSecret: bytes, clientHello: bytes, serverHello: bytes)
    requires LawfulPrimitives(p) && sharedSecret != [] && clientHello != [] && serverHello != []
    ensures var hs := HandshakeSecret(p, sharedSecret);
            var c := DeriveSecret(p, hs, CLIENT_HANDSHAKE, clientHello + serverHello);
            var s := DeriveSecret(p, hs, SERVER_HANDSHAKE, clientHello + serverHello);
            HandshakeSecretsFor(p, sharedSecret, clientHello, serverHello) == Ok(HandshakeSecrets(
              p.sha256(clientHello + serverHello), hs, c, s,
              TrafficValue(p, c, KEY, KEY_SIZE), TrafficValue(p, c, IV, NONCE_SIZE),
              TrafficValue(p, s, KEY, KEY_SIZE), TrafficValue(p, s, IV, NONCE_SIZE)))
  {
  }

  // ----- Server Finished -----

  /** The MAC over a transcript under a traffic secret (section 4.4.4 of the standard). */
  function FinishedMac(p: Primitives, trafficSecret: bytes, transcript: bytes): Result<bytes, Error> {
    var finishedKey :- ExpandLabel(p, trafficSecret, Ascii(FINISHED_KEY), [], HASH_LEN);
    Ok(p.hmac(finishedKey, p.sha256(transcript)))
  }

  lemma FinishedMacFollowsTheSchedule(p: Primitives, trafficSecret: bytes, transcript: bytes)
    ensures FinishedMac(p, trafficSecret, transcript)
         == Ok(p.hmac(TrafficValue(p, trafficSecret, FINISHED_KEY, HASH_LEN), p.sha256(transcript)))
  {
  }

  function VerifyTLS13ServerFinished(p: Primitives, serverTrafficSecret: bytes, transcript: bytes, verifyData: bytes)
    : (err: Option<Error>)
    ensures LawfulPrimitives(p) ==>
      (err.None? <==> && serverTrafficSecret != [] && transcript != []
                      && FinishedMac(p, serverTrafficSecret, transcript) == Ok(verifyData))
  {
    if serverTrafficSecret == [] then Some(EmptyInput("server traffic secret"))
    else if transcript == [] then Some(EmptyInput("transcript"))
    else if verifyData == [] then Some(EmptyInput("verify data"))
    else
      var mac := FinishedMac(p, serverTrafficSecret, transcript);
      if mac.Err? then Some(mac.error)
      else if mac.value != verifyData then Some(InvalidFinished) else None
  }

  // ----- Session keys -----

  /** The key schedule's own copy of the collector. */
  method CollectTLS13HandshakeMessages(records: seq<TLSPlaintext>) returns (r: Messages)
    ensures r == Collected(HandshakeStream(records))
  {
    var stream, messages: seq<bytes> := [], [];
    for i := 0 to |records|
      invariant Pieces(messages, stream) == Buffered(records, i) && !ZeroLength(stream)
    {
      CutNext(records, i);
      if records[i].typ != HANDSHAKE {
        continue;
      }
      stream := stream + records[i].payload;
      var taken, rest, malformed := DrainMessages(stream);
      messages := messages + taken;
      stream := rest;
      if malformed {
        MalformedRecord(records, i + 1);
        return Err(MalformedHandshakeLength(0));
      }
    }
    assert records[..|records|] == records;
    if |stream| > 0 {
      if |stream| < HANDSHAKE_HEADER_LEN {
        return Err(IncompleteHandshakeHeader(|stream|));
      }
      var msgTotalLen := HANDSHAKE_HEADER_LEN + U24(stream[1..]);
      return Err(IncompleteHandshakeMessage(msgTotalLen, |stream|));
    }
    return Ok(messages);
  }

  method ConcatTLS13HandshakeMessages(records: seq<TLSPlaintext>) returns (r: Result<bytes, Error>)
    ensures r == ConcatenatedMessages(records)
  {
    var messages :- CollectTLS13HandshakeMessages(records);
    var result := [];
    for i := 0 to |messages|
      invariant result == Concat(messages[..i])
    {
      ConcatLast(messages[..i], messages[i]);
      assert messages[..i + 1] == messages[..i] + [messages[i]];
      result := result + messages[i];
    }
    assert messages[..|messages|] == messages;
    CollectedExact(HandshakeStream(records), messages, []);
    return Ok(result);
  }

  datatype SessionKeys = SessionKeys(
    transcriptHash: bytes,
    clientFinished: bytes,
    handshake: HandshakeSecrets,
    clientKey: bytes,
    clientIV: bytes,
    serverKey: bytes,
    serverIV: bytes)

  /** The straight-line derivation over the whole transcript. */
  function SessionKeysOver(p: Primitives, sharedSecret: bytes, clientHello: bytes, serverHello: bytes, messages: bytes)
    : Result<SessionKeys, Error>
  {
    var hs :- HandshakeSecretsFor(p, sharedSecret, clientHello, serverHello);
    var transcriptHash := p.sha256(clientHello + serverHello + messages);
    var finishedKey :- ExpandLabel(p, hs.clientTrafficSecret, Ascii(FINISHED_KEY), [], HASH_LEN);
    var clientFinished := p.hmac(finishedKey, transcriptHash);
    var derived :- ExpandLabel(p, hs.handshakeSecret, Ascii(DERIVED), p.sha256([]), HASH_LEN);
    var masterSecret := Extract(p, derived, Zeros(HASH_LEN));
    var clientSecret :- ExpandLabel(p, masterSecret, Ascii(CLIENT_APPLICATION), transcriptHash, HASH_LEN);
    var serverSecret :- ExpandLabel(p, masterSecret, Ascii(SERVER_APPLICATION), transcriptHash, HASH_LEN);
    var clientKey :- ExpandLabel(p, clientSecret, Ascii(KEY), [], KEY_SIZE);
    var clientIV :- ExpandLabel(p, clientSecret, Ascii(IV), [], NONCE_SIZE);
    var serverKey :- ExpandLabel(p, serverSecret, Ascii(KEY), [], KEY_SIZE);
    var serverIV :- ExpandLabel(p, serverSecret, Ascii(IV), [], NONCE_SIZE);
    Ok(SessionKeys(transcriptHash, clientFinished, hs, clientKey, clientIV, serverKey, serverIV))
  }

  function SessionKeysFor(p: Primitives, sharedSecret: bytes, clientHello: bytes, serverHello: bytes,
                          records: seq<TLSPlaintext>): Result<SessionKeys, Error>
  {
    var messages :- ConcatenatedMessages(records);
    SessionKeysOver(p, sharedSecret, clientHello, serverHello, messages)
  }

  method DeriveTLS13ChaCha20ClientSessionKeys(p: Primitives, sharedSecret: bytes, clientHello: bytes, serverHello: bytes,
                                              records: seq<TLSPlaintext>) returns (r: Result<SessionKeys, Error>)
    ensures r == SessionKeysFor(p, sharedSecret, clientHello, serverHello, records)
  {
    var messages :- ConcatTLS13HandshakeMessages(records);
    r := SessionKeysOver(p, sharedSecret, clientHello, serverHello, messages);
  }

  /** The session keys are those of the standard over client hello, server hello and every
      message of the encrypted flight. */
  lemma SessionKeysFollowTheSchedule(p: Primitives, sharedSecret: bytes, clientHello: bytes, serverHello: bytes, messages: bytes)
    requires LawfulPrimitives(p) && sharedSecret != [] && clientHello != [] && serverHello != []
    ensures var whole := clientHello + serverHello + messages;
            var hs := HandshakeSecretsFor(p, sharedSecret, clientHello, serverHello).value;
            var master := MasterSecret(p, sharedSecret);
            var c := DeriveSecret(p, master, CLIENT_APPLICATION, whole);
            var s := DeriveSecret(p, master, SERVER_APPLICATION, whole);
            var k := SessionKeysOver(p, sharedSecret, clientHello, serverHello, messages);
            && k.Ok? && k.value.handshake == hs && k.value.transcriptHash == p.sha256(whole)
            && FinishedMac(p, hs.clientTrafficSecret, whole) == Ok(k.value.clientFinished)
            && k.value.clientKey == TrafficValue(p, c, KEY, KEY_SIZE) && k.value.clientIV == TrafficValue(p, c, IV, NONCE_SIZE)
            && k.value.serverKey == TrafficValue(p, s, KEY, KEY_SIZE) && k.value.serverIV == TrafficValue(p, s, IV, NONCE_SIZE)
  {
  }
}
