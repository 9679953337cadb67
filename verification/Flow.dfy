/** From a received flight to session keys: steps 4 to 12 of the client's handshake. */
module Flow {
  import opened Bytes
  import opened Protocol
  import opened Record
  import opened Protection
  import opened Sequencing
  import opened Wire
  import opened Reassembly
  import opened Extensions
  import opened ServerHellos
  import opened ServerMessages
  import opened Dispatch
  import opened KeySchedule
  import opened Transcript

  /** What the client runs on: hashes, the cipher, the agreement of its own key with a share,
      the check of a certificate chain (giving the leaf), and signature verification. */
  datatype Client = Client(
    primitives: Primitives,
    suite: Suite,
    agree: bytes -> Option<bytes>,
    chain: seq<bytes> -> Option<bytes>,
    verify: (bytes, uint16, bytes, bytes) -> bool)

  ghost predicate LawfulClient(c: Client) {
    && LawfulPrimitives(c.primitives)
    && Lawful(c.suite)
    && forall share: bytes :: c.agree(share).Some? ==> |c.agree(share).value| == 32
  }

  // ----- ServerHello -----

  datatype HelloAndMessage = HelloAndMessage(hello: Hello, message: bytes)

  ghost function ServerHelloIn(records: seq<TLSPlaintext>): Result<HelloAndMessage, Error> {
    var ms :- Collected(HandshakeStream(records));
    match FirstOf(ms, SERVER_HELLO)
    case None => Err(MessageNotFound(SERVER_HELLO))
    case Some(message) =>
      var filled := Unmarshalled(FreshHello(), message);
      if filled.err.Some? then Err(filled.err.value) else Ok(HelloAndMessage(filled.hello, message))
  }

  method ParseServerHelloFromRecords(records: seq<TLSPlaintext>) returns (err: Option<Error>, sh: ServerHello)
    ensures fresh(sh)
    ensures err == match ServerHelloIn(records) { case Err(e) => Some(e) case Ok(_) => None }
    ensures ServerHelloIn(records).Ok? ==> sh.Contents() == ServerHelloIn(records).value.hello
  {
    sh := new ServerHello();
    var messages := CollectHandshakeMessages(records);
    if messages.Err? {
      return Some(messages.error), sh;
    }
    var message := FindFirstHandshakeMessage(messages.value, SERVER_HELLO);
    if message.None? {
      return Some(MessageNotFound(SERVER_HELLO)), sh;
    }
    err := sh.Unmarshal(message.value);
  }

  method ParseTLS13ServerHelloAndMessage(records: seq<TLSPlaintext>)
    returns (err: Option<Error>, sh: ServerHello, message: bytes)
    ensures fresh(sh)
    ensures err == match ServerHelloIn(records) { case Err(e) => Some(e) case Ok(_) => None }
    ensures ServerHelloIn(records).Ok? ==> HelloAndMessage(sh.Contents(), message) == ServerHelloIn(records).value
  {
    err, sh := ParseServerHelloFromRecords(records);
    if err.Some? {
      return err, sh, [];
    }
    var messages := CollectHandshakeMessages(records);
    if messages.Err? {
      assert false; // they have collected before
    }
    var found := FindFirstHandshakeMessage(messages.value, SERVER_HELLO);
    if found.None? {
      assert false; // it was found before
    }
    return None, sh, found.value;
  }

  function SharedSecretOf(c: Client, extensions: seq<Extension>): Result<bytes, Error> {
    var share :- ShareIn(extensions);
    match c.agree(share.body)
    case None => Err(KeyAgreementFailed)
    case Some(secret) => Ok(secret)
  }

  method DeriveTLS13SharedSecretFromServerHello(c: Client, sh: ServerHello) returns (r: Result<bytes, Error>)
    ensures r == SharedSecretOf(c, sh.extensions)
  {
    var share :- sh.ServerShare();
    var secret := c.agree(share.body);
    return if secret.None? then Err(KeyAgreementFailed) else Ok(secret.value);
  }

  // ----- Steps 4 to 8 -----

  datatype Decrypted = Decrypted(
    sharedSecret: bytes,
    serverHello: bytes,
    secrets: HandshakeSecrets,
    records: seq<TLSPlaintext>,
    flight: Flight)

  /** Parsing, ServerHello, shared secret, handshake secrets, decoding and dispatching. */
  ghost function Decrypt(c: Client, clientHello: bytes, buf: bytes): (r: Result<Decrypted, Error>)
    ensures r.Ok? ==> FlightIn(r.value.records) == Ok(r.value.flight)
    ensures r.Ok? ==>
      HandshakeSecretsFor(c.primitives, r.value.sharedSecret, clientHello, r.value.serverHello) == Ok(r.value.secrets)
  {
    var sorted :- SortedRecords(buf);
    var hello :- ServerHelloIn(sorted.plaintext);
    var shared :- SharedSecretOf(c, hello.hello.extensions);
    var secrets :- HandshakeSecretsFor(c.primitives, shared, clientHello, hello.message);
    var records :- OpenedRaw(c.suite, secrets.serverKey, secrets.serverIV, 0, sorted.ciphertext);
    var flight :- FlightIn(records);
    Ok(Decrypted(shared, hello.message, secrets, records, flight))
  }

  lemma DecryptFails(c: Client, clientHello: bytes, buf: bytes, sorted: Sorted)
    requires SortedRecords(buf) == Ok(sorted) && ServerHelloIn(sorted.plaintext).Err?
    ensures Decrypt(c, clientHello, buf).Err?
  {
  }

  lemma DecryptStops(c: Client, clientHello: bytes, buf: bytes, sorted: Sorted, hello: HelloAndMessage,
                     shared: bytes, secrets: HandshakeSecrets)
    requires SortedRecords(buf) == Ok(sorted) && ServerHelloIn(sorted.plaintext) == Ok(hello)
    requires SharedSecretOf(c, hello.hello.extensions) == Ok(shared)
    requires HandshakeSecretsFor(c.primitives, shared, clientHello, hello.message) == Ok(secrets)
    requires OpenedRaw(c.suite, secrets.serverKey, secrets.serverIV, 0, sorted.ciphertext).Err?
    ensures Decrypt(c, clientHello, buf).Err?
  {
  }

  lemma DecryptGoesOn(c: Client, clientHello: bytes, buf: bytes, sorted: Sorted, hello: HelloAndMessage,
                      shared: bytes, secrets: HandshakeSecrets, records: seq<TLSPlaintext>)
    requires SortedRecords(buf) == Ok(sorted) && ServerHelloIn(sorted.plaintext) == Ok(hello)
    requires SharedSecretOf(c, hello.hello.extensions) == Ok(shared)
    requires HandshakeSecretsFor(c.primitives, shared, clientHello, hello.message) == Ok(secrets)
    requires OpenedRaw(c.suite, secrets.serverKey, secrets.serverIV, 0, sorted.ciphertext) == Ok(records)
    ensures FlightIn(records).Err? ==> Decrypt(c, clientHello, buf).Err?
    ensures FlightIn(records).Ok? ==>
      Decrypt(c, clientHello, buf) == Ok(Decrypted(shared, hello.message, secrets, records, FlightIn(records).value))
  {
  }

  /** Which error a flight that does not decrypt ends in: that of the first step that fails. */
  lemma NotDecryptedFor(c: Client, clientHello: bytes, buf: bytes)
    ensures var r, rs := Decrypt(c, clientHello, buf), RecordsOnly(buf);
            if rs.Err? then r == Err(rs.error)
            else
              var clear := Collected(HandshakeStream(OtherRecords(rs.value)));
              if clear.Err? then r == Err(clear.error)
              else if !Occurs(clear.value, 2) then r == Err(MessageNotFound(2))
              else
                var hello := Unmarshalled(FreshHello(), FirstOf(clear.value, 2).value);
                if hello.err.Some? then r == Err(hello.err.value)
                else if ShareIn(hello.hello.extensions).Err? then r == Err(ShareIn(hello.hello.extensions).error)
                else if c.agree(ShareIn(hello.hello.extensions).value.body).None? then r == Err(KeyAgreementFailed)
                else true
  {
  }

  ghost predicate FlightComplete(c: Client, clientHello: bytes, buf: bytes)
  {
    var d := Decrypt(c, clientHello, buf);
    d.Ok? && d.value.flight.finished.Some?
  }

  method ServerHandshakeFlightComplete(c: Client, buf: bytes, clientHello: bytes) returns (complete: bool)
    ensures complete == FlightComplete(c, clientHello, buf)
  {
    var sorted := ParseRecords(buf);
    if sorted.Err? {
      return false;
    }
    var err, sh, message := ParseTLS13ServerHelloAndMessage(sorted.value.plaintext);
    if err.Some? {
      return false;
    }
    var shared := DeriveTLS13SharedSecretFromServerHello(c, sh);
    if shared.Err? {
      return false;
    }
    var secrets := HandshakeSecretsFor(c.primitives, shared.value, clientHello, message);
    if secrets.Err? {
      return false;
    }
    var records := DecodeTLSCiphertextRecordsRaw(c.suite, sorted.value.ciphertext, secrets.value.serverKey, secrets.value.serverIV, 0);
    if records.Err? {
      return false;
    }
    var e, ee, cert, cv, fin := ParseServerTLS13HandshakeMessages(records.value);
    if e.Some? {
      return false;
    }
    return fin != null;
  }

  // ----- Steps 9 to 12 -----

  function ChainLeaf(c: Client, certificates: Option<seq<bytes>>): Result<bytes, Error> {
    if certificates.None? then Err(EmptyInput("certificate message"))
    else if c.chain(certificates.value).None? then Err(ChainRejected)
    else Ok(c.chain(certificates.value).value)
  }

  function SignatureFault(c: Client, leaf: bytes, s: Signature, transcript: bytes): Option<Error> {
    if s.signature == [] then Some(EmptyInput("signature"))
    else if transcript == [] then Some(EmptyInput("transcript"))
    else if !c.verify(leaf, s.algorithm, s.signature, transcript) then Some(SignatureRejected)
    else None
  }

  /** Steps 9 and 10. A transcript before a message builds only if the message is there, so what
      the dispatcher made of it can be used. */
  ghost function ServerSignature(c: Client, clientHello: bytes, d: Decrypted): Option<Error>
    requires FlightIn(d.records) == Ok(d.flight)
  {
    var leaf := ChainLeaf(c, d.flight.certificate);
    if leaf.Err? then Some(leaf.error)
    else
      var transcript := TranscriptBefore(clientHello, d.serverHello, d.records, CERTIFICATE_VERIFY);
      if transcript.Err? then Some(transcript.error)
      else
        FlightHasWhatOccurs(d.records, CERTIFICATE_VERIFY);
        SignatureFault(c, leaf.value, d.flight.certificateVerify.value, transcript.value)
  }

  /** Step 11. */
  ghost function ServerFinished(c: Client, clientHello: bytes, d: Decrypted): Option<Error>
    requires FlightIn(d.records) == Ok(d.flight)
  {
    var transcript := TranscriptBefore(clientHello, d.serverHello, d.records, FINISHED);
    if transcript.Err? then Some(transcript.error)
    else
      FlightHasWhatOccurs(d.records, FINISHED);
      VerifyTLS13ServerFinished(c.primitives, d.secrets.serverTrafficSecret, transcript.value, d.flight.finished.value)
  }

  ghost function Authenticate(c: Client, clientHello: bytes, d: Decrypted): Result<SessionKeys, Error>
    requires FlightIn(d.records) == Ok(d.flight)
  {
    var unsigned := ServerSignature(c, clientHello, d);
    if unsigned.Some? then Err(unsigned.value)
    else
      var unfinished := ServerFinished(c, clientHello, d);
      if unfinished.Some? then Err(unfinished.value)
      else SessionKeysFor(c.primitives, d.sharedSecret, clientHello, d.serverHello, d.records)
  }

  /** The dispatcher's pointers for CertificateVerify and Finished are set exactly when a
      transcript before that message can be built. */
  lemma FlightHasWhatOccurs(records: seq<TLSPlaintext>, typ: byte)
    requires FlightIn(records).Ok?
    ensures var f := FlightIn(records).value;
            var ms := Collected(HandshakeStream(records));
            && ms.Ok?
            && (typ == CERTIFICATE_VERIFY ==> (f.certificateVerify.Some? <==> Occurs(ms.value, typ)))
            && (typ == FINISHED ==> (f.finished.Some? <==> Occurs(ms.value, typ)))
  {
    var ms := Collected(HandshakeStream(records)).value;
    CollectedExact(HandshakeStream(records), ms, []);
    DispatchExact(ms);
  }

  ghost function Handshake4To12(c: Client, clientHello: bytes, flight: bytes): Result<SessionKeys, Error>
  {
    var d :- Decrypt(c, clientHello, flight);
    Authenticate(c, clientHello, d)
  }

  /** No dereference in here can meet a nil pointer. */
  method DoHandshake(c: Client, clientHello: bytes, flight: bytes) returns (r: Result<SessionKeys, Error>)
    ensures r == Handshake4To12(c, clientHello, flight)
  {
    var sorted :- ParseRecords(flight);
    var err, sh, serverHelloMessage := ParseTLS13ServerHelloAndMessage(sorted.plaintext);
    if err.Some? {
      return Err(err.value);
    }
    var shared :- DeriveTLS13SharedSecretFromServerHello(c, sh);
    var secrets :- HandshakeSecretsFor(c.primitives, shared, clientHello, serverHelloMessage);
    var records :- DecodeTLSCiphertextRecordsRaw(c.suite, sorted.ciphertext, secrets.serverKey, secrets.serverIV, 0);
    var e, ee, cert, cv, fin := ParseServerTLS13HandshakeMessages(records);
    if e.Some? {
      return Err(e.value);
    }
    var leaf :- ChainLeaf(c, if cert == null then None else Some(cert.certificates));
    var beforeVerify :- BuildTLS13HandshakeTranscriptBeforeMessageType(clientHello, serverHelloMessage, records, CERTIFICATE_VERIFY);
    FlightHasWhatOccurs(records, CERTIFICATE_VERIFY);
    var fault := SignatureFault(c, leaf, Signature(cv.signatureAlgorithm, cv.signature), beforeVerify);
    if fault.Some? {
      return Err(fault.value);
    }
    var beforeFinished :- BuildTLS13HandshakeTranscriptBeforeMessageType(clientHello, serverHelloMessage, records, FINISHED);
    FlightHasWhatOccurs(records, FINISHED);
    var wrong := VerifyTLS13ServerFinished(c.primitives, secrets.serverTrafficSecret, beforeFinished, fin.verifyData);
    if wrong.Some? {
      return Err(wrong.value);
    }
    r := DeriveTLS13ChaCha20ClientSessionKeys(c.primitives, shared, clientHello, serverHelloMessage, records);
  }

  /** Once the flight counts as complete, nothing up to the dispatcher can fail on it, the
      Finished is there, the transcript before it builds, and so do the session keys. */
  lemma FlightCompleteIsSound(c: Client, clientHello: bytes, buf: bytes)
    requires LawfulPrimitives(c.primitives) && FlightComplete(c, clientHello, buf)
    ensures var d := Decrypt(c, clientHello, buf).value;
            && d.flight.finished.Some?
            && TranscriptBefore(clientHello, d.serverHello, d.records, FINISHED).Ok?
            && SessionKeysFor(c.primitives, d.sharedSecret, clientHello, d.serverHello, d.records).Ok?
  {
    DecryptedIsUsable(c, clientHello, buf);
    FlightHasWhatOccurs(Decrypt(c, clientHello, buf).value.records, FINISHED);
  }

  /** The chain is accepted, and its leaf signed the messages before CertificateVerify. */
  ghost predicate Signed(c: Client, clientHello: bytes, d: Decrypted) {
    var ms := Collected(HandshakeStream(d.records));
    && ms.Ok? && d.flight.certificate.Some? && c.chain(d.flight.certificate.value).Some?
    && d.flight.certificateVerify.Some?
    && d.flight.certificateVerify.value.signature != []
    && c.verify(c.chain(d.flight.certificate.value).value,
                d.flight.certificateVerify.value.algorithm, d.flight.certificateVerify.value.signature,
                clientHello + d.serverHello + Concat(ms.value[..IndexOf(ms.value, CERTIFICATE_VERIFY)]))
  }

  /** The Finished carries the MAC over the messages before it. */
  ghost predicate MacMatches(c: Client, clientHello: bytes, d: Decrypted) {
    var ms := Collected(HandshakeStream(d.records));
    && ms.Ok? && d.flight.finished.Some?
    && FinishedMac(c.primitives, d.secrets.serverTrafficSecret,
                   clientHello + d.serverHello + Concat(ms.value[..IndexOf(ms.value, FINISHED)])) == Ok(d.flight.finished.value)
  }

  lemma SignatureExact(c: Client, clientHello: bytes, d: Decrypted)
    requires FlightIn(d.records) == Ok(d.flight) && clientHello != []
    ensures ServerSignature(c, clientHello, d).None? <==> Signed(c, clientHello, d)
  {
    FlightHasWhatOccurs(d.records, CERTIFICATE_VERIFY);
  }

  lemma FinishedExact(c: Client, clientHello: bytes, d: Decrypted)
    requires LawfulPrimitives(c.primitives) && FlightIn(d.records) == Ok(d.flight)
    requires clientHello != [] && d.secrets.serverTrafficSecret != []
    ensures ServerFinished(c, clientHello, d).None? <==> MacMatches(c, clientHello, d)
  {
    FlightHasWhatOccurs(d.records, FINISHED);
  }

  lemma DecryptedIsUsable(c: Client, clientHello: bytes, buf: bytes)
    requires LawfulPrimitives(c.primitives) && Decrypt(c, clientHello, buf).Ok?
    ensures var d := Decrypt(c, clientHello, buf).value;
            && clientHello != [] && d.secrets.serverTrafficSecret != []
            && SessionKeysFor(c.primitives, d.sharedSecret, clientHello, d.serverHello, d.records).Ok?
  {
    var d := Decrypt(c, clientHello, buf).value;
    FlightHasWhatOccurs(d.records, FINISHED);
    HandshakeSecretsExact(c.primitives, d.sharedSecret, clientHello, d.serverHello);
    SessionKeysFollowTheSchedule(c.primitives, d.sharedSecret, clientHello, d.serverHello, HandshakeStream(d.records));
  }

  /** The handshake gives session keys exactly when the flight is complete, the chain is accepted,
      the signature covers the messages before CertificateVerify, and the Finished MAC those
      before Finished. */
  lemma HandshakeExact(c: Client, clientHello: bytes, flight: bytes)
    requires LawfulPrimitives(c.primitives)
    ensures Handshake4To12(c, clientHello, flight).Ok?
       <==> && FlightComplete(c, clientHello, flight)
            && Signed(c, clientHello, Decrypt(c, clientHello, flight).value)
            && MacMatches(c, clientHello, Decrypt(c, clientHello, flight).value)
  {
    if Decrypt(c, clientHello, flight).Ok? {
      HandshakeFrom(c, clientHello, flight, Decrypt(c, clientHello, flight).value);
    }
  }

  lemma HandshakeFrom(c: Client, clientHello: bytes, flight: bytes, d: Decrypted)
    requires LawfulPrimitives(c.primitives) && Decrypt(c, clientHello, flight) == Ok(d)
    ensures var r := Handshake4To12(c, clientHello, flight);
            && (r.Ok? <==> Signed(c, clientHello, d) && MacMatches(c, clientHello, d))
            && (r.Ok? ==> r == SessionKeysFor(c.primitives, d.sharedSecret, clientHello, d.serverHello, d.records))
  {
    DecryptedIsUsable(c, clientHello, flight);
    SignatureExact(c, clientHello, d);
    FinishedExact(c, clientHello, d);
  }

  /** Which error a decrypted flight ends in: that of the first check it does not pass. */
  lemma RefusedFor(c: Client, clientHello: bytes, flight: bytes, d: Decrypted, ms: seq<bytes>)
    requires LawfulPrimitives(c.primitives) && Decrypt(c, clientHello, flight) == Ok(d)
    requires Collected(HandshakeStream(d.records)) == Ok(ms)
    ensures var r := Handshake4To12(c, clientHello, flight);
            var f := d.flight;
            if f.certificate.None? then r == Err(EmptyInput("certificate message"))
            else if c.chain(f.certificate.value).None? then r == Err(ChainRejected)
            else if f.certificateVerify.None? then r == Err(MessageNotFound(15))
            else if f.certificateVerify.value.signature == [] then r == Err(EmptyInput("signature"))
            else if !c.verify(c.chain(f.certificate.value).value, f.certificateVerify.value.algorithm,
                              f.certificateVerify.value.signature,
                              clientHello + d.serverHello + Concat(ms[..IndexOf(ms, CERTIFICATE_VERIFY)]))
            then r == Err(SignatureRejected)
            else if f.finished.None? then r == Err(MessageNotFound(20))
            else r.Err? ==> r == Err(InvalidFinished)
  {
    DecryptedIsUsable(c, clientHello, flight);
    SignatureRefusedFor(c, clientHello, d, ms);
    FinishedRefusedFor(c, clientHello, d, ms);
  }

  lemma SignatureRefusedFor(c: Client, clientHello: bytes, d: Decrypted, ms: seq<bytes>)
    requires FlightIn(d.records) == Ok(d.flight) && Collected(HandshakeStream(d.records)) == Ok(ms) && clientHello != []
    ensures var r, f := ServerSignature(c, clientHello, d), d.flight;
            if f.certificate.None? then r == Some(EmptyInput("certificate message"))
            else if c.chain(f.certificate.value).None? then r == Some(ChainRejected)
            else if f.certificateVerify.None? then r == Some(MessageNotFound(15))
            else if f.certificateVerify.value.signature == [] then r == Some(EmptyInput("signature"))
            else if !c.verify(c.chain(f.certificate.value).value, f.certificateVerify.value.algorithm,
                              f.certificateVerify.value.signature,
                              clientHello + d.serverHello + Concat(ms[..IndexOf(ms, CERTIFICATE_VERIFY)]))
            then r == Some(SignatureRejected)
            else r == None
  {
    FlightHasWhatOccurs(d.records, CERTIFICATE_VERIFY);
  }

  lemma FinishedRefusedFor(c: Client, clientHello: bytes, d: Decrypted, ms: seq<bytes>)
    requires LawfulPrimitives(c.primitives) && FlightIn(d.records) == Ok(d.flight)
    requires Collected(HandshakeStream(d.records)) == Ok(ms) && clientHello != [] && d.secrets.serverTrafficSecret != []
    ensures var r := ServerFinished(c, clientHello, d);
            if d.flight.finished.None? then r == Some(MessageNotFound(20)) else r == None || r == Some(InvalidFinished)
  {
    FlightHasWhatOccurs(d.records, FINISHED);
    FinishedIsNotEmpty(d.records, ms);
  }

  lemma FinishedIsNotEmpty(records: seq<TLSPlaintext>, ms: seq<bytes>)
    requires FlightIn(records).Ok? && Collected(HandshakeStream(records)) == Ok(ms)
    ensures var f := FlightIn(records).value; f.finished.Some? ==> f.finished.value != []
  {
    CollectedExact(HandshakeStream(records), ms, []);
    DispatchExact(ms);
    if Occurs(ms, FINISHED) {
      assert IsMessage(ms[IndexOf(ms, FINISHED)]);
    }
  }

  // ----- The client's answer -----

  function BuildClientFinishedRecord(c: Client, keys: SessionKeys, sn: uint64): Result<TLSPlaintext, Error>
    requires |keys.handshake.clientKey| == KEY_SIZE ==> |keys.handshake.clientIV| == NONCE_SIZE
  {
    var finished :- NewHandshake(FINISHED, keys.clientFinished);
    Sealed(c.suite, keys.handshake.clientKey, keys.handshake.clientIV, sn, HANDSHAKE, finished.Marshal())
  }

  /** A peer with the client's handshake keys reads the record as one Finished message that
      carries the MAC over the session transcript. */
  lemma ClientFinishedArrives(c: Client, sharedSecret: bytes, clientHello: bytes, serverHello: bytes,
                              records: seq<TLSPlaintext>, sn: uint64)
    requires LawfulClient(c) && SessionKeysFor(c.primitives, sharedSecret, clientHello, serverHello, records).Ok?
    ensures var keys := SessionKeysFor(c.primitives, sharedSecret, clientHello, serverHello, records).value;
            var hs := keys.handshake;
            && |hs.clientKey| == KEY_SIZE && |hs.clientIV| == NONCE_SIZE
            && var rec := BuildClientFinishedRecord(c, keys, sn);
            && rec.Ok? && rec.value.WellFramed()
            && var plain := OpenedRaw(c.suite, hs.clientKey, hs.clientIV, sn, [rec.value]);
            && plain.Ok? && FlightIn(plain.value) == Ok(NOTHING.(finished := Some(keys.clientFinished)))
            && FinishedMac(c.primitives, hs.clientTrafficSecret, SessionTranscript(clientHello, serverHello, records).value)
               == Ok(keys.clientFinished)
  {
    var keys := SessionKeysFor(c.primitives, sharedSecret, clientHello, serverHello, records).value;
    var hs := keys.handshake;
    SessionKeysUsable(c.primitives, sharedSecret, clientHello, serverHello, records);
    var m := NewHandshake(FINISHED, keys.clientFinished).value.Marshal();
    NewHandshakeCollects(FINISHED, keys.clientFinished);
    SealedOpens(c.suite, hs.clientKey, hs.clientIV, sn, HANDSHAKE, m);
    var rec := Sealed(c.suite, hs.clientKey, hs.clientIV, sn, HANDSHAKE, m).value;
    SingleRecord(c.suite, hs.clientKey, hs.clientIV, sn, rec);
    var plain := [PlainRecord(rec, Plain(m, HANDSHAKE))];
    assert plain[1..] == [] && m + [] == m;
    assert HandshakeStream(plain) == m;
    OneFinished(m);
  }

  /** The sizes that the cipher checks, for the handshake and for application data, both ways. */
  predicate UsableKeys(k: SessionKeys) {
    && |k.handshake.clientKey| == |k.handshake.serverKey| == |k.clientKey| == |k.serverKey| == KEY_SIZE
    && |k.handshake.clientIV| == |k.handshake.serverIV| == |k.clientIV| == |k.serverIV| == NONCE_SIZE
    && |k.clientFinished| == HASH_LEN
  }

  lemma SessionKeysUsable(p: Primitives, sharedSecret: bytes, clientHello: bytes, serverHello: bytes, records: seq<TLSPlaintext>)
    requires LawfulPrimitives(p) && SessionKeysFor(p, sharedSecret, clientHello, serverHello, records).Ok?
    ensures var keys := SessionKeysFor(p, sharedSecret, clientHello, serverHello, records).value;
            var hs := keys.handshake;
            && UsableKeys(keys)
            && SessionTranscript(clientHello, serverHello, records).Ok?
            && FinishedMac(p, hs.clientTrafficSecret, SessionTranscript(clientHello, serverHello, records).value)
               == Ok(keys.clientFinished)
  {
  }

  lemma OneFinished(m: bytes)
    requires IsMessage(m) && m[0] == FINISHED
    ensures Dispatched([m], 0, NOTHING) == Ok(NOTHING.(finished := Some(m[HANDSHAKE_HEADER_LEN..])))
  {
    FinishedOfMessage([], m);
    assert [m][0] == m;
  }
}
