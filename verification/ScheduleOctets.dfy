/** The key schedule written out: the octets that HKDF and HMAC are given (sections 4.4.4, 7.1 and 7.3
    of RFC 8446). */
module ScheduleOctets {
  import opened Bytes
  import opened Protocol
  import opened KeySchedule

  // Each label of the schedule as it stands in the HkdfLabel structure, with its length before it.
  const DERIVED_OCTETS: bytes :=
    [13, 116, 108, 115, 49, 51, 32, 100, 101, 114, 105, 118, 101, 100]
  const CLIENT_HANDSHAKE_OCTETS: bytes :=
    [18, 116, 108, 115, 49, 51, 32, 99, 32, 104, 115, 32, 116, 114, 97, 102, 102, 105, 99]
  const SERVER_HANDSHAKE_OCTETS: bytes :=
    [18, 116, 108, 115, 49, 51, 32, 115, 32, 104, 115, 32, 116, 114, 97, 102, 102, 105, 99]
  const KEY_OCTETS: bytes :=
    [9, 116, 108, 115, 49, 51, 32, 107, 101, 121]
  const IV_OCTETS: bytes :=
    [8, 116, 108, 115, 49, 51, 32, 105, 118]
  const FINISHED_KEY_OCTETS: bytes :=
    [14, 116, 108, 115, 49, 51, 32, 102, 105, 110, 105, 115, 104, 101, 100]
  const CLIENT_APPLICATION_OCTETS: bytes :=
    [18, 116, 108, 115, 49, 51, 32, 99, 32, 97, 112, 32, 116, 114, 97, 102, 102, 105, 99]
  const SERVER_APPLICATION_OCTETS: bytes :=
    [18, 116, 108, 115, 49, 51, 32, 115, 32, 97, 112, 32, 116, 114, 97, 102, 102, 105, 99]

  lemma LowSixteen(n: nat)
    ensures n % 0x1_0000 / 256 == n / 256 % 256 && n % 0x1_0000 % 256 == n % 256
  {
    var q, m := n / 0x1_0000, n % 0x1_0000;
    assert n == 256 * (256 * q + m / 256) + m % 256;
    assert n / 256 == 256 * q + m / 256;
  }

  lemma Be16OfLow(n: nat)
    ensures Be16(Uint16(n)) == [n / 256 % 256, n % 256]
  {
    LowSixteen(n);
  }

  lemma LabelIs(name: string, octets: bytes, context: bytes, n: nat)
    requires |name| <= 20 && |context| <= 255 && octets == [|FullLabel(Ascii(name))|] + FullLabel(Ascii(name))
    ensures HkdfInfo(Ascii(name), context, n) == Ok([n / 256 % 256, n % 256] + octets + [|context|] + context)
  {
    var full := FullLabel(Ascii(name));
    Be16OfLow(n);
    InfoBuilt(Be16(Uint16(n)), full, context);
    Associate(Be16(Uint16(n)), [|full|], full);
  }

  predicate Spells(octets: bytes, name: string) {
    octets == [|FullLabel(Ascii(name))|] + FullLabel(Ascii(name))
  }

  lemma DerivedSpelled()
    ensures Spells(DERIVED_OCTETS, DERIVED)
  {
  }

  lemma ClientHandshakeSpelled()
    ensures Spells(CLIENT_HANDSHAKE_OCTETS, CLIENT_HANDSHAKE)
  {
  }

  lemma ServerHandshakeSpelled()
    ensures Spells(SERVER_HANDSHAKE_OCTETS, SERVER_HANDSHAKE)
  {
  }

  lemma KeyLabelsSpelled()
    ensures Spells(KEY_OCTETS, KEY)
    ensures Spells(IV_OCTETS, IV)
  {
  }

  lemma FinishedSpelled()
    ensures Spells(FINISHED_KEY_OCTETS, FINISHED_KEY)
  {
  }

  lemma ClientApplicationSpelled()
    ensures Spells(CLIENT_APPLICATION_OCTETS, CLIENT_APPLICATION)
  {
  }

  lemma ServerApplicationSpelled()
    ensures Spells(SERVER_APPLICATION_OCTETS, SERVER_APPLICATION)
  {
  }

  lemma LabelsSpelled()
    ensures Spells(DERIVED_OCTETS, DERIVED)
    ensures Spells(CLIENT_HANDSHAKE_OCTETS, CLIENT_HANDSHAKE)
    ensures Spells(SERVER_HANDSHAKE_OCTETS, SERVER_HANDSHAKE)
    ensures Spells(KEY_OCTETS, KEY)
    ensures Spells(IV_OCTETS, IV)
    ensures Spells(FINISHED_KEY_OCTETS, FINISHED_KEY)
    ensures Spells(CLIENT_APPLICATION_OCTETS, CLIENT_APPLICATION)
    ensures Spells(SERVER_APPLICATION_OCTETS, SERVER_APPLICATION)
  {
    DerivedSpelled();
    ClientHandshakeSpelled();
    ServerHandshakeSpelled();
    KeyLabelsSpelled();
    FinishedSpelled();
    ClientApplicationSpelled();
    ServerApplicationSpelled();
  }

  /** The octets that HKDF is given for each label, any context and any length. */
  lemma LabelInfos(context: bytes, n: nat)
    requires |context| <= 255
    ensures var length: bytes, tail: bytes := [n / 256 % 256, n % 256], [|context|] + context;
            && HkdfInfo(Ascii(DERIVED), context, n) == Ok(length + DERIVED_OCTETS + tail)
            && HkdfInfo(Ascii(CLIENT_HANDSHAKE), context, n) == Ok(length + CLIENT_HANDSHAKE_OCTETS + tail)
            && HkdfInfo(Ascii(SERVER_HANDSHAKE), context, n) == Ok(length + SERVER_HANDSHAKE_OCTETS + tail)
            && HkdfInfo(Ascii(KEY), context, n) == Ok(length + KEY_OCTETS + tail)
            && HkdfInfo(Ascii(IV), context, n) == Ok(length + IV_OCTETS + tail)
            && HkdfInfo(Ascii(FINISHED_KEY), context, n) == Ok(length + FINISHED_KEY_OCTETS + tail)
            && HkdfInfo(Ascii(CLIENT_APPLICATION), context, n) == Ok(length + CLIENT_APPLICATION_OCTETS + tail)
            && HkdfInfo(Ascii(SERVER_APPLICATION), context, n) == Ok(length + SERVER_APPLICATION_OCTETS + tail)
  {
    LabelsSpelled();
    LabelInfo(DERIVED, DERIVED_OCTETS, context, n);
    LabelInfo(CLIENT_HANDSHAKE, CLIENT_HANDSHAKE_OCTETS, context, n);
    LabelInfo(SERVER_HANDSHAKE, SERVER_HANDSHAKE_OCTETS, context, n);
    LabelInfo(KEY, KEY_OCTETS, context, n);
    LabelInfo(IV, IV_OCTETS, context, n);
    LabelInfo(FINISHED_KEY, FINISHED_KEY_OCTETS, context, n);
    LabelInfo(CLIENT_APPLICATION, CLIENT_APPLICATION_OCTETS, context, n);
    LabelInfo(SERVER_APPLICATION, SERVER_APPLICATION_OCTETS, context, n);
  }

  lemma LabelInfo(name: string, octets: bytes, context: bytes, n: nat)
    requires |name| <= 20 && |context| <= 255 && Spells(octets, name)
    ensures HkdfInfo(Ascii(name), context, n) == Ok([n / 256 % 256, n % 256] + octets + ([|context|] + context))
  {
    LabelIs(name, octets, context, n);
    Associate([n / 256 % 256, n % 256] + octets, [|context|], context);
  }

  /** The info of a derivation with a hash as context, and of one without context. */
  lemma InfoWithHash(name: string, octets: bytes, hash: bytes)
    requires |name| <= 20 && |hash| == 32 && Spells(octets, name)
    ensures ExpandedInfo(Ascii(name), hash, HASH_LEN) == [0, 32] + octets + ([32] + hash)
  {
    LabelInfo(name, octets, hash, 32);
  }

  lemma InfoWithout(name: string, octets: bytes, n: byte)
    requires |name| <= 20 && Spells(octets, name)
    ensures ExpandedInfo(Ascii(name), [], n) == [0, n] + octets + [0]
  {
    LabelInfo(name, octets, [], n);
    assert [0] + [] == [0];
  }

  lemma DeriveSecretOctets(p: Primitives, secret: bytes, name: string, octets: bytes, messages: bytes)
    requires LawfulPrimitives(p) && |name| <= 20 && Spells(octets, name)
    ensures DeriveSecret(p, secret, name, messages) == p.expand(secret, [0, 32] + octets + ([32] + p.sha256(messages)), 32)
  {
    InfoWithHash(name, octets, p.sha256(messages));
  }

  lemma TrafficValueOctets(p: Primitives, secret: bytes, name: string, octets: bytes, n: byte)
    requires |name| <= 20 && Spells(octets, name)
    ensures TrafficValue(p, secret, name, n) == p.expand(secret, [0, n] + octets + [0], n)
  {
    InfoWithout(name, octets, n);
  }

  /** The handshake secret: extracted from the shared secret with, as salt, what is derived from the
      secret that zeros give with a salt of zeros. */
  lemma HandshakeSecretOctets(p: Primitives, sharedSecret: bytes)
    requires LawfulPrimitives(p)
    ensures var zeros: bytes := seq(32, i => 0);
            var salt := p.expand(p.hmac(zeros, zeros), [0, 32] + DERIVED_OCTETS + ([32] + p.sha256([])), 32);
            HandshakeSecret(p, sharedSecret) == p.hmac(salt, sharedSecret)
  {
    LabelsSpelled();
    assert Zeros(32) == seq(32, i => 0);
    DeriveSecretOctets(p, EarlySecret(p), DERIVED, DERIVED_OCTETS, []);
  }

  /** The handshake secrets, with nothing but the hash functions and octets. */
  lemma HandshakeSecretsOctets(p: Primitives, sharedSecret: bytes, clientHello: bytes, serverHello: bytes)
    requires LawfulPrimitives(p) && sharedSecret != [] && clientHello != [] && serverHello != []
    ensures var zeros: bytes := seq(32, i => 0);
            var salt := p.expand(p.hmac(zeros, zeros), [0, 32] + DERIVED_OCTETS + ([32] + p.sha256([])), 32);
            var secret, hash := p.hmac(salt, sharedSecret), p.sha256(clientHello + serverHello);
            var c := p.expand(secret, [0, 32] + CLIENT_HANDSHAKE_OCTETS + ([32] + hash), 32);
            var s := p.expand(secret, [0, 32] + SERVER_HANDSHAKE_OCTETS + ([32] + hash), 32);
            HandshakeSecretsFor(p, sharedSecret, clientHello, serverHello) == Ok(HandshakeSecrets(
              hash, secret, c, s,
              p.expand(c, [0, 32] + KEY_OCTETS + [0], 32), p.expand(c, [0, 12] + IV_OCTETS + [0], 12),
              p.expand(s, [0, 32] + KEY_OCTETS + [0], 32), p.expand(s, [0, 12] + IV_OCTETS + [0], 12)))
  {
    LabelsSpelled();
    HandshakeSecretOctets(p, sharedSecret);
    HandshakeSecretsFollowTheSchedule(p, sharedSecret, clientHello, serverHello);
    var secret := HandshakeSecret(p, sharedSecret);
    DeriveSecretOctets(p, secret, CLIENT_HANDSHAKE, CLIENT_HANDSHAKE_OCTETS, clientHello + serverHello);
    DeriveSecretOctets(p, secret, SERVER_HANDSHAKE, SERVER_HANDSHAKE_OCTETS, clientHello + serverHello);
    var c := DeriveSecret(p, secret, CLIENT_HANDSHAKE, clientHello + serverHello);
    var s := DeriveSecret(p, secret, SERVER_HANDSHAKE, clientHello + serverHello);
    TrafficValueOctets(p, c, KEY, KEY_OCTETS, 32);
    TrafficValueOctets(p, c, IV, IV_OCTETS, 12);
    TrafficValueOctets(p, s, KEY, KEY_OCTETS, 32);
    TrafficValueOctets(p, s, IV, IV_OCTETS, 12);
  }

  /** The Finished MAC: over the hash of the transcript, under the key derived from the secret. */
  lemma FinishedMacOctets(p: Primitives, secret: bytes, transcript: bytes)
    ensures FinishedMac(p, secret, transcript)
         == Ok(p.hmac(p.expand(secret, [0, 32] + FINISHED_KEY_OCTETS + [0], 32), p.sha256(transcript)))
  {
    LabelsSpelled();
    FinishedMacFollowsTheSchedule(p, secret, transcript);
    TrafficValueOctets(p, secret, FINISHED_KEY, FINISHED_KEY_OCTETS, 32);
  }

  lemma MasterSecretOctets(p: Primitives, sharedSecret: bytes)
    requires LawfulPrimitives(p)
    ensures var salt := p.expand(HandshakeSecret(p, sharedSecret), [0, 32] + DERIVED_OCTETS + ([32] + p.sha256([])), 32);
            MasterSecret(p, sharedSecret) == p.hmac(salt, seq(32, i => 0))
  {
    LabelsSpelled();
    assert Zeros(32) == seq(32, i => 0);
    DeriveSecretOctets(p, HandshakeSecret(p, sharedSecret), DERIVED, DERIVED_OCTETS, []);
  }

  /** The session keys from the handshake secrets, with nothing but the hash functions and octets. */
  lemma SessionKeysOctets(p: Primitives, sharedSecret: bytes, clientHello: bytes, serverHello: bytes, messages: bytes)
    requires LawfulPrimitives(p) && sharedSecret != [] && clientHello != [] && serverHello != []
    ensures var hs := HandshakeSecretsFor(p, sharedSecret, clientHello, serverHello).value;
            var hash := p.sha256(clientHello + serverHello + messages);
            var salt := p.expand(hs.handshakeSecret, [0, 32] + DERIVED_OCTETS + ([32] + p.sha256([])), 32);
            var master := p.hmac(salt, seq(32, i => 0));
            var c := p.expand(master, [0, 32] + CLIENT_APPLICATION_OCTETS + ([32] + hash), 32);
            var s := p.expand(master, [0, 32] + SERVER_APPLICATION_OCTETS + ([32] + hash), 32);
            SessionKeysOver(p, sharedSecret, clientHello, serverHello, messages) == Ok(SessionKeys(
              hash, p.hmac(p.expand(hs.clientTrafficSecret, [0, 32] + FINISHED_KEY_OCTETS + [0], 32), hash), hs,
              p.expand(c, [0, 32] + KEY_OCTETS + [0], 32), p.expand(c, [0, 12] + IV_OCTETS + [0], 12),
              p.expand(s, [0, 32] + KEY_OCTETS + [0], 32), p.expand(s, [0, 12] + IV_OCTETS + [0], 12)))
  {
    LabelsSpelled();
    var whole := clientHello + serverHello + messages;
    var hs := HandshakeSecretsFor(p, sharedSecret, clientHello, serverHello).value;
    HandshakeSecretsFollowTheSchedule(p, sharedSecret, clientHello, serverHello);
    MasterSecretOctets(p, sharedSecret);
    SessionKeysFollowTheSchedule(p, sharedSecret, clientHello, serverHello, messages);
    FinishedMacOctets(p, hs.clientTrafficSecret, whole);
    var master := MasterSecret(p, sharedSecret);
    DeriveSecretOctets(p, master, CLIENT_APPLICATION, CLIENT_APPLICATION_OCTETS, whole);
    DeriveSecretOctets(p, master, SERVER_APPLICATION, SERVER_APPLICATION_OCTETS, whole);
    var c := DeriveSecret(p, master, CLIENT_APPLICATION, whole);
    var s := DeriveSecret(p, master, SERVER_APPLICATION, whole);
    TrafficValueOctets(p, c, KEY, KEY_OCTETS, 32);
    TrafficValueOctets(p, c, IV, IV_OCTETS, 12);
    TrafficValueOctets(p, s, KEY, KEY_OCTETS, 32);
    TrafficValueOctets(p, s, IV, IV_OCTETS, 12);
  }

  /** When a derivation is refused, and why: for the label first, then the context, then the output. */
  lemma ExpandLabelErrors(p: Primitives, secret: bytes, name: bytes, context: bytes, length: nat)
    ensures var r := ExpandLabel(p, secret, name, context, length);
            if |name| > 249 then r == Err(HkdfLabelTooLong)
            else if |context| > 255 then r == Err(HkdfContextTooLong)
            else if length > 8160 then r == Err(HkdfOutputTooLong)
            else r.Ok?
  {
  }

  /** Which input is missed first. */
  lemma SecretsErrors(p: Primitives, sharedSecret: bytes, clientHello: bytes, serverHello: bytes)
    ensures var r := HandshakeSecretsFor(p, sharedSecret, clientHello, serverHello);
            && (sharedSecret == [] ==> r == Err(EmptyInput("shared secret")))
            && (sharedSecret != [] && clientHello == [] ==> r == Err(EmptyInput("client hello")))
            && (sharedSecret != [] && clientHello != [] && serverHello == [] ==> r == Err(EmptyInput("server hello")))
  {
  }

  /** Why a Finished is refused. */
  lemma FinishedErrors(p: Primitives, secret: bytes, transcript: bytes, verifyData: bytes)
    ensures var r := VerifyTLS13ServerFinished(p, secret, transcript, verifyData);
            && (secret == [] ==> r == Some(EmptyInput("server traffic secret")))
            && (secret != [] && transcript == [] ==> r == Some(EmptyInput("transcript")))
            && (secret != [] && transcript != [] && verifyData == [] ==> r == Some(EmptyInput("verify data")))
            && (secret != [] && transcript != [] && verifyData != [] ==> r == None || r == Some(InvalidFinished))
  {
    FinishedMacOctets(p, secret, transcript);
  }
}
