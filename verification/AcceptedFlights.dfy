/** Flights that the client accepts: in the order of the standard, and in others. */
module AcceptedFlights {
  import opened Bytes
  import opened Protocol
  import opened Record
  import opened Wire
  import opened Reassembly
  import opened ServerHellos
  import opened ServerMessages
  import opened Dispatch
  import opened KeySchedule
  import opened Flow
  import opened HonestFlight
  import opened ServerFlights

  ghost function MacOver(c: Client, s: Server, transcript: bytes): (mac: bytes)
    requires LawfulClient(c)
    ensures |mac| == HASH_LEN
  {
    FinishedMac(c.primitives, s.secrets.serverTrafficSecret, transcript).value
  }

  ghost predicate Trusted(c: Client, der: bytes, signature: Signature, transcript: bytes) {
    && c.chain([der]).Some? && signature.signature != []
    && c.verify(c.chain([der]).value, signature.algorithm, signature.signature, transcript)
  }

  /** Whatever the client's hello, whatever valid server hello with a share it can agree on, whatever
      messages in front, whatever certificate and signature: there is an honest flight with them,
      and the client accepts it exactly when it accepts the chain and the signature over the
      messages before it. Nothing else that the standard asks for is looked at. */
  lemma HonestFlightsExist(c: Client, clientHello: bytes, h: Hello, front: seq<bytes>, der: bytes, signature: Signature)
    returns (items: seq<Item>, ms: seq<bytes>)
    requires Agreeable(c, clientHello, h) && Leads(front) && |der| <= MAX_CERTIFICATE && |signature.signature| <= 0xffff
    ensures var s := ServerOf(c, clientHello, h);
            var before := front + [CertificateMessage(der), VerifyMessage(signature)];
            && Honest(c, clientHello, items, ms, s)
            && ms == InOrder(front, der, signature, MacOver(c, s, clientHello + s.hello + Concat(before)))
            && (Handshake4To12(c, clientHello, MarshalAll(Records(c, items, s))).Ok?
                <==> Trusted(c, der, signature, clientHello + HelloMessage(h) + Concat(front + [CertificateMessage(der)])))
  {
    var s := ServerOf(c, clientHello, h);
    var before := front + [CertificateMessage(der), VerifyMessage(signature)];
    var mac := MacOver(c, s, clientHello + s.hello + Concat(before));
    ms := InOrder(front, der, signature, mac);
    items := FlightItems(h, ms);
    InOrderSays(front, der, signature, mac);
    FlightAnswers(c, clientHello, h, ms, Proven(FlightOf(front), der, signature, mac));
    AnswerDecides(c, clientHello, items, ms, s);
  }

  /** The order of the messages is not checked: a flight with Finished before CertificateVerify is
      accepted just as well, with a signature that covers the Finished. */
  lemma OrderIsNotChecked(c: Client, clientHello: bytes, h: Hello, front: seq<bytes>, der: bytes, signature: Signature)
    returns (items: seq<Item>, ms: seq<bytes>)
    requires Agreeable(c, clientHello, h) && Leads(front) && |der| <= MAX_CERTIFICATE && |signature.signature| <= 0xffff
    ensures var s := ServerOf(c, clientHello, h);
            && Answers(c, clientHello, items, ms, s)
            && ms == OutOfOrder(front, der, signature, EarlyMac(c, clientHello, h, front, der))
            && (Handshake4To12(c, clientHello, MarshalAll(Records(c, items, s))).Ok?
                <==> Trusted(c, der, signature, LateTranscript(c, clientHello, h, front, der)))
  {
    var s := ServerOf(c, clientHello, h);
    var mac := EarlyMac(c, clientHello, h, front, der);
    ms := OutOfOrder(front, der, signature, mac);
    items := FlightItems(h, ms);
    OutOfOrderSays(front, der, signature, mac);
    FlightAnswers(c, clientHello, h, ms, Proven(FlightOf(front), der, signature, mac));
    AnswerDecides(c, clientHello, items, ms, s);
  }

  /** The Finished that comes right after the Certificate. */
  ghost function EarlyMac(c: Client, clientHello: bytes, h: Hello, front: seq<bytes>, der: bytes): (mac: bytes)
    requires Agreeable(c, clientHello, h) && |der| <= MAX_CERTIFICATE
    ensures |mac| == HASH_LEN
  {
    MacOver(c, ServerOf(c, clientHello, h), clientHello + HelloMessage(h) + Concat(front + [CertificateMessage(der)]))
  }

  /** What a signature covers when it comes after that Finished. */
  ghost function LateTranscript(c: Client, clientHello: bytes, h: Hello, front: seq<bytes>, der: bytes): bytes
    requires Agreeable(c, clientHello, h) && |der| <= MAX_CERTIFICATE
  {
    clientHello + HelloMessage(h)
    + Concat(front + [CertificateMessage(der), FinishedMessage(EarlyMac(c, clientHello, h, front, der))])
  }

  lemma UnknownTaken(ms: seq<bytes>, m: bytes)
    requires AllMessages(ms) && Acceptable(ms) && IsMessage(m) && !Known(m[0])
    ensures Says(ms + [m], FlightOf(ms))
  {
    SaysNext(ms, FlightOf(ms), m, FlightOf(ms));
  }

  lemma ProvesFurther(c: Client, clientHello: bytes, ms: seq<bytes>, s: Server, m: bytes)
    requires AllMessages(ms) && Acceptable(ms) && IsMessage(m) && !Known(m[0])
    requires Proves(c, clientHello, ms, s)
    ensures AllMessages(ms + [m]) && Proves(c, clientHello, ms + [m], s)
  {
    UnknownTaken(ms, m);
    var j, k := IndexOf(ms, CERTIFICATE_VERIFY), IndexOf(ms, FINISHED);
    FirstOfPrefix(ms, [m], CERTIFICATE_VERIFY);
    FirstOfPrefix(ms, [m], FINISHED);
    assert (ms + [m])[..j] == ms[..j] && (ms + [m])[..k] == ms[..k];
  }

  lemma CarriesFurther(items: seq<Item>, ms: seq<bytes>, m: bytes)
    requires Carries(items, ms) && IsMessage(m) && !Known(m[0])
    ensures Carries(items + Fragments(m), ms + [m])
    ensures ClearRecords(items + Fragments(m)) == ClearRecords(items)
  {
    UnknownTaken(ms, m);
    FragmentsCarry(m);
    PlaintextsAppend(items, Fragments(m));
    HandshakeStreamAppend(Plaintexts(items), Plaintexts(Fragments(m)));
    ConcatLast(ms, m);
    assert ClearRecords(items) + [] == ClearRecords(items);
    forall i | 0 <= i < |items + Fragments(m)| ensures Sendable((items + Fragments(m))[i]) {
      if i >= |items| {
        assert Sendable(Fragments(m)[i - |items|]);
      }
    }
  }

  /** A flight that is accepted is accepted also with any further message of another type after
      it, and the session keys are then over that message too. */
  lemma FinishedNeedNotBeLast(c: Client, clientHello: bytes, items: seq<Item>, ms: seq<bytes>, s: Server, m: bytes)
    requires Answers(c, clientHello, items, ms, s) && IsMessage(m) && !Known(m[0])
    requires Handshake4To12(c, clientHello, MarshalAll(Records(c, items, s))).Ok?
    ensures var longer := items + Fragments(m);
            && Answers(c, clientHello, longer, ms + [m], s)
            && var r := Handshake4To12(c, clientHello, MarshalAll(Records(c, longer, s)));
               r.Ok? && r == SessionKeysOver(c.primitives, s.shared, clientHello, s.hello, Concat(ms) + m)
  {
    AnswerDecides(c, clientHello, items, ms, s);
    CarriesFurther(items, ms, m);
    ProvesFurther(c, clientHello, ms, s, m);
    AnswerDecides(c, clientHello, items + Fragments(m), ms + [m], s);
    ConcatLast(ms, m);
  }

  /** The flight ends with a message of an unknown type after the Finished, and is accepted. */
  ghost predicate GoesOn(c: Client, clientHello: bytes, items: seq<Item>, ms: seq<bytes>, s: Server, m: bytes) {
    && Answers(c, clientHello, items, ms + [m], s) && WithoutAlert(items)
    && ms != [] && IndexOf(ms + [m], FINISHED) == |ms| - 1
    && var r := Handshake4To12(c, clientHello, MarshalAll(Records(c, items, s)));
       r.Ok? && r == SessionKeysOver(c.primitives, s.shared, clientHello, s.hello, Concat(ms) + m)
  }

  lemma NoAlertFurther(items: seq<Item>, m: bytes)
    requires WithoutAlert(items)
    ensures WithoutAlert(items + Fragments(m))
  {
    FragmentsCarry(m);
  }

  lemma MayGoOn(c: Client, clientHello: bytes, items: seq<Item>, ms: seq<bytes>, s: Server, m: bytes)
    requires Honest(c, clientHello, items, ms, s) && IsMessage(m) && !Known(m[0])
    requires Handshake4To12(c, clientHello, MarshalAll(Records(c, items, s))).Ok?
    ensures GoesOn(c, clientHello, items + Fragments(m), ms, s, m)
  {
    FinishedNeedNotBeLast(c, clientHello, items, ms, s, m);
    FirstOfPrefix(ms, [m], FINISHED);
    NoAlertFurther(items, m);
  }
}
