/** A server whose flight is well formed as far as the client looks, however it is fragmented and
    interleaved: when the client reads exactly that flight, and when it accepts its messages. */
module HonestFlight {
  import opened Bytes
  import opened Protocol
  import opened Framing
  import opened Record
  import opened Protection
  import opened Sequencing
  import opened Wire
  import opened Connection
  import opened Reassembly
  import opened Dispatch
  import opened KeySchedule
  import opened Transcript
  import opened Flow
  import opened FlightReader

  /** What the server's items carry in the clear determines the secrets. */
  datatype Server = Server(shared: bytes, hello: bytes, secrets: HandshakeSecrets)

  ghost predicate Greets(c: Client, clientHello: bytes, items: seq<Item>, s: Server) {
    var r := ServerHelloIn(ClearRecords(items));
    && r.Ok? && r.value.message == s.hello
    && SharedSecretOf(c, r.value.hello.extensions) == Ok(s.shared)
    && HandshakeSecretsFor(c.primitives, s.shared, clientHello, s.hello) == Ok(s.secrets)
  }

  /** The protected handshake fragments carry the messages `ms`, in any order. Each of the four
      types occurs at most once and unmarshals. */
  ghost predicate Carries(items: seq<Item>, ms: seq<bytes>) {
    && AllSendable(items) && items != []
    && HandshakeStream(Plaintexts(items)) == Concat(ms) && AllMessages(ms) && Acceptable(ms)
  }

  ghost predicate WithoutAlert(items: seq<Item>) {
    forall i :: 0 <= i < |items| && items[i].Clear? ==> items[i].record.typ != ALERT
  }

  ghost predicate EndsInFragment(items: seq<Item>) {
    items != [] && var last := items[|items| - 1]; last.Protected? && last.typ == HANDSHAKE && last.content != []
  }

  /** As the protocol has it: Finished ends the messages, and its last octets the flight. */
  ghost predicate Speaks(items: seq<Item>, ms: seq<bytes>) {
    && Carries(items, ms) && WithoutAlert(items)
    && ms != [] && IndexOf(ms, FINISHED) == |ms| - 1
    && EndsInFragment(items)
  }

  ghost predicate Answers(c: Client, clientHello: bytes, items: seq<Item>, ms: seq<bytes>, s: Server) {
    && LawfulClient(c) && Greets(c, clientHello, items, s) && Carries(items, ms)
    && |s.secrets.serverKey| == KEY_SIZE && |s.secrets.serverIV| == NONCE_SIZE
  }

  ghost predicate Honest(c: Client, clientHello: bytes, items: seq<Item>, ms: seq<bytes>, s: Server) {
    Answers(c, clientHello, items, ms, s) && Speaks(items, ms)
  }

  ghost function Records(c: Client, items: seq<Item>, s: Server): seq<TLSPlaintext>
    requires |s.secrets.serverKey| == KEY_SIZE && |s.secrets.serverIV| == NONCE_SIZE
  {
    Sent(c.suite, s.secrets.serverKey, s.secrets.serverIV, 0, items)
  }

  // ----- The whole flight -----

  lemma {:induction false} PlaintextsAppend(a: seq<Item>, b: seq<Item>)
    ensures Plaintexts(a + b) == Plaintexts(a) + Plaintexts(b)
    ensures ClearRecords(a + b) == ClearRecords(a) + ClearRecords(b)
  {
    if a == [] {
      assert a + b == b;
    } else {
      assert (a + b)[1..] == a[1..] + b && (a + b)[0] == a[0];
      PlaintextsAppend(a[1..], b);
      var p := if a[0].Protected? then [ProtectedRecord(a[0].typ, a[0].content)] else [];
      var q := if a[0].Clear? then [a[0].record] else [];
      Associate(p, Plaintexts(a[1..]), Plaintexts(b));
      Associate(q, ClearRecords(a[1..]), ClearRecords(b));
    }
  }

  /** The records of any number of items decode, at once, to their plaintexts. */
  lemma ItemsOpen(suite: Suite, key: bytes, iv: bytes, sn: uint64, items: seq<Item>)
    requires Lawful(suite) && |key| == KEY_SIZE && |iv| == NONCE_SIZE && AllSendable(items)
    ensures var rs := Sent(suite, key, iv, sn, items);
            && OtherRecords(rs) == ClearRecords(items)
            && OpenedRaw(suite, key, iv, sn, AppRecords(rs)) == Ok(Plaintexts(items))
  {
    SentDecodes(suite, key, iv, sn, items);
    StepwiseIsWhole(suite, key, iv, sn, AppRecords(Sent(suite, key, iv, sn, items)));
  }

  /** Any list of messages, fragmented anywhere into protected handshake records, interleaved with
      anything else sendable, comes back from the wire as exactly that list. */
  lemma HandshakeMessagesArrive(suite: Suite, key: bytes, iv: bytes, sn: uint64, items: seq<Item>, ms: seq<bytes>)
    requires Lawful(suite) && |key| == KEY_SIZE && |iv| == NONCE_SIZE && AllSendable(items) && items != []
    requires AllMessages(ms) && HandshakeStream(Plaintexts(items)) == Concat(ms)
    ensures var sorted := SortedRecords(MarshalAll(Sent(suite, key, iv, sn, items)));
            && sorted.Ok?
            && var plain := OpenedRaw(suite, key, iv, sn, sorted.value.ciphertext);
            && plain.Ok? && Collected(HandshakeStream(plain.value)) == Ok(ms)
  {
    SortedWire(suite, key, iv, sn, items);
    ItemsOpen(suite, key, iv, sn, items);
    CollectedExact(Concat(ms), ms, []);
  }

  lemma SortedWire(suite: Suite, key: bytes, iv: bytes, sn: uint64, items: seq<Item>)
    requires Lawful(suite) && |key| == KEY_SIZE && |iv| == NONCE_SIZE && AllSendable(items) && items != []
    ensures var rs := Sent(suite, key, iv, sn, items);
            SortedRecords(MarshalAll(rs)) == Ok(Sorted(ClearRecords(items), AppRecords(rs)))
  {
    var rs := Sent(suite, key, iv, sn, items);
    SentDecodes(suite, key, iv, sn, items);
    RecordsOnlyExact(MarshalAll(rs), rs);
  }

  lemma Understood(items: seq<Item>, ms: seq<bytes>)
    requires Carries(items, ms)
    ensures Collected(HandshakeStream(Plaintexts(items))) == Ok(ms)
    ensures FlightIn(Plaintexts(items)) == Ok(FlightOf(ms))
    ensures FlightOf(ms).finished.Some? <==> Occurs(ms, FINISHED)
  {
    CollectedExact(Concat(ms), ms, []);
    DispatchExact(ms);
  }

  /** Any such flight decrypts to its messages, and counts as complete once a Finished is there. */
  lemma AnswerDecrypts(c: Client, clientHello: bytes, items: seq<Item>, ms: seq<bytes>, s: Server)
    requires Answers(c, clientHello, items, ms, s)
    ensures var wire := MarshalAll(Records(c, items, s));
            && Decrypt(c, clientHello, wire) == Ok(Decrypted(s.shared, s.hello, s.secrets, Plaintexts(items), FlightOf(ms)))
            && (FlightComplete(c, clientHello, wire) <==> Occurs(ms, FINISHED))
  {
    var rs := Records(c, items, s);
    SortedWire(c.suite, s.secrets.serverKey, s.secrets.serverIV, 0, items);
    ItemsOpen(c.suite, s.secrets.serverKey, s.secrets.serverIV, 0, items);
    Understood(items, ms);
    DecryptGoesOn(c, clientHello, MarshalAll(rs), Sorted(ClearRecords(items), AppRecords(rs)),
                  ServerHelloIn(ClearRecords(items)).value, s.shared, s.secrets, Plaintexts(items));
  }

  /** The whole flight decrypts to the messages, and counts as complete. */
  lemma HonestFlightDecrypts(c: Client, clientHello: bytes, items: seq<Item>, ms: seq<bytes>, s: Server)
    requires Honest(c, clientHello, items, ms, s)
    ensures var wire := MarshalAll(Records(c, items, s));
            && Decrypt(c, clientHello, wire) == Ok(Decrypted(s.shared, s.hello, s.secrets, Plaintexts(items), FlightOf(ms)))
            && FlightComplete(c, clientHello, wire)
  {
    AnswerDecrypts(c, clientHello, items, ms, s);
  }

  /** The transcripts that are verified and hashed are those of the standard. */
  lemma HonestTranscripts(c: Client, clientHello: bytes, items: seq<Item>, ms: seq<bytes>, s: Server)
    requires Honest(c, clientHello, items, ms, s)
    ensures var n := |ms| - 1;
            && TranscriptBefore(clientHello, s.hello, Plaintexts(items), FINISHED) == Ok(clientHello + s.hello + Concat(ms[..n]))
            && SessionTranscript(clientHello, s.hello, Plaintexts(items)) == Ok(clientHello + s.hello + Concat(ms))
  {
    Understood(items, ms);
  }

  // ----- Any part of it -----

  lemma {:induction false} SentPrefix(suite: Suite, key: bytes, iv: bytes, sn: uint64, items: seq<Item>, n: nat)
    requires |key| == KEY_SIZE && |iv| == NONCE_SIZE && n <= |items|
    ensures |Sent(suite, key, iv, sn, items)| == |items|
    ensures Sent(suite, key, iv, sn, items)[..n] == Sent(suite, key, iv, sn, items[..n])
    decreases |items|
  {
    if items == [] {
    } else {
      var sn' := if items[0].Protected? then NextSeq(sn) else sn;
      var all, rest := Sent(suite, key, iv, sn, items), Sent(suite, key, iv, sn', items[1..]);
      assert all == [all[0]] + rest;
      SentPrefix(suite, key, iv, sn', items[1..], if n == 0 then 0 else n - 1);
      if n > 0 {
        assert items[..n][1..] == items[1..][..n - 1] && items[..n][0] == items[0];
        assert all[..n] == [all[0]] + rest[..n - 1];
      }
    }
  }

  /** Two streams that both hold whole messages, one of them longer, differ by whole messages. */
  lemma CollectedGrows(a: bytes, b: bytes) returns (more: seq<bytes>)
    requires Collected(a).Ok? && Collected(a + b).Ok?
    ensures Collected(a + b).value == Collected(a).value + more
    ensures b != [] ==> more != []
  {
    MessageNeedIsPrefixed();
    CutAppend(MessageNeed, a, b);
    CutKeepsAll(MessageNeed, b);
    assert [] + b == b;
    more := Cut(MessageNeed, b).units;
  }

  lemma FirstOfPrefix(ms: seq<bytes>, more: seq<bytes>, typ: byte)
    requires Occurs(ms, typ)
    ensures FirstOf(ms + more, typ) == FirstOf(ms, typ) && IndexOf(ms + more, typ) == IndexOf(ms, typ)
  {
    IndexUnique(ms + more, typ, IndexOf(ms, typ));
  }

  /** A ServerHello found in a first part of the clear records is the one found in all of them. */
  lemma HelloOfPart(part: seq<TLSPlaintext>, rest: seq<TLSPlaintext>)
    requires ServerHelloIn(part).Ok? && ServerHelloIn(part + rest).Ok?
    ensures ServerHelloIn(part) == ServerHelloIn(part + rest)
  {
    HandshakeStreamAppend(part, rest);
    var more := CollectedGrows(HandshakeStream(part), HandshakeStream(rest));
    FirstOfPrefix(Collected(HandshakeStream(part)).value, more, SERVER_HELLO);
  }

  lemma PlaintextsLast(items: seq<Item>, last: Item)
    requires last.Protected?
    ensures Plaintexts(items + [last]) == Plaintexts(items) + [ProtectedRecord(last.typ, last.content)]
  {
    PlaintextsAppend(items, [last]);
    assert [last][1..] == [];
  }

  lemma FragmentAtEnd(items: seq<Item>)
    requires EndsInFragment(items)
    ensures HandshakeStream(Plaintexts(items)) != []
  {
    var front, last := items[..|items| - 1], items[|items| - 1];
    var rec := ProtectedRecord(last.typ, last.content);
    assert items == front + [last];
    PlaintextsLast(front, last);
    HandshakeStreamAppend(Plaintexts(front), [rec]);
    assert HandshakeStream([rec]) == rec.payload + HandshakeStream([rec][1..]);
  }

  lemma StreamOfParts(items: seq<Item>, n: nat) returns (rest: bytes)
    requires n < |items| && EndsInFragment(items)
    ensures rest != []
    ensures HandshakeStream(Plaintexts(items)) == HandshakeStream(Plaintexts(items[..n])) + rest
  {
    assert items == items[..n] + items[n..] && items[n..][|items| - n - 1] == items[|items| - 1];
    PlaintextsAppend(items[..n], items[n..]);
    HandshakeStreamAppend(Plaintexts(items[..n]), Plaintexts(items[n..]));
    FragmentAtEnd(items[n..]);
    rest := HandshakeStream(Plaintexts(items[n..]));
  }

  /** A first part of the items without the last one does not carry the Finished. */
  lemma PartLacksFinished(items: seq<Item>, ms: seq<bytes>, n: nat)
    requires Speaks(items, ms) && n < |items|
    requires FlightIn(Plaintexts(items[..n])).Ok?
    ensures FlightIn(Plaintexts(items[..n])).value.finished.None?
  {
    var part := HandshakeStream(Plaintexts(items[..n]));
    var rest := StreamOfParts(items, n);
    Understood(items, ms);
    FlightHasWhatOccurs(Plaintexts(items[..n]), FINISHED);
    var more := CollectedGrows(part, rest);
    LastIsNotEarlier(Collected(part).value, more, FINISHED);
  }

  lemma LastIsNotEarlier(ms: seq<bytes>, more: seq<bytes>, typ: byte)
    requires more != [] && IndexOf(ms + more, typ) == |ms + more| - 1
    ensures !Occurs(ms, typ)
  {
    if Occurs(ms, typ) {
      FirstOfPrefix(ms, more, typ);
    }
  }

  /** A proper first part of the octets parses to the records of a proper first part of the
      items, or not at all. */
  lemma PartOfWire(rs: seq<TLSPlaintext>, part: bytes, rest: bytes) returns (n: nat)
    requires AllWellFramed(rs) && MarshalAll(rs) == part + rest && rest != []
    ensures n <= |rs| && Frames(part).records == rs[..n]
    ensures Frames(part).rest == [] ==> n < |rs|
  {
    assert MarshalAll(rs) + [] == MarshalAll(rs);
    FramesExact(MarshalAll(rs), rs, []);
    FramesAppend(part, rest);
    n := |Frames(part).records|;
    assert [] + rest == rest;
    var f := Frames(rest);
    FramesExact(rest, f.records, f.rest);
  }

  lemma SortedPart(c: Client, items: seq<Item>, s: Server, part: bytes, rest: bytes) returns (n: nat)
    requires Lawful(c.suite) && AllSendable(items)
    requires |s.secrets.serverKey| == KEY_SIZE && |s.secrets.serverIV| == NONCE_SIZE
    requires MarshalAll(Records(c, items, s)) == part + rest && rest != []
    requires SortedRecords(part).Ok?
    ensures n < |items|
    ensures var rs := Records(c, items[..n], s); SortedRecords(part) == Ok(Sorted(OtherRecords(rs), AppRecords(rs)))
  {
    var rs := Records(c, items, s);
    SentDecodes(c.suite, s.secrets.serverKey, s.secrets.serverIV, 0, items);
    n := PartOfWire(rs, part, rest);
    SentPrefix(c.suite, s.secrets.serverKey, s.secrets.serverIV, 0, items, n);
  }

  /** No proper first part of the flight counts as complete. */
  lemma PartIsIncomplete(c: Client, clientHello: bytes, items: seq<Item>, ms: seq<bytes>, s: Server, part: bytes, rest: bytes)
    requires Honest(c, clientHello, items, ms, s)
    requires MarshalAll(Records(c, items, s)) == part + rest && rest != []
    ensures !FlightComplete(c, clientHello, part)
  {
    if SortedRecords(part).Ok? {
      var n := SortedPart(c, items, s, part, rest);
      PartNotDecrypted(c, clientHello, items, ms, s, n, part);
    }
  }

  lemma {:induction false} NoAlertFrom(suite: Suite, key: bytes, iv: bytes, sn: uint64, items: seq<Item>)
    requires |key| == KEY_SIZE && |iv| == NONCE_SIZE
    requires WithoutAlert(items)
    ensures forall i :: 0 <= i < |Sent(suite, key, iv, sn, items)| ==> Sent(suite, key, iv, sn, items)[i].typ != ALERT
    decreases |items|
  {
    if items == [] {
    } else {
      NoAlertFrom(suite, key, iv, if items[0].Protected? then NextSeq(sn) else sn, items[1..]);
    }
  }

  lemma NoAlertSent(c: Client, items: seq<Item>, s: Server)
    requires |s.secrets.serverKey| == KEY_SIZE && |s.secrets.serverIV| == NONCE_SIZE
    requires WithoutAlert(items)
    ensures forall i :: 0 <= i < |Records(c, items, s)| ==> Records(c, items, s)[i].typ != ALERT
  {
    NoAlertFrom(c.suite, s.secrets.serverKey, s.secrets.serverIV, 0, items);
  }

  lemma HelloOfItems(items: seq<Item>, n: nat)
    requires n <= |items| && ServerHelloIn(ClearRecords(items)).Ok?
    requires ServerHelloIn(ClearRecords(items[..n])).Ok?
    ensures ServerHelloIn(ClearRecords(items[..n])) == ServerHelloIn(ClearRecords(items))
  {
    ClearOfParts(items, n);
    HelloOfPart(ClearRecords(items[..n]), ClearRecords(items[n..]));
  }

  lemma ClearOfParts(items: seq<Item>, n: nat)
    requires n <= |items|
    ensures ClearRecords(items) == ClearRecords(items[..n]) + ClearRecords(items[n..])
  {
    assert items == items[..n] + items[n..];
    PlaintextsAppend(items[..n], items[n..]);
  }

  lemma PartNotDecrypted(c: Client, clientHello: bytes, items: seq<Item>, ms: seq<bytes>, s: Server, n: nat, part: bytes)
    requires Lawful(c.suite) && Greets(c, clientHello, items, s) && Speaks(items, ms) && n < |items|
    requires |s.secrets.serverKey| == KEY_SIZE && |s.secrets.serverIV| == NONCE_SIZE
    requires var rs := Records(c, items[..n], s); SortedRecords(part) == Ok(Sorted(OtherRecords(rs), AppRecords(rs)))
    ensures !FlightComplete(c, clientHello, part)
  {
    var early := items[..n];
    var rs := Records(c, early, s);
    var sorted := Sorted(OtherRecords(rs), AppRecords(rs));
    ItemsOpen(c.suite, s.secrets.serverKey, s.secrets.serverIV, 0, early);
    if ServerHelloIn(ClearRecords(early)).Err? {
      DecryptFails(c, clientHello, part, sorted);
    } else {
      HelloOfItems(items, n);
      var hello := ServerHelloIn(ClearRecords(items)).value;
      DecryptGoesOn(c, clientHello, part, sorted, hello, s.shared, s.secrets, Plaintexts(early));
      if FlightIn(Plaintexts(early)).Ok? {
        PartLacksFinished(items, ms, n);
      }
    }
  }

  // ----- Reading it -----

  ghost predicate Decides(c: Client, clientHello: bytes, isComplete: bytes -> bool)
  {
    forall buf :: isComplete(buf) == FlightComplete(c, clientHello, buf)
  }

  lemma NoAlertInWire(c: Client, items: seq<Item>, s: Server)
    requires Lawful(c.suite) && AllSendable(items)
    requires |s.secrets.serverKey| == KEY_SIZE && |s.secrets.serverIV| == NONCE_SIZE
    requires WithoutAlert(items)
    ensures !HoldsAlert(MarshalAll(Records(c, items, s)))
  {
    var rs := Records(c, items, s);
    SentDecodes(c.suite, s.secrets.serverKey, s.secrets.serverIV, 0, items);
    NoAlertSent(c, items, s);
    assert MarshalAll(rs) + [] == MarshalAll(rs);
    FramesExact(MarshalAll(rs), rs, []);
  }

  lemma HonestFlightCompletes(c: Client, clientHello: bytes, items: seq<Item>, ms: seq<bytes>, s: Server,
                              isComplete: bytes -> bool)
    requires Honest(c, clientHello, items, ms, s) && Decides(c, clientHello, isComplete)
    ensures FirstComplete(MarshalAll(Records(c, items, s)), isComplete)
  {
    var wire := MarshalAll(Records(c, items, s));
    HonestFlightDecrypts(c, clientHello, items, ms, s);
    forall n | 0 <= n < |wire| ensures !isComplete(wire[..n]) {
      Split(wire, n);
      PartIsIncomplete(c, clientHello, items, ms, s, wire[..n], wire[n..]);
    }
  }

  lemma WireIsNotEmpty(c: Client, items: seq<Item>, s: Server)
    requires Lawful(c.suite) && AllSendable(items) && items != []
    requires |s.secrets.serverKey| == KEY_SIZE && |s.secrets.serverIV| == NONCE_SIZE
    ensures MarshalAll(Records(c, items, s)) != []
  {
    var rs := Records(c, items, s);
    SentDecodes(c.suite, s.secrets.serverKey, s.secrets.serverIV, 0, items);
    RecordsOnlyExact(MarshalAll(rs), rs);
  }

  /** However an honest flight is cut into reads, the reader returns exactly that flight if and only
      if some read ends with it. */
  lemma HonestFlightIsRead(c: Client, clientHello: bytes, items: seq<Item>, ms: seq<bytes>, s: Server,
                           events: seq<ReadEvent>, isComplete: bytes -> bool)
    requires Honest(c, clientHello, items, ms, s) && Decides(c, clientHello, isComplete)
    ensures FlightFrom(events, 0, isComplete) == Ok(MarshalAll(Records(c, items, s)))
       <==> SomeReadEndsWith(events, MarshalAll(Records(c, items, s)))
  {
    WireIsNotEmpty(c, items, s);
    NoAlertInWire(c, items, s);
    HonestFlightCompletes(c, clientHello, items, ms, s, isComplete);
    ReturnedExactly(events, MarshalAll(Records(c, items, s)), isComplete);
  }

  /** It then uses up no more reads than those that deliver the flight. */
  lemma HonestFlightUses(c: Client, clientHello: bytes, items: seq<Item>, ms: seq<bytes>, s: Server,
                         events: seq<ReadEvent>, k: nat, isComplete: bytes -> bool)
    requires Honest(c, clientHello, items, ms, s) && Decides(c, clientHello, isComplete)
    requires EndsAt(events, k, MarshalAll(Records(c, items, s)))
    ensures var n := UsedFrom(events, 0, isComplete); n <= k && Taken(events, n) == MarshalAll(Records(c, items, s))
  {
    WireIsNotEmpty(c, items, s);
    NoAlertInWire(c, items, s);
    HonestFlightCompletes(c, clientHello, items, ms, s, isComplete);
    ReadsUntilComplete(events, k, 0, MarshalAll(Records(c, items, s)), isComplete);
  }

  /** A flight that one read delivers whole is returned, with all that follows its Finished. */
  lemma ReadAtOnce(c: Client, clientHello: bytes, items: seq<Item>, ms: seq<bytes>, s: Server, isComplete: bytes -> bool)
    requires Answers(c, clientHello, items, ms, s) && Decides(c, clientHello, isComplete)
    requires WithoutAlert(items) && Occurs(ms, FINISHED)
    ensures var wire := MarshalAll(Records(c, items, s)); FlightFrom([ReadEvent(wire, None)], 0, isComplete) == Ok(wire)
  {
    var wire := MarshalAll(Records(c, items, s));
    WireIsNotEmpty(c, items, s);
    NoAlertInWire(c, items, s);
    AnswerDecrypts(c, clientHello, items, ms, s);
    var events := [ReadEvent(wire, None)];
    assert Taken(events, 0) == [] && Taken(events, 1) == [] + wire && [] + wire == wire;
    assert Decision(events, 0, isComplete) == Some(Ok(wire));
  }

  // ----- The handshake it leads to -----

  /** The server's own part: a chain the client accepts, a signature by its leaf over the messages
      before CertificateVerify, and the MAC over those before Finished. */
  ghost predicate Proves(c: Client, clientHello: bytes, ms: seq<bytes>, s: Server)
    requires AllMessages(ms)
  {
    var f := FlightOf(ms);
    var hellos := clientHello + s.hello;
    && f.certificate.Some? && c.chain(f.certificate.value).Some?
    && f.certificateVerify.Some? && f.finished.Some?
    && f.certificateVerify.value.signature != []
    && c.verify(c.chain(f.certificate.value).value, f.certificateVerify.value.algorithm, f.certificateVerify.value.signature,
                hellos + Concat(ms[..IndexOf(ms, CERTIFICATE_VERIFY)]))
    && FinishedMac(c.primitives, s.secrets.serverTrafficSecret, hellos + Concat(ms[..IndexOf(ms, FINISHED)])) == Ok(f.finished.value)
  }

  /** Whatever messages a server sends, in whatever order: the client ends with keys over all of
      them if the server proves itself, and otherwise with an error. */
  lemma AnswerDecides(c: Client, clientHello: bytes, items: seq<Item>, ms: seq<bytes>, s: Server)
    requires Answers(c, clientHello, items, ms, s)
    ensures var r := Handshake4To12(c, clientHello, MarshalAll(Records(c, items, s)));
            && (r.Ok? <==> Proves(c, clientHello, ms, s))
            && (r.Ok? ==> r == SessionKeysOver(c.primitives, s.shared, clientHello, s.hello, Concat(ms)))
  {
    var wire := MarshalAll(Records(c, items, s));
    AnswerDecrypts(c, clientHello, items, ms, s);
    HandshakeFrom(c, clientHello, wire, Decrypted(s.shared, s.hello, s.secrets, Plaintexts(items), FlightOf(ms)));
    Understood(items, ms);
  }

  /** The client ends with the keys of the standard's schedule over the messages up to and with
      Finished if the server proves itself, and otherwise with an error. */
  lemma HonestHandshake(c: Client, clientHello: bytes, items: seq<Item>, ms: seq<bytes>, s: Server)
    requires Honest(c, clientHello, items, ms, s)
    ensures var r := Handshake4To12(c, clientHello, MarshalAll(Records(c, items, s)));
            && (r.Ok? <==> Proves(c, clientHello, ms, s))
            && (r.Ok? ==> r == SessionKeysOver(c.primitives, s.shared, clientHello, s.hello,
                                               Concat(ms[..IndexOf(ms, FINISHED)]) + FirstOf(ms, FINISHED).value))
  {
    AnswerDecides(c, clientHello, items, ms, s);
    ConcatAtLast(ms, FINISHED);
  }

  lemma ConcatAtLast(ms: seq<bytes>, typ: byte)
    requires ms != [] && IndexOf(ms, typ) == |ms| - 1
    ensures Concat(ms) == Concat(ms[..IndexOf(ms, typ)]) + FirstOf(ms, typ).value
  {
    var k := |ms| - 1;
    assert ms == ms[..k] + [ms[k]];
    ConcatLast(ms[..k], ms[k]);
  }
}
