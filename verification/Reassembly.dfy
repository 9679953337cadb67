/** Handshake messages split over records or packed into one (sections 4 and 5.1 of RFC 8446). */
module Reassembly {
  import opened Bytes
  import opened Protocol
  import opened Framing
  import opened Record

  /** The stream that the handshake records of a list carry. */
  function HandshakeStream(records: seq<TLSPlaintext>): bytes {
    if records == [] then []
    else (if records[0].typ == HANDSHAKE then records[0].payload else []) + HandshakeStream(records[1..])
  }

  lemma {:induction false} HandshakeStreamAppend(a: seq<TLSPlaintext>, b: seq<TLSPlaintext>)
    ensures HandshakeStream(a + b) == HandshakeStream(a) + HandshakeStream(b)
  {
    if a == [] {
      assert a + b == b;
    } else {
      assert (a + b)[1..] == a[1..] + b && (a + b)[0] == a[0];
      HandshakeStreamAppend(a[1..], b);
      var p := if a[0].typ == HANDSHAKE then a[0].payload else [];
      Associate(p, HandshakeStream(a[1..]), HandshakeStream(b));
    }
  }

  /** A message with an empty body is never complete here: the source calls it malformed. */
  function MessageNeed(s: bytes): Option<nat> {
    if |s| < HANDSHAKE_HEADER_LEN || U24(s[1..]) == 0 then None else Some(HANDSHAKE_HEADER_LEN + U24(s[1..]))
  }

  predicate IsMessage(m: bytes) {
    Whole(MessageNeed, m)
  }

  ghost predicate AllMessages(ms: seq<bytes>) {
    AllWhole(MessageNeed, ms)
  }

  lemma MessageNeedIsPrefixed()
    ensures Prefixed(MessageNeed)
  {
  }

  /** A message is a type, a non-zero length of three octets and a body of that length. */
  lemma MessageShape(m: bytes)
    ensures IsMessage(m) <==> |m| > HANDSHAKE_HEADER_LEN && U24(m[1..]) == |m| - HANDSHAKE_HEADER_LEN
  {
  }

  type Messages = Result<seq<bytes>, Error>

  /** What a handshake stream that ends here is worth. */
  function Collected(stream: bytes): Messages {
    var c := Cut(MessageNeed, stream);
    if c.rest == [] then Ok(c.units) else Err(Leftover(c.rest))
  }

  function Leftover(rest: bytes): Error {
    if |rest| < HANDSHAKE_HEADER_LEN then IncompleteHandshakeHeader(|rest|)
    else if U24(rest[1..]) == 0 then MalformedHandshakeLength(0)
    else IncompleteHandshakeMessage(HANDSHAKE_HEADER_LEN + U24(rest[1..]), |rest|)
  }

  predicate Stuck(rest: bytes) {
    !HasUnit(MessageNeed, rest)
  }

  /** Messages collect exactly when they concatenate to the stream; otherwise the error is told
      by the one way to write the stream as messages and a non-empty tail that holds none. */
  lemma CollectedExact(stream: bytes, ms: seq<bytes>, rest: bytes)
    ensures Collected(stream) == Ok(ms) <==> stream == Concat(ms) && AllMessages(ms)
    ensures stream == Concat(ms) + rest && AllMessages(ms) && Stuck(rest) && rest != []
        ==> Collected(stream) == Err(Leftover(rest))
    ensures Collected(stream).Err? ==>
      exists ms', rest' :: && stream == Concat(ms') + rest' && AllMessages(ms') && Stuck(rest') && rest' != []
                           && Collected(stream).error == Leftover(rest')
  {
    MessageNeedIsPrefixed();
    CutExact(MessageNeed, stream, ms, []);
    CutExact(MessageNeed, stream, ms, rest);
    CutSound(MessageNeed, stream);
    assert Concat(ms) + [] == Concat(ms);
  }

  /** What a collector holds after `i` records: the messages so far, and its buffer. */
  function Buffered(records: seq<TLSPlaintext>, i: nat): Pieces
    requires i <= |records|
  {
    Cut(MessageNeed, HandshakeStream(records[..i]))
  }

  /** After any number of records of a list that collects, the messages held are the first ones,
      and the buffer is empty or a proper prefix of the next one. */
  lemma BufferIsPrefixOfNext(records: seq<TLSPlaintext>, i: nat, ms: seq<bytes>)
    requires i <= |records| && Collected(HandshakeStream(records)) == Ok(ms)
    ensures var c := Buffered(records, i);
            && |c.units| <= |ms| && c.units == ms[..|c.units|]
            && (c.rest == [] || (|c.units| < |ms| && c.rest < ms[|c.units|]))
  {
    assert records == records[..i] + records[i..];
    HandshakeStreamAppend(records[..i], records[i..]);
    PartOfCut(HandshakeStream(records[..i]), HandshakeStream(records[i..]), ms);
  }

  lemma PartOfCut(seen: bytes, future: bytes, ms: seq<bytes>)
    requires Collected(seen + future) == Ok(ms)
    ensures var c := Cut(MessageNeed, seen);
            && |c.units| <= |ms| && c.units == ms[..|c.units|]
            && (c.rest == [] || (|c.units| < |ms| && c.rest < ms[|c.units|]))
  {
    MessageNeedIsPrefixed();
    var c := Cut(MessageNeed, seen);
    var more := Cut(MessageNeed, c.rest + future);
    CutAppend(MessageNeed, seen, future);
    CutSound(MessageNeed, c.rest + future);
    CutSound(MessageNeed, seen);
    assert ms == c.units + more.units && more.rest == [];
    if c.rest != [] {
      var next := more.units[0];
      Associate(next, Concat(more.units[1..]), more.rest);
      StuckBeforeMessage(c.rest, future, next, Concat(more.units[1..]) + more.rest);
    }
  }

  lemma StuckBeforeMessage(rest: bytes, future: bytes, next: bytes, after: bytes)
    requires Stuck(rest) && IsMessage(next) && rest + future == next + after
    ensures rest < next
  {
    assert |rest| < |next|;
    assert rest == (rest + future)[..|rest|] == (next + after)[..|rest|];
  }

  /** The next header announces an empty body. */
  predicate ZeroLength(rest: bytes) {
    |rest| >= HANDSHAKE_HEADER_LEN && U24(rest[1..]) == 0
  }

  /** Once whole messages are followed by such a header, no continuation helps. */
  lemma MalformedIsFinal(seen: bytes, future: bytes)
    requires ZeroLength(Cut(MessageNeed, seen).rest)
    ensures Collected(seen + future) == Err(MalformedHandshakeLength(0))
  {
    MessageNeedIsPrefixed();
    CutAppend(MessageNeed, seen, future);
    assert ZeroLength(Cut(MessageNeed, seen).rest + future);
  }

  /** What the cut of a buffer adds to units already taken. */
  function Onto(taken: seq<bytes>, c: Pieces): Pieces {
    Pieces(taken + c.units, c.rest)
  }

  lemma OntoCut(taken: seq<bytes>, rest: bytes)
    ensures Onto([], Cut(MessageNeed, rest)) == Cut(MessageNeed, rest)
    ensures Stuck(rest) ==> Onto(taken, Cut(MessageNeed, rest)) == Pieces(taken, rest)
    ensures HasUnit(MessageNeed, rest) ==>
      var n := MessageNeed(rest).value;
      Onto(taken, Cut(MessageNeed, rest)) == Onto(taken + [rest[..n]], Cut(MessageNeed, rest[n..]))
  {
    if HasUnit(MessageNeed, rest) {
      var n := MessageNeed(rest).value;
      Associate(taken, [rest[..n]], Cut(MessageNeed, rest[n..]).units);
    }
  }

  /** The inner loop that both collectors of the source contain: whole messages are taken off the
      front of the buffer until what is left holds none. */
  method DrainMessages(buffer: bytes) returns (taken: seq<bytes>, rest: bytes, malformed: bool)
    ensures Pieces(taken, rest) == Cut(MessageNeed, buffer)
    ensures malformed <==> ZeroLength(rest)
  {
    taken, rest := [], buffer;
    OntoCut([], buffer);
    while |rest| >= HANDSHAKE_HEADER_LEN
      invariant Onto(taken, Cut(MessageNeed, rest)) == Cut(MessageNeed, buffer)
      decreases |rest|
    {
      var msgLen := U24(rest[1..]);
      var msgTotalLen := HANDSHAKE_HEADER_LEN + msgLen;
      OntoCut(taken, rest);
      if msgTotalLen <= HANDSHAKE_HEADER_LEN {
        return taken, rest, true;
      }
      if |rest| < msgTotalLen {
        return taken, rest, false;
      }
      taken, rest := taken + [rest[..msgTotalLen]], rest[msgTotalLen..];
    }
    OntoCut(taken, rest);
    return taken, rest, false;
  }

  /** A collector that has cut `seen` and goes on with one more record. */
  lemma CutNext(records: seq<TLSPlaintext>, i: nat)
    requires i < |records|
    ensures var before, after := Buffered(records, i), Buffered(records, i + 1);
            if records[i].typ != HANDSHAKE then after == before
            else var drained := Cut(MessageNeed, before.rest + records[i].payload);
                 after == Pieces(before.units + drained.units, drained.rest)
  {
    var seen, r := HandshakeStream(records[..i]), records[i];
    assert records[..i + 1] == records[..i] + [r] && [r][1..] == [];
    HandshakeStreamAppend(records[..i], [r]);
    if r.typ != HANDSHAKE {
      assert HandshakeStream([r]) == [] && seen + [] == seen;
    } else {
      assert HandshakeStream([r]) == r.payload;
      MessageNeedIsPrefixed();
      CutAppend(MessageNeed, seen, r.payload);
    }
  }

  lemma MalformedRecord(records: seq<TLSPlaintext>, i: nat)
    requires i <= |records| && ZeroLength(Buffered(records, i).rest)
    ensures Collected(HandshakeStream(records)) == Err(MalformedHandshakeLength(0))
  {
    assert records == records[..i] + records[i..];
    HandshakeStreamAppend(records[..i], records[i..]);
    MalformedIsFinal(HandshakeStream(records[..i]), HandshakeStream(records[i..]));
  }

  /** Only the concatenated handshake payloads matter, for the messages and for each error. */
  method CollectHandshakeMessages(records: seq<TLSPlaintext>) returns (r: Messages)
    ensures r == Collected(HandshakeStream(records))
  {
    var stream, messages: seq<bytes> := [], [];
    for i := 0 to |records|
      invariant Pieces(messages, stream) == Buffered(records, i) && !ZeroLength(stream)
    {
      CutNext(records, i);
      if records[i].typ != HANDSHAKE {
        continue;
      }
      stream := stream + records[i].payload;
      var taken, rest, malformed := DrainMessages(stream);
      messages := messages + taken;
      stream := rest;
      if malformed {
        MalformedRecord(records, i + 1);
        return Err(MalformedHandshakeLength(0));
      }
    }
    assert records[..|records|] == records;
    if |stream| > 0 {
      if |stream| < HANDSHAKE_HEADER_LEN {
        return Err(IncompleteHandshakeHeader(|stream|));
      }
      var msgTotalLen := HANDSHAKE_HEADER_LEN + U24(stream[1..]);
      return Err(IncompleteHandshakeMessage(msgTotalLen, |stream|));
    }
    return Ok(messages);
  }

  /** The messages of a record list, concatenated: the stream itself, when it holds whole messages. */
  function ConcatenatedMessages(records: seq<TLSPlaintext>): Result<bytes, Error> {
    var s := HandshakeStream(records);
    var r := Collected(s);
    if r.Err? then Err(r.error) else Ok(s)
  }

  method ConcatHandshakeMessages(records: seq<TLSPlaintext>) returns (r: Result<bytes, Error>)
    ensures r == ConcatenatedMessages(records)
  {
    var messages :- CollectHandshakeMessages(records);
    var result := [];
    for i := 0 to |messages|
      invariant result == Concat(messages[..i])
    {
      ConcatLast(messages[..i], messages[i]);
      assert messages[..i + 1] == messages[..i] + [messages[i]];
      result := result + messages[i];
    }
    assert messages[..|messages|] == messages;
    CollectedExact(HandshakeStream(records), messages, []);
    return Ok(result);
  }

  // ----- Searching -----

  predicate HasType(m: bytes, typ: byte) {
    |m| >= HANDSHAKE_HEADER_LEN && m[0] == typ
  }

  /** The place of the first message of a type, or the length of the list. */
  function IndexOf(ms: seq<bytes>, typ: byte): (k: nat)
    ensures k <= |ms|
    ensures forall j :: 0 <= j < k ==> !HasType(ms[j], typ)
    ensures k < |ms| ==> HasType(ms[k], typ)
  {
    if ms == [] then 0
    else if HasType(ms[0], typ) then 0
    else 1 + IndexOf(ms[1..], typ)
  }

  /** The place is the only one with these properties. */
  lemma IndexUnique(ms: seq<bytes>, typ: byte, k: nat)
    requires k <= |ms|
    requires forall j :: 0 <= j < k ==> !HasType(ms[j], typ)
    requires k < |ms| ==> HasType(ms[k], typ)
    ensures IndexOf(ms, typ) == k
  {
  }

  predicate Occurs(ms: seq<bytes>, typ: byte) {
    IndexOf(ms, typ) < |ms|
  }

  function FirstOf(ms: seq<bytes>, typ: byte): Option<bytes> {
    if Occurs(ms, typ) then Some(ms[IndexOf(ms, typ)]) else None
  }

  lemma FirstOfLast(ms: seq<bytes>, m: bytes, typ: byte)
    ensures FirstOf(ms + [m], typ)
         == if Occurs(ms, typ) then FirstOf(ms, typ) else if HasType(m, typ) then Some(m) else None
  {
    var all, k := ms + [m], IndexOf(ms, typ);
    if k < |ms| {
      IndexUnique(all, typ, k);
    } else {
      IndexUnique(all, typ, if HasType(m, typ) then |ms| else |all|);
    }
  }

  method FindFirstHandshakeMessage(messages: seq<bytes>, typ: byte) returns (r: Option<bytes>)
    ensures r == FirstOf(messages, typ)
  {
    for i := 0 to |messages|
      invariant IndexOf(messages, typ) >= i
    {
      if |messages[i]| < HANDSHAKE_HEADER_LEN {
        continue;
      }
      if messages[i][0] != typ {
        continue;
      }
      return Some(messages[i]);
    }
    return None;
  }

  // ----- Sending handshake messages -----

  datatype Handshake = Handshake(typ: byte, length: bytes, body: bytes) {
    function Marshal(): bytes {
      [typ] + length + body
    }
  }

  function NewHandshake(typ: byte, body: bytes): Result<Handshake, Error> {
    if |body| > 0xffffff then Err(HandshakeBodyTooLarge)
    else Ok(Handshake(typ, [|body| / 0x1_0000, |body| / 0x100 % 0x100, |body| % 0x100], body))
  }

  /** Building a message succeeds up to the length field's range, and the collector takes the
      result back, as one message of that type and body, exactly when the body is not empty. */
  lemma NewHandshakeCollects(typ: byte, body: bytes)
    ensures |body| > 0xffffff ==> NewHandshake(typ, body) == Err(HandshakeBodyTooLarge)
    ensures NewHandshake(typ, body).Ok? <==> |body| <= 0xffffff
    ensures |body| <= 0xffffff ==>
      var m := NewHandshake(typ, body).value.Marshal();
      && m == [typ, |body| / 0x1_0000, |body| / 0x100 % 0x100, |body| % 0x100] + body
      && HasType(m, typ) && m[HANDSHAKE_HEADER_LEN..] == body
      && (IsMessage(m) <==> body != [])
      && Collected(m) == if body != [] then Ok([m]) else Err(MalformedHandshakeLength(0))
  {
    if |body| <= 0xffffff {
      var m := NewHandshake(typ, body).value.Marshal();
      assert m[1..] == Be24(|body|) + body;
      U24OfBe24(|body|, body);
      ConcatLast([], m);
      assert [] + [m] == [m];
      CollectedExact(m, [m], m);
      assert Concat([]) + m == m;
      CollectedExact(m, [], m);
    }
  }

  // ----- In octets -----

  /** The stream of one record is its payload if its type is 22, and nothing otherwise; with
      `HandshakeStreamAppend` this says what the stream of any list is. */
  lemma StreamOfRecord(r: TLSPlaintext)
    ensures HandshakeStream([r]) == if r.typ == 22 then r.payload else []
  {
    assert [r][1..] == [] && r.payload + [] == r.payload && [] + HandshakeStream([]) == [];
  }

  function LengthOctets(s: bytes): nat
    requires |s| >= 4
  {
    s[1] as int * 65536 + s[2] as int * 256 + s[3] as int
  }

  /** A message is whole when its length octets are not all zero and count the octets after them. */
  lemma MessageOctets(m: bytes)
    ensures IsMessage(m) <==> |m| >= 4 && LengthOctets(m) != 0 && |m| == 4 + LengthOctets(m)
    ensures Stuck(m) <==> |m| < 4 || LengthOctets(m) == 0 || |m| < 4 + LengthOctets(m)
  {
    MessageShape(m);
  }

  /** What whole messages and a tail without one collect to, with each error in terms of the tail. */
  lemma CollectedErrors(ms: seq<bytes>, rest: bytes)
    requires AllMessages(ms) && Stuck(rest)
    ensures Collected(Concat(ms) + rest)
         == if rest == [] then Ok(ms)
            else if |rest| < 4 then Err(IncompleteHandshakeHeader(|rest|))
            else if LengthOctets(rest) == 0 then Err(MalformedHandshakeLength(0))
            else Err(IncompleteHandshakeMessage(4 + LengthOctets(rest), |rest|))
  {
    CollectedExact(Concat(ms) + rest, ms, rest);
    assert Concat(ms) + [] == Concat(ms);
  }

  /** The first message whose first octet is the type, if it has a header at all. */
  lemma FirstOfExact(ms: seq<bytes>, typ: byte, k: nat)
    requires k <= |ms| && forall j :: 0 <= j < k ==> |ms[j]| < 4 || ms[j][0] != typ
    ensures k == |ms| ==> FirstOf(ms, typ) == None && !Occurs(ms, typ)
    ensures k < |ms| && |ms[k]| >= 4 && ms[k][0] == typ ==> FirstOf(ms, typ) == Some(ms[k]) && IndexOf(ms, typ) == k
  {
    if k == |ms| || HasType(ms[k], typ) {
      IndexUnique(ms, typ, k);
    }
  }
}
