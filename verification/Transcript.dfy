/** The transcripts that are signed, authenticated and fed to the key schedule (section 4.4.1 of
    RFC 8446). */
module Transcript {
  import opened Bytes
  import opened Protocol
  import opened Record
  import opened Reassembly

  /** The transcript up to, and without, the first message of a type. */
  function TranscriptBefore(clientHello: bytes, serverHello: bytes, records: seq<TLSPlaintext>, stop: byte)
    : Result<bytes, Error>
  {
    var ms :- Collected(HandshakeStream(records));
    if Occurs(ms, stop) then Ok(clientHello + serverHello + Concat(ms[..IndexOf(ms, stop)])) else Err(MessageNotFound(stop))
  }

  lemma ConcatNext(ms: seq<bytes>, i: nat, before: bytes)
    requires i < |ms|
    ensures before + Concat(ms[..i + 1]) == before + Concat(ms[..i]) + ms[i]
  {
    assert ms[..i + 1] == ms[..i] + [ms[i]];
    ConcatLast(ms[..i], ms[i]);
    Associate(before, Concat(ms[..i]), ms[i]);
  }

  method BuildTLS13HandshakeTranscriptBeforeMessageType(clientHello: bytes, serverHello: bytes,
                                                        records: seq<TLSPlaintext>, stopType: byte)
    returns (r: Result<bytes, Error>)
    ensures r == TranscriptBefore(clientHello, serverHello, records, stopType)
  {
    var messages :- CollectHandshakeMessages(records);
    var transcript := clientHello;
    transcript := transcript + serverHello;
    var foundStopMessage := false;
    CollectedExact(HandshakeStream(records), messages, []);
    assert transcript == clientHello + serverHello + Concat(messages[..0]);
    for i := 0 to |messages|
      invariant !foundStopMessage && IndexOf(messages, stopType) >= i
      invariant transcript == clientHello + serverHello + Concat(messages[..i])
    {
      var message := messages[i];
      assert IsMessage(message);
      if |message| < HANDSHAKE_HEADER_LEN {
        continue;
      }
      if message[0] == stopType {
        foundStopMessage := true;
        break;
      }
      ConcatNext(messages, i, clientHello + serverHello);
      transcript := transcript + message;
    }
    if !foundStopMessage {
      return Err(MessageNotFound(stopType));
    }
    return Ok(transcript);
  }

  /** The transcript that the session keys are derived from. */
  function SessionTranscript(clientHello: bytes, serverHello: bytes, records: seq<TLSPlaintext>): Result<bytes, Error> {
    var messages :- ConcatenatedMessages(records);
    Ok(clientHello + serverHello + messages)
  }

  lemma ConcatCut(ms: seq<bytes>, k: nat)
    requires k < |ms|
    ensures Concat(ms) == Concat(ms[..k]) + (ms[k] + Concat(ms[k + 1..]))
  {
    assert ms == ms[..k] + ms[k..] && ms[k..][1..] == ms[k + 1..];
    ConcatAppend(ms[..k], ms[k..]);
  }

  /** Both paths agree: a transcript that builds, the message it stops at and the messages after
      it are together what the session keys hash; and it builds exactly when the messages collect
      and the type occurs. */
  lemma TranscriptsCohere(clientHello: bytes, serverHello: bytes, records: seq<TLSPlaintext>, stop: byte)
    ensures var t := TranscriptBefore(clientHello, serverHello, records, stop);
            var c := Collected(HandshakeStream(records));
            && (c.Err? ==> t == Err(c.error))
            && (c.Ok? && !Occurs(c.value, stop) ==> t == Err(MessageNotFound(stop)))
            && (t.Ok? <==> c.Ok? && Occurs(c.value, stop))
            && (t.Ok? ==>
                  var k := IndexOf(c.value, stop);
                  && FirstOf(c.value, stop) == Some(c.value[k])
                  && SessionTranscript(clientHello, serverHello, records)
                     == Ok(t.value + (c.value[k] + Concat(c.value[k + 1..]))))
  {
    var c := Collected(HandshakeStream(records));
    if c.Ok? && Occurs(c.value, stop) {
      var k := IndexOf(c.value, stop);
      CollectedExact(HandshakeStream(records), c.value, []);
      ConcatCut(c.value, k);
      Associate(clientHello + serverHello, Concat(c.value[..k]), c.value[k] + Concat(c.value[k + 1..]));
    }
  }

  lemma ConcatGrows(ms: seq<bytes>, i: nat, j: nat)
    requires i <= j <= |ms| && AllMessages(ms)
    ensures Concat(ms[..i]) <= Concat(ms[..j])
    ensures i < j ==> |Concat(ms[..i])| < |Concat(ms[..j])|
  {
    assert ms[..j] == ms[..i] + ms[i..j];
    ConcatAppend(ms[..i], ms[i..j]);
    if i < j {
      assert IsMessage(ms[i]) && ms[i..j][0] == ms[i];
    }
  }

  /** One transcript continues another exactly when its stop message comes no earlier. The order
      of the messages is not enforced, so what a transcript covers is decided by the flight. */
  lemma TranscriptOrder(clientHello: bytes, serverHello: bytes, records: seq<TLSPlaintext>, t1: byte, t2: byte)
    requires TranscriptBefore(clientHello, serverHello, records, t1).Ok?
    requires TranscriptBefore(clientHello, serverHello, records, t2).Ok?
    ensures var ms := Collected(HandshakeStream(records)).value;
            (TranscriptBefore(clientHello, serverHello, records, t1).value
             <= TranscriptBefore(clientHello, serverHello, records, t2).value)
            <==> IndexOf(ms, t1) <= IndexOf(ms, t2)
  {
    var ms := Collected(HandshakeStream(records)).value;
    CollectedExact(HandshakeStream(records), ms, []);
    var i, j := IndexOf(ms, t1), IndexOf(ms, t2);
    var ch := clientHello + serverHello;
    if i <= j {
      ConcatGrows(ms, i, j);
      assert ch + Concat(ms[..i]) <= ch + Concat(ms[..j]);
    } else {
      ConcatGrows(ms, j, i);
      assert |ch + Concat(ms[..i])| > |ch + Concat(ms[..j])|;
    }
  }

  /** The standard derives the session keys over the messages up to the server Finished. The
      client hashes the whole flight instead, which is the same exactly when Finished is last. */
  lemma SessionTranscriptEndsWithFinished(clientHello: bytes, serverHello: bytes, records: seq<TLSPlaintext>)
    requires TranscriptBefore(clientHello, serverHello, records, FINISHED).Ok?
    ensures var ms := Collected(HandshakeStream(records)).value;
            (SessionTranscript(clientHello, serverHello, records)
             == Ok(TranscriptBefore(clientHello, serverHello, records, FINISHED).value + FirstOf(ms, FINISHED).value))
            <==> IndexOf(ms, FINISHED) == |ms| - 1
  {
    TranscriptsCohere(clientHello, serverHello, records, FINISHED);
    var ms := Collected(HandshakeStream(records)).value;
    CollectedExact(HandshakeStream(records), ms, []);
    var k := IndexOf(ms, FINISHED);
    var t := TranscriptBefore(clientHello, serverHello, records, FINISHED).value;
    if k == |ms| - 1 {
      assert ms[k + 1..] == [] && ms[k] + [] == ms[k];
    } else {
      assert IsMessage(ms[k + 1]);
      assert |t + (ms[k] + Concat(ms[k + 1..]))| > |t + ms[k]|;
    }
  }
}
