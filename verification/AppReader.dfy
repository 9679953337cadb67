/** Reading application data from a connection that delivers octets in arbitrary pieces. */
module AppReader {
  import opened Bytes
  import opened Protocol
  import opened Record
  import opened Protection
  import opened Sequencing
  import opened Wire
  import opened Connection

  function AppPayloads(records: seq<TLSPlaintext>): bytes {
    if records == [] then []
    else (if records[0].typ == APPLICATION_DATA then records[0].payload else []) + AppPayloads(records[1..])
  }

  lemma {:induction false} AppPayloadsAppend(a: seq<TLSPlaintext>, b: seq<TLSPlaintext>)
    ensures AppPayloads(a + b) == AppPayloads(a) + AppPayloads(b)
  {
    if a == [] {
      assert a + b == b;
    } else {
      assert (a + b)[1..] == a[1..] + b && (a + b)[0] == a[0];
      AppPayloadsAppend(a[1..], b);
      var p := if a[0].typ == APPLICATION_DATA then a[0].payload else [];
      Associate(p, AppPayloads(a[1..]), AppPayloads(b));
    }
  }

  method CollectApplicationDataFromPlaintextRecords(records: seq<TLSPlaintext>) returns (collected: bytes)
    ensures collected == AppPayloads(records)
  {
    collected := [];
    for i := 0 to |records|
      invariant collected == AppPayloads(records[..i])
    {
      AppPayloadsAppend(records[..i], [records[i]]);
      assert records[..i + 1] == records[..i] + [records[i]];
      assert [records[i]][1..] == [] && records[i].payload + [] == records[i].payload;
      if records[i].typ != APPLICATION_DATA {
        assert collected + [] == collected;
        continue;
      }
      collected := collected + records[i].payload;
    }
    assert records[..|records|] == records;
  }

  /** Application data is what the application items carry, and nothing of any other item. */
  lemma {:induction false} PayloadsAreContents(items: seq<Item>)
    ensures AppPayloads(Plaintexts(items)) == ApplicationContents(items)
  {
    if items == [] {
    } else {
      PayloadsAreContents(items[1..]);
      match items[0]
      case Clear(_) =>
        assert Plaintexts(items) == Plaintexts(items[1..]);
      case Protected(typ, content) =>
        var first, rest := ProtectedRecord(typ, content), Plaintexts(items[1..]);
        assert Plaintexts(items) == [first] + rest && ([first] + rest)[1..] == rest;
    }
  }

  function ApplicationItems(contents: seq<bytes>): seq<Item> {
    seq(|contents|, i requires 0 <= i < |contents| => Protected(23, contents[i]))
  }

  /** So the contents of application items alone are all concatenated, and items of other types add
      nothing wherever they stand. */
  lemma {:induction false} ContentsOfApplicationItems(contents: seq<bytes>)
    ensures ApplicationContents(ApplicationItems(contents)) == Concat(contents)
  {
    if contents == [] {
    } else {
      ContentsOfApplicationItems(contents[1..]);
      assert ApplicationItems(contents)[1..] == ApplicationItems(contents[1..]);
    }
  }

  lemma {:induction false} OtherItemsAddNothing(before: seq<Item>, item: Item, after: seq<Item>)
    requires item.Clear? || item.typ != 23
    ensures ApplicationContents(before + [item] + after) == ApplicationContents(before + after)
  {
    if before == [] {
      assert ([] + [item] + after)[1..] == after && [] + after == after;
    } else {
      OtherItemsAddNothing(before[1..], item, after);
      assert (before + [item] + after)[1..] == before[1..] + [item] + after && (before + after)[1..] == before[1..] + after;
    }
  }

  datatype AppData = AppData(data: bytes, records: seq<TLSPlaintext>)
  type Outcome = Result<AppData, Error>

  /** What decoding the protected records of a stream, all together, comes to. */
  ghost function StreamBatch(suite: Suite, key: bytes, iv: bytes, data: bytes): Batch
  {
    Stepwise(suite, key, iv, 0, AppRecords(Frames(data).records))
  }

  /** The result in terms of the octets and the final error alone. */
  ghost function StreamOutcome(suite: Suite, key: bytes, iv: bytes, data: bytes, final: Error): Outcome
  {
    var decoded := StreamBatch(suite, key, iv, data).result;
    if decoded.Err? then Err(decoded.error)
    else if decoded.value != [] && EndsQuietly(final) then Ok(AppData(AppPayloads(decoded.value), decoded.value))
    else Err(final)
  }

  /** More octets extend what was decoded, or leave the error that was found. */
  lemma StreamGrows(suite: Suite, key: bytes, iv: bytes, data: bytes, more: bytes)
    ensures var before := StreamBatch(suite, key, iv, data);
            var after := StreamBatch(suite, key, iv, data + more);
            if before.result.Err? then after == before
            else
              var next := Stepwise(suite, key, iv, before.nextSeq, AppRecords(Frames(Frames(data).rest + more).records));
              after == Batch(Prepend(before.result.value, next.result), next.nextSeq)
    ensures Frames(data + more).rest == Frames(Frames(data).rest + more).rest
  {
    var early, late := Frames(data).records, Frames(Frames(data).rest + more).records;
    FramesAppend(data, more);
    AppRecordsAppend(early, late);
    StepwiseAppend(suite, key, iv, 0, AppRecords(early), AppRecords(late));
  }

  /** The state carried from read to read is a function of the octets seen so far. */
  ghost predicate CaughtUp(suite: Suite, key: bytes, iv: bytes, seen: bytes,
                           remainder: bytes, sn: uint64, collected: bytes, decoded: seq<TLSPlaintext>)
  {
    && remainder == Frames(seen).rest
    && StreamBatch(suite, key, iv, seen) == Batch(Ok(decoded), sn)
    && collected == AppPayloads(decoded)
  }

  /** Whatever follows, the outcome is this error. */
  ghost predicate Doomed(suite: Suite, key: bytes, iv: bytes, seen: bytes, e: Error) {
    forall future, final :: StreamOutcome(suite, key, iv, seen + future, final) == Err(e)
  }

  /** When no more octets come, the state tells the outcome. */
  lemma Settled(suite: Suite, key: bytes, iv: bytes, seen: bytes,
                remainder: bytes, sn: uint64, collected: bytes, decoded: seq<TLSPlaintext>, final: Error)
    requires CaughtUp(suite, key, iv, seen, remainder, sn, collected, decoded)
    ensures StreamOutcome(suite, key, iv, seen, final)
         == if EndsQuietly(final) && (|collected| > 0 || |decoded| > 0) then Ok(AppData(collected, decoded)) else Err(final)
  {
  }

  /** Taking in one chunk: either decoding its records fails, and then so does the whole stream
      whatever follows, or the state catches up with the longer stream. */
  lemma TakeIn(suite: Suite, key: bytes, iv: bytes, seen: bytes,
               remainder: bytes, sn: uint64, collected: bytes, decoded: seq<TLSPlaintext>, chunk: bytes)
    requires CaughtUp(suite, key, iv, seen, remainder, sn, collected, decoded)
    ensures var framed := Frames(remainder + chunk);
            var batch := Stepwise(suite, key, iv, sn, AppRecords(framed.records));
            if batch.result.Err? then Doomed(suite, key, iv, seen + chunk, batch.result.error)
            else CaughtUp(suite, key, iv, seen + chunk, framed.rest, batch.nextSeq,
                          collected + AppPayloads(batch.result.value), decoded + batch.result.value)
  {
    var batch := Stepwise(suite, key, iv, sn, AppRecords(Frames(remainder + chunk).records));
    StreamGrows(suite, key, iv, seen, chunk);
    if batch.result.Err? {
      forall future, final ensures StreamOutcome(suite, key, iv, seen + chunk + future, final) == Err(batch.result.error) {
        StreamGrows(suite, key, iv, seen + chunk, future);
      }
    } else {
      AppPayloadsAppend(decoded, batch.result.value);
    }
  }

  /** What one read adds: the tail to carry, the decoded records and the next number, their data. */
  method DecodeChunk(suite: Suite, chunk: bytes, key: bytes, iv: bytes, sn: uint64)
    returns (rest: bytes, batch: Batch, decoded: bytes)
    requires chunk != []
    ensures rest == Frames(chunk).rest && batch == Stepwise(suite, key, iv, sn, AppRecords(Frames(chunk).records))
    ensures batch.result.Ok? ==> decoded == AppPayloads(batch.result.value)
  {
    var framed := ParseTLSPlaintextRecordsWithRemainder(chunk);
    if framed.Err? {
      assert false; // the input is not empty
    }
    rest, batch, decoded := framed.value.rest, Batch(Ok([]), sn), [];
    var ciphertextRecords := ExtractApplicationDataCiphertextRecords(framed.value.records);
    if |ciphertextRecords| > 0 {
      batch := DecodeTLSCiphertextRecordsAndNextSeq(suite, ciphertextRecords, key, iv, sn);
      if batch.result.Ok? {
        decoded := CollectApplicationDataFromPlaintextRecords(batch.result.value);
      }
    }
  }

  /** However the octets are cut into reads, the outcome depends only on their concatenation and
      on the error that ends the reads. */
  method ReadServerApplicationData(suite: Suite, events: seq<ReadEvent>, serverAppKey: bytes, serverAppIV: bytes)
    returns (r: Outcome)
    ensures r == StreamOutcome(suite, serverAppKey, serverAppIV, Received(events), FinalError(events))
  {
    var remainder, sn, collected, decodedRecords := [], 0, [], [];
    var i := 0;
    ghost var seen: bytes := [];
    FramesStep([]);
    assert events[0..] == events && [] + Received(events) == Received(events);
    while true
      invariant 0 <= i <= |events| && Pending(events, i, seen)
      invariant CaughtUp(suite, serverAppKey, serverAppIV, seen, remainder, sn, collected, decodedRecords)
      decreases |events| - i
    {
      var event := EventAt(events, i);
      ghost var future := PendingStep(events, i, seen);
      if |event.data| > 0 {
        var chunk := remainder + event.data;
        TakeIn(suite, serverAppKey, serverAppIV, seen, remainder, sn, collected, decodedRecords, event.data);
        var rest, batch, decoded := DecodeChunk(suite, chunk, serverAppKey, serverAppIV, sn);
        remainder, sn := rest, batch.nextSeq;
        if batch.result.Err? {
          assert Received(events) == (seen + event.data) + future;
          return Err(batch.result.error);
        }
        decodedRecords := decodedRecords + batch.result.value;
        collected := collected + decoded;
      } else {
        assert seen + event.data == seen;
      }
      seen := seen + event.data;
      assert CaughtUp(suite, serverAppKey, serverAppIV, seen, remainder, sn, collected, decodedRecords);
      if event.err.None? {
        i := i + 1;
        continue;
      }
      Settled(suite, serverAppKey, serverAppIV, seen, remainder, sn, collected, decodedRecords, event.err.value);
      if event.err.value == Timeout || event.err.value == Eof {
        if |collected| > 0 || |decodedRecords| > 0 {
          return Ok(AppData(collected, decodedRecords));
        }
        return Err(event.err.value);
      }
      return Err(event.err.value);
    }
  }

  /** What a peer that follows the protocol sends arrives: with at least one protected item, in
      any pieces, even cut off inside a further record, and ended by EOF or the read deadline, the
      result is what the application items contain and one record for each protected item, in order;
      any other end, or none sealed, gives the error that ended the reads. */
  lemma ApplicationDataArrives(suite: Suite, key: bytes, iv: bytes, items: seq<Item>, tail: bytes, final: Error)
    requires Lawful(suite) && |key| == KEY_SIZE && |iv| == NONCE_SIZE && AllSendable(items)
    requires !HasRecord(tail)
    ensures StreamOutcome(suite, key, iv, MarshalAll(Sent(suite, key, iv, 0, items)) + tail, final)
         == if Plaintexts(items) != [] && (final == Eof || final == Timeout)
            then Ok(AppData(ApplicationContents(items), Plaintexts(items))) else Err(final)
  {
    PayloadsAreContents(items);
    var rs := Sent(suite, key, iv, 0, items);
    SentDecodes(suite, key, iv, 0, items);
    FramesExact(MarshalAll(rs) + tail, rs, tail);
  }

  /** A protected record that does not open decides the outcome: those before it all open, none of
      their data is delivered, and nothing that follows matters. */
  lemma FirstBadRecordDecides(suite: Suite, key: bytes, iv: bytes, data: bytes) returns (k: nat)
    requires StreamBatch(suite, key, iv, data).result.Err?
    ensures var recs := AppRecords(Frames(data).records);
            && k < |recs|
            && Stepwise(suite, key, iv, 0, recs[..k]).result.Ok?
            && var r := OpenedRaw(suite, key, iv, Advance(0, AppCount(recs[..k])), [recs[k]]);
               r.Err? && forall more, final :: StreamOutcome(suite, key, iv, data + more, final) == Err(r.error)
  {
    k := SeqAfterFailure(suite, key, iv, 0, AppRecords(Frames(data).records));
    var e := StreamBatch(suite, key, iv, data).result.error;
    forall more, final ensures StreamOutcome(suite, key, iv, data + more, final) == Err(e) {
      StreamGrows(suite, key, iv, data, more);
    }
  }

  /** Cutting a stream short never changes or reorders what it delivers. */
  lemma TruncationDeliversAPrefix(suite: Suite, key: bytes, iv: bytes, data: bytes, more: bytes, final: Error)
    requires EndsQuietly(final)
    requires StreamOutcome(suite, key, iv, data + more, final).Ok?
    ensures var whole := StreamOutcome(suite, key, iv, data + more, final).value;
            var cut := StreamOutcome(suite, key, iv, data, final);
            cut == Err(final) || (cut.Ok? && cut.value.data <= whole.data && cut.value.records <= whole.records)
  {
    StreamGrows(suite, key, iv, data, more);
    var before := StreamBatch(suite, key, iv, data);
    if before.result.Ok? {
      var next := Stepwise(suite, key, iv, before.nextSeq, AppRecords(Frames(Frames(data).rest + more).records));
      AppPayloadsAppend(before.result.value, next.result.value);
    }
  }
}
