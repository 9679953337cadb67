/** Reads that deliver more than the server's flight: what then decrypts, and what does not. */
module Overrun {
  import opened Bytes
  import opened Protocol
  import opened Record
  import opened Protection
  import opened Sequencing
  import opened Wire
  import opened Flow
  import opened HonestFlight

  /** Octets that end inside a record never decrypt. */
  lemma TailFails(c: Client, clientHello: bytes, buf: bytes)
    requires Frames(buf).rest != []
    ensures Decrypt(c, clientHello, buf).Err?
  {
  }

  lemma FramesOfWire(c: Client, items: seq<Item>, s: Server, part: bytes)
    requires Lawful(c.suite) && AllSendable(items)
    requires |s.secrets.serverKey| == KEY_SIZE && |s.secrets.serverIV| == NONCE_SIZE
    ensures Frames(MarshalAll(Records(c, items, s)) + part)
         == Framed(Records(c, items, s) + Frames(part).records, Frames(part).rest)
  {
    var rs := Records(c, items, s);
    SentDecodes(c.suite, s.secrets.serverKey, s.secrets.serverIV, 0, items);
    assert MarshalAll(rs) + [] == MarshalAll(rs) && [] + part == part;
    FramesExact(MarshalAll(rs), rs, []);
    FramesAppend(MarshalAll(rs), part);
  }

  lemma {:induction false} AppRecordsCount(rs: seq<TLSPlaintext>)
    ensures AppCount(AppRecords(rs)) == |AppRecords(rs)|
  {
    if rs == [] {
    } else {
      AppRecordsCount(rs[1..]);
      if rs[0].typ == APPLICATION_DATA {
        assert AppRecords(rs) == [rs[0]] + AppRecords(rs[1..]);
        assert AppRecords(rs)[1..] == AppRecords(rs[1..]);
      } else {
        assert AppRecords(rs) == AppRecords(rs[1..]);
      }
    }
  }

  lemma FirstFails(suite: Suite, key: bytes, iv: bytes, sn: uint64, recs: seq<TLSPlaintext>)
    requires |key| == KEY_SIZE && recs != [] && Opened(Some(suite(key)), iv, sn, recs[0]).Err?
    ensures Stepwise(suite, key, iv, sn, recs).result.Err?
  {
    SingleRecord(suite, key, iv, sn, recs[0]);
  }

  /** Records that decode, followed by one that does not at the next number, do not decode. */
  lemma NextFails(suite: Suite, key: bytes, iv: bytes, recs: seq<TLSPlaintext>, more: seq<TLSPlaintext>)
    requires |key| == KEY_SIZE && Stepwise(suite, key, iv, 0, recs).result.Ok? && AppCount(recs) == |recs|
    requires more != [] && Opened(Some(suite(key)), iv, Advance(0, |recs|), more[0]).Err?
    ensures OpenedRaw(suite, key, iv, 0, recs + more).Err?
  {
    SeqAfterSuccess(suite, key, iv, 0, recs);
    FirstFails(suite, key, iv, Advance(0, |recs|), more);
    StepwiseAppend(suite, key, iv, 0, recs, more);
    StepwiseIsWhole(suite, key, iv, 0, recs + more);
  }

  /** The first protected record of some octets, if there is one, does not open under the server's
      handshake key at the number after its flight. */
  ghost predicate Foreign(c: Client, items: seq<Item>, s: Server, part: bytes) {
    var recs := AppRecords(Frames(part).records);
    recs != [] && |s.secrets.serverKey| == KEY_SIZE ==>
      Opened(Some(c.suite(s.secrets.serverKey)), s.secrets.serverIV, Advance(0, |Plaintexts(items)|), recs[0]).Err?
  }

  lemma ForeignFails(c: Client, items: seq<Item>, s: Server, part: bytes)
    requires Lawful(c.suite) && AllSendable(items) && Foreign(c, items, s, part)
    requires |s.secrets.serverKey| == KEY_SIZE && |s.secrets.serverIV| == NONCE_SIZE
    requires AppRecords(Frames(part).records) != []
    ensures OpenedRaw(c.suite, s.secrets.serverKey, s.secrets.serverIV, 0,
                      AppRecords(Records(c, items, s)) + AppRecords(Frames(part).records)).Err?
  {
    SentDecodes(c.suite, s.secrets.serverKey, s.secrets.serverIV, 0, items);
    AppRecordsCount(Records(c, items, s));
    NextFails(c.suite, s.secrets.serverKey, s.secrets.serverIV, AppRecords(Records(c, items, s)), AppRecords(Frames(part).records));
  }

  /** A flight with octets after it whose first protected record is foreign decrypts only if they are
      whole records, none of them protected. */
  lemma PastTheFlight(c: Client, clientHello: bytes, items: seq<Item>, ms: seq<bytes>, s: Server, part: bytes)
    requires Answers(c, clientHello, items, ms, s) && Foreign(c, items, s, part)
    ensures Decrypt(c, clientHello, MarshalAll(Records(c, items, s)) + part).Ok? ==>
      Frames(part).rest == [] && AppRecords(Frames(part).records) == []
  {
    var rs, rp := Records(c, items, s), Frames(part).records;
    var buf := MarshalAll(rs) + part;
    FramesOfWire(c, items, s, part);
    if Frames(part).rest != [] {
      TailFails(c, clientHello, buf);
    } else if AppRecords(rp) != [] && SortedRecords(buf).Ok? {
      ForeignFails(c, items, s, part);
      SentDecodes(c.suite, s.secrets.serverKey, s.secrets.serverIV, 0, items);
      AppRecordsAppend(rs, rp);
      OtherRecordsAppend(rs, rp);
      ForeignStops(c, clientHello, items, s, buf, OtherRecords(rp), AppRecords(rs) + AppRecords(rp));
    }
  }

  lemma ForeignStops(c: Client, clientHello: bytes, items: seq<Item>, s: Server, buf: bytes,
                     clear: seq<TLSPlaintext>, app: seq<TLSPlaintext>)
    requires Greets(c, clientHello, items, s)
    requires SortedRecords(buf) == Ok(Sorted(ClearRecords(items) + clear, app))
    requires OpenedRaw(c.suite, s.secrets.serverKey, s.secrets.serverIV, 0, app).Err?
    ensures Decrypt(c, clientHello, buf).Err?
  {
    var sorted := Sorted(ClearRecords(items) + clear, app);
    if ServerHelloIn(sorted.plaintext).Err? {
      DecryptFails(c, clientHello, buf, sorted);
    } else {
      HelloOfPart(ClearRecords(items), clear);
      DecryptStops(c, clientHello, buf, sorted, ServerHelloIn(ClearRecords(items)).value, s.shared, s.secrets);
    }
  }

  /** The first part of octets that begin with a protected record: nothing of it is whole, or that
      record is. */
  lemma FirstRecordOfPart(part: bytes, rest: bytes, rs: seq<TLSPlaintext>, tail: bytes)
    requires Frames(part + rest) == Framed(rs, tail) && rs != [] && rs[0].typ == APPLICATION_DATA
    ensures Frames(part).records == [] ==> Frames(part).rest == part
    ensures Frames(part).records != [] ==>
      AppRecords(Frames(part).records) != [] && AppRecords(Frames(part).records)[0] == rs[0]
  {
    FramesAppend(part, rest);
    var f := Frames(part);
    FramesExact(part, f.records, f.rest);
    if f.records == [] {
      assert MarshalAll([]) + f.rest == f.rest;
    } else {
      assert f.records[0] == rs[0];
    }
  }
}
