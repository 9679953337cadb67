/** Sorting records by outer type, and what a peer that follows the protocol sends. */
module Wire {
  import opened Bytes
  import opened Protocol
  import opened Record
  import opened Protection
  import opened Sequencing

  function AppRecords(rs: seq<TLSPlaintext>): seq<TLSPlaintext> {
    if rs == [] then []
    else (if rs[0].typ == APPLICATION_DATA then [rs[0]] else []) + AppRecords(rs[1..])
  }

  function OtherRecords(rs: seq<TLSPlaintext>): seq<TLSPlaintext> {
    if rs == [] then []
    else (if rs[0].typ == APPLICATION_DATA then [] else [rs[0]]) + OtherRecords(rs[1..])
  }

  lemma {:induction false} AppRecordsAppend(a: seq<TLSPlaintext>, b: seq<TLSPlaintext>)
    ensures AppRecords(a + b) == AppRecords(a) + AppRecords(b)
  {
    if a == [] {
      assert a + b == b;
    } else {
      assert (a + b)[1..] == a[1..] + b && (a + b)[0] == a[0];
      AppRecordsAppend(a[1..], b);
      var head := if a[0].typ == APPLICATION_DATA then [a[0]] else [];
      Associate(head, AppRecords(a[1..]), AppRecords(b));
    }
  }

  lemma {:induction false} OtherRecordsAppend(a: seq<TLSPlaintext>, b: seq<TLSPlaintext>)
    ensures OtherRecords(a + b) == OtherRecords(a) + OtherRecords(b)
  {
    if a == [] {
      assert a + b == b;
    } else {
      assert (a + b)[1..] == a[1..] + b && (a + b)[0] == a[0];
      OtherRecordsAppend(a[1..], b);
      var head := if a[0].typ == APPLICATION_DATA then [] else [a[0]];
      Associate(head, OtherRecords(a[1..]), OtherRecords(b));
    }
  }

  lemma SortingLast(a: seq<TLSPlaintext>, r: TLSPlaintext)
    ensures AppRecords(a + [r]) == AppRecords(a) + (if r.typ == APPLICATION_DATA then [r] else [])
    ensures OtherRecords(a + [r]) == OtherRecords(a) + (if r.typ == APPLICATION_DATA then [] else [r])
  {
    AppRecordsAppend(a, [r]);
    OtherRecordsAppend(a, [r]);
    assert [r][1..] == [];
  }

  method ExtractApplicationDataCiphertextRecords(records: seq<TLSPlaintext>) returns (ciphertextRecords: seq<TLSPlaintext>)
    ensures ciphertextRecords == AppRecords(records)
  {
    ciphertextRecords := [];
    for i := 0 to |records|
      invariant ciphertextRecords == AppRecords(records[..i])
    {
      SortingLast(records[..i], records[i]);
      assert records[..i + 1] == records[..i] + [records[i]];
      if records[i].typ == APPLICATION_DATA {
        ciphertextRecords := ciphertextRecords + [records[i]];
      }
    }
    assert records[..|records|] == records;
  }

  datatype Sorted = Sorted(plaintext: seq<TLSPlaintext>, ciphertext: seq<TLSPlaintext>)

  ghost function SortedRecords(data: bytes): Result<Sorted, Error> {
    var r := RecordsOnly(data);
    if r.Err? then Err(r.error) else Ok(Sorted(OtherRecords(r.value), AppRecords(r.value)))
  }

  method ParseRecords(data: bytes) returns (r: Result<Sorted, Error>)
    ensures r == SortedRecords(data)
  {
    var allRecords :- ParseTLSPlaintextRecords(data);
    var plaintextRecords, ciphertextRecords := [], [];
    for i := 0 to |allRecords|
      invariant plaintextRecords == OtherRecords(allRecords[..i]) && ciphertextRecords == AppRecords(allRecords[..i])
    {
      var rec := allRecords[i];
      SortingLast(allRecords[..i], rec);
      assert allRecords[..i + 1] == allRecords[..i] + [rec];
      if rec.typ == APPLICATION_DATA {
        ciphertextRecords := ciphertextRecords + [rec];
      } else {
        plaintextRecords := plaintextRecords + [rec];
      }
    }
    assert allRecords[..|allRecords|] == allRecords;
    return Ok(Sorted(plaintextRecords, ciphertextRecords));
  }

  // ----- The sender -----

  /** What is sent: something protected, or a record of another type in the clear. */
  datatype Item = Protected(typ: byte, content: bytes) | Clear(record: TLSPlaintext)

  ghost predicate Sendable(item: Item) {
    match item
    case Protected(typ, content) => Sealable(typ, content)
    case Clear(rec) => rec.typ != APPLICATION_DATA && rec.WellFramed()
  }

  ghost predicate AllSendable(items: seq<Item>) {
    forall i :: 0 <= i < |items| ==> Sendable(items[i])
  }

  function Sent(suite: Suite, key: bytes, iv: bytes, sn: uint64, items: seq<Item>): seq<TLSPlaintext>
    requires |key| == KEY_SIZE && |iv| == NONCE_SIZE
    decreases |items|
  {
    if items == [] then []
    else
      match items[0]
      case Protected(typ, content) =>
        [Sealed(suite, key, iv, sn, typ, content).value] + Sent(suite, key, iv, NextSeq(sn), items[1..])
      case Clear(rec) => [rec] + Sent(suite, key, iv, sn, items[1..])
  }

  function ProtectedRecord(typ: byte, content: bytes): TLSPlaintext {
    TLSPlaintext(typ, TLS_VERSION_1_2, Uint16(|content|), content)
  }

  /** The plaintexts of the protected items, in order. */
  function Plaintexts(items: seq<Item>): seq<TLSPlaintext> {
    if items == [] then []
    else (if items[0].Protected? then [ProtectedRecord(items[0].typ, items[0].content)] else []) + Plaintexts(items[1..])
  }

  /** The contents that are sent as application data, in order: those of type 23. */
  function ApplicationContents(items: seq<Item>): bytes {
    if items == [] then []
    else
      var first := match items[0] { case Protected(typ, content) => if typ == 23 then content else [] case Clear(_) => [] };
      first + ApplicationContents(items[1..])
  }

  function ClearRecords(items: seq<Item>): seq<TLSPlaintext> {
    if items == [] then []
    else (if items[0].Clear? then [items[0].record] else []) + ClearRecords(items[1..])
  }

  /** What is sent is well framed, sorts into clear and protected parts, and the protected part
      decodes, one record at a time from the same sequence number, to what was sealed. */
  lemma {:induction false} SentDecodes(suite: Suite, key: bytes, iv: bytes, sn: uint64, items: seq<Item>)
    requires Lawful(suite) && |key| == KEY_SIZE && |iv| == NONCE_SIZE && AllSendable(items)
    ensures var rs := Sent(suite, key, iv, sn, items);
            && |rs| == |items| && AllWellFramed(rs)
            && OtherRecords(rs) == ClearRecords(items)
            && |AppRecords(rs)| == |Plaintexts(items)|
            && Stepwise(suite, key, iv, sn, AppRecords(rs)).result == Ok(Plaintexts(items))
    decreases |items|
  {
    if items == [] {
    } else {
      var rs := Sent(suite, key, iv, sn, items);
      assert Sendable(items[0]);
      match items[0]
      case Clear(rec) =>
        var rest := Sent(suite, key, iv, sn, items[1..]);
        assert rs == [rec] + rest && rs[1..] == rest;
        SentDecodes(suite, key, iv, sn, items[1..]);
        assert AppRecords(rs) == AppRecords(rest) && Plaintexts(items) == Plaintexts(items[1..]);
      case Protected(typ, content) =>
        var rest := Sent(suite, key, iv, NextSeq(sn), items[1..]);
        var rec := Sealed(suite, key, iv, sn, typ, content).value;
        assert rs == [rec] + rest && rs[1..] == rest;
        SentDecodes(suite, key, iv, NextSeq(sn), items[1..]);
        SealedOpens(suite, key, iv, sn, typ, content);
        SingleRecord(suite, key, iv, sn, rec);
        var app := AppRecords(rs);
        assert app == [rec] + AppRecords(rest) && app[1..] == AppRecords(rest);
    }
  }

  /** The numbers used up are the protected records, those of type 23. */
  lemma {:induction false} NumbersUsed(rs: seq<TLSPlaintext>)
    ensures AppCount(rs) == |AppRecords(rs)|
    ensures forall i :: 0 <= i < |AppRecords(rs)| ==> AppRecords(rs)[i].typ == 23
    ensures forall i :: 0 <= i < |OtherRecords(rs)| ==> OtherRecords(rs)[i].typ != 23
    ensures |AppRecords(rs)| + |OtherRecords(rs)| == |rs|
  {
    if rs == [] {
    } else {
      NumbersUsed(rs[1..]);
    }
  }
}
