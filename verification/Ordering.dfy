/** Protected records that are dropped, repeated, moved or mixed with others on the way. */
module Ordering {
  import opened Bytes
  import opened Protocol
  import opened Record
  import opened Nonce
  import opened Protection
  import opened Sequencing
  import opened Wire
  import opened Connection
  import opened AppReader

  const WRAP := 0x1_0000_0000_0000_0000

  /** The protected records of a sender that counts from zero. */
  ghost function SealedRecords(suite: Suite, key: bytes, iv: bytes, items: seq<Item>): seq<TLSPlaintext>
    requires |key| == KEY_SIZE && |iv| == NONCE_SIZE
  {
    AppRecords(Sent(suite, key, iv, 0, items))
  }

  /** What sending one more item in front adds. */
  lemma SealedStep(suite: Suite, key: bytes, iv: bytes, sn: uint64, items: seq<Item>)
    requires Lawful(suite) && |key| == KEY_SIZE && |iv| == NONCE_SIZE && items != [] && Sendable(items[0])
    ensures items[0].Clear? ==>
      AppRecords(Sent(suite, key, iv, sn, items)) == AppRecords(Sent(suite, key, iv, sn, items[1..]))
    ensures items[0].Protected? ==>
      AppRecords(Sent(suite, key, iv, sn, items))
      == [Sealed(suite, key, iv, sn, items[0].typ, items[0].content).value]
         + AppRecords(Sent(suite, key, iv, NextSeq(sn), items[1..]))
  {
    match items[0]
    case Clear(rec) =>
      var rest := Sent(suite, key, iv, sn, items[1..]);
      assert ([rec] + rest)[1..] == rest;
    case Protected(typ, content) =>
      var rest := Sent(suite, key, iv, NextSeq(sn), items[1..]);
      SealedOpens(suite, key, iv, sn, typ, content);
      assert ([Sealed(suite, key, iv, sn, typ, content).value] + rest)[1..] == rest;
  }

  /** A record and what it was sealed from. */
  ghost predicate SealedFrom(suite: Suite, key: bytes, iv: bytes, sn: uint64, p: TLSPlaintext, rec: TLSPlaintext)
    requires |key| == KEY_SIZE && |iv| == NONCE_SIZE
  {
    && Sealable(p.typ, p.payload) && p == ProtectedRecord(p.typ, p.payload)
    && rec == Sealed(suite, key, iv, sn, p.typ, p.payload).value
  }

  /** Record number `i` is sealed at the start number plus `i`. */
  lemma {:induction false} SealedAt(suite: Suite, key: bytes, iv: bytes, sn: uint64, items: seq<Item>, i: nat)
    requires Lawful(suite) && |key| == KEY_SIZE && |iv| == NONCE_SIZE && AllSendable(items)
    requires i < |Plaintexts(items)|
    ensures var rs := AppRecords(Sent(suite, key, iv, sn, items));
            i < |rs| && SealedFrom(suite, key, iv, Advance(sn, i), Plaintexts(items)[i], rs[i])
    decreases |items|
  {
    assert Sendable(items[0]);
    SealedStep(suite, key, iv, sn, items);
    match items[0]
    case Clear(rec) =>
      assert Plaintexts(items) == Plaintexts(items[1..]);
      SealedAt(suite, key, iv, sn, items[1..], i);
    case Protected(typ, content) =>
      assert Plaintexts(items) == [ProtectedRecord(typ, content)] + Plaintexts(items[1..]);
      if i > 0 {
        SealedAt(suite, key, iv, NextSeq(sn), items[1..], i - 1);
      }
  }

  /** A record opens at its own number to what was sealed, and at no other number. */
  lemma OpensAtItsNumber(suite: Suite, key: bytes, iv: bytes, a: uint64, b: uint64, typ: byte, content: bytes)
    requires Lawful(suite) && NonceBound(suite) && |key| == KEY_SIZE && |iv| == NONCE_SIZE && Sealable(typ, content)
    ensures Opened(Some(suite(key)), iv, b, Sealed(suite, key, iv, a, typ, content).value)
         == if a == b then Ok(Plain(content, typ)) else Err(BadRecordMac)
  {
    SealedOpens(suite, key, iv, a, typ, content);
    if a != b {
      var inner := BuildTLSInnerPlaintext(typ, content);
      var ad := CiphertextRecord(Zeros(|inner| + TAG_SIZE)).Header();
      var rec := Sealed(suite, key, iv, a, typ, content).value;
      assert OpensWhatItSeals(suite(key), RecordNonce(iv, a), inner, ad);
      assert rec.Header() == ad;
      NonceUnique(iv, iv, a, b);
      assert BoundToNonce(suite(key), RecordNonce(iv, a), RecordNonce(iv, b), inner, ad);
    }
  }

  ghost predicate SameNumber(i: nat, n: nat) {
    i % WRAP == n % WRAP
  }

  /** Sent as number `i`, taken as number `n`. */
  ghost predicate Place(aead: Aead, iv: bytes, rec: TLSPlaintext, out: TLSPlaintext, i: nat, n: nat) {
    var p := Opened(Some(aead), iv, Advance(0, n), rec);
    if SameNumber(i, n) then p.Ok? && out == PlainRecord(rec, p.value) else p == Err(BadRecordMac)
  }

  /** Every record opens in its own place. */
  ghost predicate InPlace(aead: Aead, iv: bytes, sealed: seq<TLSPlaintext>, plain: seq<TLSPlaintext>) {
    && |sealed| == |plain|
    && (forall i :: 0 <= i < |sealed| ==> sealed[i].WellFramed() && sealed[i].typ == APPLICATION_DATA)
    && (forall i: nat {:trigger Place(aead, iv, sealed[i], plain[i], i, i)} ::
          i < |sealed| ==> Place(aead, iv, sealed[i], plain[i], i, i))
  }

  /** And in no other. */
  ghost predicate OnlyInPlace(aead: Aead, iv: bytes, sealed: seq<TLSPlaintext>, plain: seq<TLSPlaintext>) {
    && InPlace(aead, iv, sealed, plain)
    && (forall i, n: nat :: 0 <= i < |sealed| ==> Place(aead, iv, sealed[i], plain[i], i, n))
  }

  lemma OpensInPlace(suite: Suite, key: bytes, iv: bytes, items: seq<Item>, i: nat)
    requires Lawful(suite) && |key| == KEY_SIZE && |iv| == NONCE_SIZE && AllSendable(items) && i < |Plaintexts(items)|
    ensures var rs := SealedRecords(suite, key, iv, items);
            && i < |rs| && rs[i].WellFramed() && rs[i].typ == APPLICATION_DATA
            && Place(suite(key), iv, rs[i], Plaintexts(items)[i], i, i)
  {
    var p := Plaintexts(items)[i];
    SealedAt(suite, key, iv, 0, items, i);
    SealedOpens(suite, key, iv, Advance(0, i), p.typ, p.payload);
  }

  lemma NumbersAgree(i: nat, n: nat)
    ensures Advance(0, i) == Advance(0, n) <==> SameNumber(i, n)
    ensures n < WRAP ==> Advance(0, n) == n
  {
    AdvanceIsSum(0, i);
    AdvanceIsSum(0, n);
  }

  lemma OpensOnlyInPlace(suite: Suite, key: bytes, iv: bytes, items: seq<Item>, i: nat, n: nat)
    requires Lawful(suite) && NonceBound(suite) && |key| == KEY_SIZE && |iv| == NONCE_SIZE && AllSendable(items)
    requires i < |Plaintexts(items)|
    ensures var rs := SealedRecords(suite, key, iv, items);
            i < |rs| && Place(suite(key), iv, rs[i], Plaintexts(items)[i], i, n)
  {
    var p := Plaintexts(items)[i];
    SealedAt(suite, key, iv, 0, items, i);
    OpensAtItsNumber(suite, key, iv, Advance(0, i), Advance(0, n), p.typ, p.payload);
    OpensInPlace(suite, key, iv, items, i);
    NumbersAgree(i, n);
  }

  lemma SealedInPlace(suite: Suite, key: bytes, iv: bytes, items: seq<Item>)
    requires Lawful(suite) && |key| == KEY_SIZE && |iv| == NONCE_SIZE && AllSendable(items)
    ensures InPlace(suite(key), iv, SealedRecords(suite, key, iv, items), Plaintexts(items))
  {
    SentDecodes(suite, key, iv, 0, items);
    forall i: nat | i < |Plaintexts(items)|
      ensures var rs := SealedRecords(suite, key, iv, items);
              rs[i].WellFramed() && rs[i].typ == APPLICATION_DATA && Place(suite(key), iv, rs[i], Plaintexts(items)[i], i, i)
    {
      OpensInPlace(suite, key, iv, items, i);
    }
  }

  lemma SealedOnlyInPlace(suite: Suite, key: bytes, iv: bytes, items: seq<Item>)
    requires Lawful(suite) && NonceBound(suite) && |key| == KEY_SIZE && |iv| == NONCE_SIZE && AllSendable(items)
    ensures OnlyInPlace(suite(key), iv, SealedRecords(suite, key, iv, items), Plaintexts(items))
  {
    SealedInPlace(suite, key, iv, items);
    forall i: nat, n: nat | i < |Plaintexts(items)|
      ensures Place(suite(key), iv, SealedRecords(suite, key, iv, items)[i], Plaintexts(items)[i], i, n)
    {
      OpensOnlyInPlace(suite, key, iv, items, i, n);
    }
  }

  // ----- Any selection of what was sent -----

  /** The places of a selection, in any order, with any repetition. */
  ghost predicate Selects(f: seq<nat>, n: nat) {
    forall j :: 0 <= j < |f| ==> f[j] < n
  }

  ghost function Select(rs: seq<TLSPlaintext>, f: seq<nat>): seq<TLSPlaintext>
    requires Selects(f, |rs|)
  {
    seq(|f|, j requires 0 <= j < |f| => rs[f[j]])
  }

  /** Every delivered record stands where its number is expected. */
  ghost predicate InStep(f: seq<nat>, from: nat) {
    forall j: nat :: from <= j < |f| ==> SameNumber(f[j], j)
  }

  lemma {:induction false} SelectionFrom(aead: Aead, iv: bytes, sealed: seq<TLSPlaintext>, plain: seq<TLSPlaintext>,
                                         f: seq<nat>, n: nat)
    requires OnlyInPlace(aead, iv, sealed, plain) && Selects(f, |sealed|) && n <= |f|
    ensures OpenedAll(Some(aead), iv, Advance(0, n), Select(sealed, f)[n..])
         == if InStep(f, n) then Ok(Select(plain, f)[n..]) else Err(BadRecordMac)
    decreases |f| - n
  {
    if n == |f| {
      assert Select(sealed, f)[n..] == [] && Select(plain, f)[n..] == [];
    } else {
      SelectionStep(aead, iv, sealed, plain, f, n);
      SelectionFrom(aead, iv, sealed, plain, f, n + 1);
      SelectStep(plain, f, n);
      InStepHead(f, n);
    }
  }

  lemma SelectStep(rs: seq<TLSPlaintext>, f: seq<nat>, n: nat)
    requires Selects(f, |rs|) && n < |f|
    ensures Prepend([rs[f[n]]], Ok(Select(rs, f)[n + 1..])) == Ok(Select(rs, f)[n..])
  {
    assert Select(rs, f)[n..] == [rs[f[n]]] + Select(rs, f)[n + 1..];
  }

  lemma InStepHead(f: seq<nat>, n: nat)
    requires n < |f|
    ensures InStep(f, n) <==> SameNumber(f[n], n) && InStep(f, n + 1)
  {
  }

  lemma SelectionStep(aead: Aead, iv: bytes, sealed: seq<TLSPlaintext>, plain: seq<TLSPlaintext>, f: seq<nat>, n: nat)
    requires OnlyInPlace(aead, iv, sealed, plain) && Selects(f, |sealed|) && n < |f|
    ensures OpenedAll(Some(aead), iv, Advance(0, n), Select(sealed, f)[n..])
         == if !SameNumber(f[n], n) then Err(BadRecordMac)
            else Prepend([plain[f[n]]], OpenedAll(Some(aead), iv, Advance(0, n + 1), Select(sealed, f)[n + 1..]))
  {
    var left := Select(sealed, f);
    assert Place(aead, iv, sealed[f[n]], plain[f[n]], f[n], n);
    AdvanceOnce(0, n);
    assert left[n..][0] == sealed[f[n]] && left[n..][1..] == left[n + 1..];
  }

  ghost predicate FirstOnes(f: seq<nat>, n: nat) {
    |f| <= n && forall j :: 0 <= j < |f| ==> f[j] == j
  }

  lemma InStepIsPrefix(f: seq<nat>, n: nat)
    requires Selects(f, n) && n < WRAP
    ensures InStep(f, 0) <==> FirstOnes(f, n)
  {
    if |f| > n {
      assert !SameNumber(f[n], n);
    }
  }

  lemma {:induction false} AllProtected(rs: seq<TLSPlaintext>)
    requires forall i :: 0 <= i < |rs| ==> rs[i].typ == APPLICATION_DATA
    ensures AppRecords(rs) == rs
  {
    if rs == [] {
    } else {
      AllProtected(rs[1..]);
      assert rs == [rs[0]] + rs[1..];
    }
  }

  lemma SelectionIsFramed(aead: Aead, iv: bytes, sealed: seq<TLSPlaintext>, plain: seq<TLSPlaintext>, f: seq<nat>, tail: bytes)
    requires InPlace(aead, iv, sealed, plain) && Selects(f, |sealed|) && !HasRecord(tail)
    ensures AppRecords(Frames(MarshalAll(Select(sealed, f)) + tail).records) == Select(sealed, f)
  {
    var left := Select(sealed, f);
    FramesExact(MarshalAll(left) + tail, left, tail);
    AllProtected(left);
  }

  lemma SelectionDecodes(aead: Aead, iv: bytes, sealed: seq<TLSPlaintext>, plain: seq<TLSPlaintext>, f: seq<nat>)
    requires OnlyInPlace(aead, iv, sealed, plain) && Selects(f, |sealed|) && |sealed| < WRAP
    ensures OpenedAll(Some(aead), iv, 0, Select(sealed, f))
         == if FirstOnes(f, |sealed|) then Ok(plain[..|f|]) else Err(BadRecordMac)
  {
    SelectionFrom(aead, iv, sealed, plain, f, 0);
    assert Select(sealed, f)[0..] == Select(sealed, f) && Select(plain, f)[0..] == Select(plain, f);
    InStepIsPrefix(f, |sealed|);
    if FirstOnes(f, |sealed|) {
      assert Select(plain, f) == plain[..|f|];
    }
  }

  /** Under an AEAD bound to its nonce: drop, repeat or move any of the protected records. If what is
      left is a first part of what was sent, in order, its contents are delivered; in every other
      case the outcome is a bad MAC and nothing is delivered. */
  lemma OnlyAPrefixIsDelivered(suite: Suite, key: bytes, iv: bytes, items: seq<Item>, f: seq<nat>, tail: bytes, final: Error)
    requires Lawful(suite) && NonceBound(suite) && |key| == KEY_SIZE && |iv| == NONCE_SIZE && AllSendable(items)
    requires Selects(f, |SealedRecords(suite, key, iv, items)|) && |Plaintexts(items)| < WRAP
    requires !HasRecord(tail) && (final == Eof || final == Timeout)
    ensures |SealedRecords(suite, key, iv, items)| == |Plaintexts(items)|
    ensures var r := StreamOutcome(suite, key, iv, MarshalAll(Select(SealedRecords(suite, key, iv, items), f)) + tail, final);
            if !FirstOnes(f, |Plaintexts(items)|) then r == Err(BadRecordMac)
            else if f == [] then r == Err(final)
            else r == Ok(AppData(AppPayloads(Plaintexts(items)[..|f|]), Plaintexts(items)[..|f|]))
                 && r.value.data <= ApplicationContents(items)
  {
    PayloadsAreContents(items);
    if |f| <= |Plaintexts(items)| {
      PayloadsOfPart(Plaintexts(items), |f|);
    }
    var sealed := SealedRecords(suite, key, iv, items);
    SealedOnlyInPlace(suite, key, iv, items);
    SelectionIsFramed(suite(key), iv, sealed, Plaintexts(items), f, tail);
    SelectionDecodes(suite(key), iv, sealed, Plaintexts(items), f);
    StepwiseIsWhole(suite, key, iv, 0, Select(sealed, f));
  }

  // ----- Any octets at all -----

  /** A record that opens at some number is one that was sealed under that number. */
  ghost predicate Genuine(aead: Aead, iv: bytes, sealed: seq<TLSPlaintext>, rec: TLSPlaintext, sn: uint64) {
    Opened(Some(aead), iv, sn, rec).Ok? ==> exists i :: 0 <= i < |sealed| && i % WRAP == sn && rec == sealed[i]
  }

  ghost predicate AllGenuine(aead: Aead, iv: bytes, sealed: seq<TLSPlaintext>, recs: seq<TLSPlaintext>) {
    forall j, sn: uint64 :: 0 <= j < |recs| ==> Genuine(aead, iv, sealed, recs[j], sn)
  }

  /** None of the protected records among the octets is forged. */
  ghost predicate NoForgery(suite: Suite, key: bytes, iv: bytes, items: seq<Item>, data: bytes)
    requires |key| == KEY_SIZE && |iv| == NONCE_SIZE
  {
    AllGenuine(suite(key), iv, SealedRecords(suite, key, iv, items), AppRecords(Frames(data).records))
  }

  lemma GenuineNumber(aead: Aead, iv: bytes, sealed: seq<TLSPlaintext>, rec: TLSPlaintext, n: uint64)
    requires Genuine(aead, iv, sealed, rec, n) && |sealed| < WRAP && Opened(Some(aead), iv, n, rec).Ok?
    ensures n < |sealed| && rec == sealed[n]
  {
    var i :| 0 <= i < |sealed| && i % WRAP == n && rec == sealed[i];
  }

  lemma GenuineHere(aead: Aead, iv: bytes, sealed: seq<TLSPlaintext>, plain: seq<TLSPlaintext>, rec: TLSPlaintext, n: nat)
    requires InPlace(aead, iv, sealed, plain) && |sealed| < WRAP && n <= |sealed|
    requires Genuine(aead, iv, sealed, rec, Advance(0, n))
    ensures var p := Opened(Some(aead), iv, Advance(0, n), rec); p.Ok? ==> n < |sealed| && plain[n] == PlainRecord(rec, p.value)
  {
    NumbersAgree(n, n);
    if Opened(Some(aead), iv, n, rec).Ok? {
      GenuineNumber(aead, iv, sealed, rec, n);
      assert Place(aead, iv, sealed[n], plain[n], n, n);
    }
  }

  lemma {:induction false} GenuineFrom(aead: Aead, iv: bytes, sealed: seq<TLSPlaintext>, plain: seq<TLSPlaintext>,
                                       recs: seq<TLSPlaintext>, n: nat)
    requires InPlace(aead, iv, sealed, plain) && |sealed| < WRAP && n <= |recs| && n <= |sealed|
    requires AllGenuine(aead, iv, sealed, recs) && forall j :: 0 <= j < |recs| ==> recs[j].typ == APPLICATION_DATA
    ensures var r := OpenedAll(Some(aead), iv, Advance(0, n), recs[n..]);
            r.Ok? ==> |recs| <= |plain| && r.value == plain[n..|recs|]
    decreases |recs| - n
  {
    if n == |recs| {
      assert recs[n..] == [] && plain[n..n] == [];
    } else {
      assert Genuine(aead, iv, sealed, recs[n], Advance(0, n));
      GenuineHere(aead, iv, sealed, plain, recs[n], n);
      AdvanceOnce(0, n);
      assert recs[n..][0] == recs[n] && recs[n..][1..] == recs[n + 1..];
      if n < |sealed| {
        GenuineFrom(aead, iv, sealed, plain, recs, n + 1);
        if |recs| <= |plain| {
          assert plain[n..|recs|] == [plain[n]] + plain[n + 1..|recs|];
        }
      }
    }
  }

  lemma {:induction false} AppRecordsAreProtected(rs: seq<TLSPlaintext>)
    ensures forall i :: 0 <= i < |AppRecords(rs)| ==> AppRecords(rs)[i].typ == APPLICATION_DATA
  {
    if rs == [] {
    } else {
      AppRecordsAreProtected(rs[1..]);
    }
  }

  lemma PayloadsOfPart(rs: seq<TLSPlaintext>, n: nat)
    requires n <= |rs|
    ensures AppPayloads(rs[..n]) <= AppPayloads(rs)
  {
    assert rs == rs[..n] + rs[n..];
    AppPayloadsAppend(rs[..n], rs[n..]);
  }

  /** Whatever octets arrive, with records dropped, repeated, moved, altered or added: as long as
      none is forged, a success delivers a first part of what the sender sealed, in order. */
  lemma OnlyWhatWasSealed(suite: Suite, key: bytes, iv: bytes, items: seq<Item>, data: bytes, final: Error)
    requires Lawful(suite) && |key| == KEY_SIZE && |iv| == NONCE_SIZE && AllSendable(items)
    requires |Plaintexts(items)| < WRAP && NoForgery(suite, key, iv, items, data)
    ensures var r := StreamOutcome(suite, key, iv, data, final);
            r.Ok? ==> r.value.records <= Plaintexts(items) && r.value.data <= ApplicationContents(items)
  {
    PayloadsAreContents(items);
    var recs := AppRecords(Frames(data).records);
    StepwiseIsWhole(suite, key, iv, 0, recs);
    if OpenedRaw(suite, key, iv, 0, recs).Ok? {
      PlainIsPart(suite, key, iv, items, data, OpenedRaw(suite, key, iv, 0, recs).value);
    }
  }

  lemma PlainIsPart(suite: Suite, key: bytes, iv: bytes, items: seq<Item>, data: bytes, plain: seq<TLSPlaintext>)
    requires Lawful(suite) && |key| == KEY_SIZE && |iv| == NONCE_SIZE && AllSendable(items)
    requires |Plaintexts(items)| < WRAP && NoForgery(suite, key, iv, items, data)
    requires OpenedRaw(suite, key, iv, 0, AppRecords(Frames(data).records)) == Ok(plain)
    ensures plain <= Plaintexts(items) && AppPayloads(plain) <= AppPayloads(Plaintexts(items))
  {
    SealedInPlace(suite, key, iv, items);
    AppRecordsAreProtected(Frames(data).records);
    GenuineList(suite(key), iv, SealedRecords(suite, key, iv, items), Plaintexts(items), AppRecords(Frames(data).records));
  }

  lemma GenuineList(aead: Aead, iv: bytes, sealed: seq<TLSPlaintext>, plain: seq<TLSPlaintext>, recs: seq<TLSPlaintext>)
    requires InPlace(aead, iv, sealed, plain) && |sealed| < WRAP
    requires AllGenuine(aead, iv, sealed, recs) && forall j :: 0 <= j < |recs| ==> recs[j].typ == APPLICATION_DATA
    ensures var r := OpenedAll(Some(aead), iv, 0, recs);
            r.Ok? ==> r.value <= plain && AppPayloads(r.value) <= AppPayloads(plain)
  {
    GenuineFrom(aead, iv, sealed, plain, recs, 0);
    assert recs[0..] == recs;
    if |recs| <= |plain| {
      assert plain[0..|recs|] == plain[..|recs|];
      PayloadsOfPart(plain, |recs|);
    }
  }

  /** Nothing that only drops, repeats or moves records is a forgery. */
  lemma SelectionIsGenuine(suite: Suite, key: bytes, iv: bytes, items: seq<Item>, f: seq<nat>, tail: bytes)
    requires Lawful(suite) && NonceBound(suite) && |key| == KEY_SIZE && |iv| == NONCE_SIZE && AllSendable(items)
    requires Selects(f, |SealedRecords(suite, key, iv, items)|) && !HasRecord(tail)
    ensures NoForgery(suite, key, iv, items, MarshalAll(Select(SealedRecords(suite, key, iv, items), f)) + tail)
  {
    var sealed := SealedRecords(suite, key, iv, items);
    SealedOnlyInPlace(suite, key, iv, items);
    SelectionIsFramed(suite(key), iv, sealed, Plaintexts(items), f, tail);
    SelectionGenuine(suite(key), iv, sealed, Plaintexts(items), f);
  }

  lemma SelectionGenuine(aead: Aead, iv: bytes, sealed: seq<TLSPlaintext>, plain: seq<TLSPlaintext>, f: seq<nat>)
    requires OnlyInPlace(aead, iv, sealed, plain) && Selects(f, |sealed|)
    ensures AllGenuine(aead, iv, sealed, Select(sealed, f))
  {
    forall j, sn: uint64 | 0 <= j < |f| ensures Genuine(aead, iv, sealed, Select(sealed, f)[j], sn) {
      NumbersAgree(f[j], sn);
      assert Place(aead, iv, sealed[f[j]], plain[f[j]], f[j], sn);
    }
  }
}
