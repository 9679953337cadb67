/** Record protection (section 5.2 of RFC 8446) over an abstract AEAD. */
module Protection {
  import opened Bytes
  import opened Protocol
  import opened Record
  import opened Nonce

  /** A keyed AEAD: `seal` and `open` take the nonce, the text and the additional data. */
  datatype AnyAead = AnyAead(
    nonceSize: nat,
    overhead: nat,
    seal: (bytes, bytes, bytes) -> bytes,
    open: (bytes, bytes, bytes) -> Option<bytes>)

  /** The nonce loop needs room for eight octets, and panics otherwise. */
  type Aead = a: AnyAead | a.nonceSize >= 8
    witness AnyAead(8, 0, (nonce: bytes, text: bytes, ad: bytes) => text, (nonce: bytes, sealed: bytes, ad: bytes) => None)

  /** A cipher family: the AEAD of every key. */
  type Suite = bytes -> Aead

  ghost predicate OpensWhatItSeals(a: Aead, nonce: bytes, text: bytes, ad: bytes) {
    |nonce| == a.nonceSize ==>
      && |a.seal(nonce, text, ad)| == |text| + a.overhead
      && a.open(nonce, a.seal(nonce, text, ad), ad) == Some(text)
  }

  ghost predicate LawfulAead(a: Aead) {
    && a.nonceSize == NONCE_SIZE && a.overhead == TAG_SIZE
    && forall nonce, text, ad :: OpensWhatItSeals(a, nonce, text, ad)
  }

  /** All that is assumed of ChaCha20-Poly1305. */
  ghost predicate Lawful(suite: Suite) {
    forall key: bytes :: |key| == KEY_SIZE ==> LawfulAead(suite(key))
  }

  function NewAead(suite: Suite, key: bytes): Result<Aead, Error> {
    if |key| != KEY_SIZE then Err(InvalidKeyLength(|key|)) else Ok(suite(key))
  }

  /** Assumed only where records are dropped, repeated or moved: what was sealed under one nonce
      does not open under another. */
  ghost predicate BoundToNonce(a: Aead, nonce: bytes, other: bytes, text: bytes, ad: bytes) {
    |nonce| == |other| == a.nonceSize && nonce != other ==> a.open(other, a.seal(nonce, text, ad), ad) == None
  }

  ghost predicate NonceBound(suite: Suite) {
    forall key: bytes, nonce, other, text, ad :: |key| == KEY_SIZE ==> BoundToNonce(suite(key), nonce, other, text, ad)
  }

  function PlainTag(nonce: bytes): (tag: bytes)
    ensures |tag| == TAG_SIZE
  {
    if |nonce| == NONCE_SIZE then nonce + Zeros(TAG_SIZE - NONCE_SIZE) else Zeros(TAG_SIZE)
  }

  /** A cipher that only appends the nonce; the assumptions can be met. */
  const PLAIN_SUITE: Suite := (key: bytes) =>
    AnyAead(NONCE_SIZE, TAG_SIZE,
         (nonce: bytes, text: bytes, ad: bytes) => text + PlainTag(nonce),
         (nonce: bytes, sealed: bytes, ad: bytes) =>
           if |sealed| >= TAG_SIZE && sealed[|sealed| - TAG_SIZE..] == PlainTag(nonce)
           then Some(sealed[..|sealed| - TAG_SIZE]) else None)

  lemma PlainSuiteIsLawful()
    ensures Lawful(PLAIN_SUITE) && NonceBound(PLAIN_SUITE)
  {
    forall key: bytes, nonce, other, text: bytes, ad | |key| == KEY_SIZE
      ensures BoundToNonce(PLAIN_SUITE(key), nonce, other, text, ad)
    {
      if |nonce| == |other| == NONCE_SIZE {
        assert PlainTag(nonce)[..NONCE_SIZE] == nonce && PlainTag(other)[..NONCE_SIZE] == other;
        var sealed := text + PlainTag(nonce);
        assert sealed[|sealed| - TAG_SIZE..] == PlainTag(nonce);
      }
    }
  }

  // ----- Sealing -----

  function BuildTLSInnerPlaintext(typ: byte, content: bytes): bytes {
    TLSInnerPlaintext(content, typ, []).Marshal()
  }

  function CiphertextRecord(payload: bytes): TLSPlaintext {
    TLSPlaintext(APPLICATION_DATA, TLS_VERSION_1_2, Uint16(|payload|), payload)
  }

  function Sealed(suite: Suite, key: bytes, iv: bytes, sn: uint64, typ: byte, content: bytes)
    : Result<TLSPlaintext, Error>
    requires |key| == KEY_SIZE ==> |iv| == NONCE_SIZE
  {
    var aead :- NewAead(suite, key);
    var inner := BuildTLSInnerPlaintext(typ, content);
    var ad := CiphertextRecord(Zeros(|inner| + TAG_SIZE)).Header();
    Ok(CiphertextRecord(aead.seal(RecordNonce(iv, sn), inner, ad)))
  }

  method EncryptTLS13RecordPayload(suite: Suite, key: bytes, iv: bytes, sn: uint64, ad: bytes, inner: bytes)
    returns (r: Result<bytes, Error>)
    requires |key| == KEY_SIZE ==> |iv| == NONCE_SIZE
    ensures r == if |key| != KEY_SIZE then Err(InvalidKeyLength(|key|))
                 else Ok(suite(key).seal(RecordNonce(iv, sn), inner, ad))
  {
    var aead :- NewAead(suite, key);
    var nonce := BuildTLS13Nonce(iv, sn);
    return Ok(aead.seal(nonce[..], inner, ad));
  }

  /** The content is not bounded here, and both casts of its length to uint16 truncate. */
  method EncryptTLS13Record(suite: Suite, key: bytes, iv: bytes, sn: uint64, typ: byte, content: bytes)
    returns (r: Result<TLSPlaintext, Error>)
    requires |key| == KEY_SIZE ==> |iv| == NONCE_SIZE
    ensures r == Sealed(suite, key, iv, sn, typ, content)
  {
    var inner := BuildTLSInnerPlaintext(typ, content);
    var rec := CiphertextRecord(Zeros(|inner| + TAG_SIZE));
    var header := HeaderBytes(rec);
    var payload :- EncryptTLS13RecordPayload(suite, key, iv, sn, header[..], inner);
    rec := rec.(payload := payload);
    rec := rec.(length := Uint16(|payload|));
    return Ok(rec);
  }

  // ----- Opening one record -----

  datatype Plain = Plain(content: bytes, typ: byte)

  /** What a record means under a key; records of other types pass through as they are. */
  function Opened(aead: Option<Aead>, iv: bytes, sn: uint64, rec: TLSPlaintext): Result<Plain, Error>
  {
    if rec.typ != APPLICATION_DATA then Ok(Plain(rec.payload, rec.typ))
    else if aead.None? then Err(NilAead)
    else if |iv| != aead.value.nonceSize then Err(InvalidIvLength(|iv|))
    else if |rec.payload| < aead.value.overhead then Err(BadRecordMac)
    else
      match aead.value.open(RecordNonce(iv, sn), rec.payload, rec.Header())
      case None => Err(BadRecordMac)
      case Some(text) =>
        match InnerOf(text)
        case Err(_) => Err(UnexpectedMessage)
        case Ok(inner) =>
          if |inner.content| > MAX_PAYLOAD_LEN then Err(RecordOverflow) else Ok(Plain(inner.content, inner.typ))
  }

  method DecodeTLSCiphertextRecordWithAEAD(rec: TLSPlaintext, aead: Option<Aead>, iv: bytes, sn: uint64)
    returns (r: Result<Plain, Error>)
    ensures r == Opened(aead, iv, sn, rec)
  {
    if rec.typ != APPLICATION_DATA {
      return Ok(Plain(rec.payload, rec.typ));
    }
    if aead.None? {
      return Err(NilAead);
    }
    if |iv| != aead.value.nonceSize {
      return Err(InvalidIvLength(|iv|));
    }
    if |rec.payload| < aead.value.overhead {
      return Err(BadRecordMac);
    }
    var nonce := BuildTLS13Nonce(iv, sn);
    var header := HeaderBytes(rec);
    var plaintext := aead.value.open(nonce[..], rec.payload, header[..]);
    if plaintext.None? {
      return Err(BadRecordMac);
    }
    var inner := ParseTLSInnerPlaintext(plaintext.value);
    if inner.Err? {
      return Err(UnexpectedMessage);
    }
    if |inner.value.content| > MAX_PAYLOAD_LEN {
      return Err(RecordOverflow);
    }
    return Ok(Plain(inner.value.content, inner.value.typ));
  }

  /** A protected record opens to a plaintext exactly when the AEAD accepts it and the text it
      holds is that content, its type and some zeros, within the size limit. */
  lemma OpenedExact(aead: Aead, iv: bytes, sn: uint64, rec: TLSPlaintext, p: Plain)
    requires LawfulAead(aead) && |iv| == NONCE_SIZE && rec.typ == APPLICATION_DATA
    ensures Opened(Some(aead), iv, sn, rec) == Ok(p)
       <==> exists padding ::
              && AllZero(padding) && p.typ != 0 && |p.content| <= MAX_PAYLOAD_LEN && |rec.payload| >= TAG_SIZE
              && aead.open(RecordNonce(iv, sn), rec.payload, rec.Header()) == Some(p.content + [p.typ] + padding)
  {
    if Opened(Some(aead), iv, sn, rec) == Ok(p) {
      var text := aead.open(RecordNonce(iv, sn), rec.payload, rec.Header()).value;
      InnerExact(text, InnerOf(text).value);
      assert text == p.content + [p.typ] + InnerOf(text).value.padding;
    }
    forall padding |
      && AllZero(padding) && p.typ != 0 && |p.content| <= MAX_PAYLOAD_LEN && |rec.payload| >= TAG_SIZE
      && aead.open(RecordNonce(iv, sn), rec.payload, rec.Header()) == Some(p.content + [p.typ] + padding)
      ensures Opened(Some(aead), iv, sn, rec) == Ok(p)
    {
      InnerExact(p.content + [p.typ] + padding, TLSInnerPlaintext(p.content, p.typ, padding));
    }
  }

  /** Which error a protected record gives. */
  lemma OpenedErrors(aead: Aead, iv: bytes, sn: uint64, rec: TLSPlaintext)
    requires LawfulAead(aead) && |iv| == NONCE_SIZE && rec.typ == APPLICATION_DATA
    ensures var text := aead.open(RecordNonce(iv, sn), rec.payload, rec.Header());
            var r := Opened(Some(aead), iv, sn, rec);
            && (r == Err(BadRecordMac) <==> |rec.payload| < TAG_SIZE || text.None?)
            && (r == Err(UnexpectedMessage) <==> |rec.payload| >= TAG_SIZE && text.Some? && AllZero(text.value))
            && (r == Err(RecordOverflow) <==>
                  && |rec.payload| >= TAG_SIZE && text.Some?
                  && exists p :: ValidInner(p) && text.value == p.Marshal() && |p.content| > MAX_PAYLOAD_LEN)
  {
    var text := aead.open(RecordNonce(iv, sn), rec.payload, rec.Header());
    if text.Some? {
      var inner := InnerOf(text.value);
      if inner.Ok? {
        InnerExact(text.value, inner.value);
      }
      forall p | ValidInner(p) && text.value == p.Marshal() ensures inner == Ok(p) {
        InnerExact(text.value, p);
      }
      InnerExact(text.value, TLSInnerPlaintext([], 0, []));
    }
  }

  /** Records of other types than 23 pass as they are; before the cipher is asked, it must be there,
      the iv must have its length, and the payload must hold a tag. */
  lemma OpenedBefore(aead: Option<Aead>, iv: bytes, sn: uint64, rec: TLSPlaintext)
    ensures rec.typ != 23 ==> Opened(aead, iv, sn, rec) == Ok(Plain(rec.payload, rec.typ))
    ensures rec.typ == 23 && aead.None? ==> Opened(aead, iv, sn, rec) == Err(NilAead)
    ensures rec.typ == 23 && aead.Some? && |iv| != aead.value.nonceSize ==> Opened(aead, iv, sn, rec) == Err(InvalidIvLength(|iv|))
    ensures rec.typ == 23 && aead.Some? && |iv| == aead.value.nonceSize && |rec.payload| < aead.value.overhead ==>
      Opened(aead, iv, sn, rec) == Err(BadRecordMac)
  {
  }

  /** What is sealed, and under which header: content and type, with type 23, version 0x0303 and the
      length of the sealed text as additional data. */
  lemma SealedOctets(suite: Suite, key: bytes, iv: bytes, sn: uint64, typ: byte, content: bytes)
    requires Lawful(suite) && |key| == 32 && |iv| == 12
    ensures var length: uint16 := (|content| + 17) % 0x1_0000;
            var header: bytes := [23, 3, 3, length / 256, length % 256];
            Sealed(suite, key, iv, sn, typ, content)
            == Ok(TLSPlaintext(23, 0x0303, length, suite(key).seal(RecordNonce(iv, sn), content + [typ], header)))
  {
    var inner := BuildTLSInnerPlaintext(typ, content);
    assert inner == content + [typ];
    assert OpensWhatItSeals(suite(key), RecordNonce(iv, sn), inner, CiphertextRecord(Zeros(|inner| + TAG_SIZE)).Header());
  }

  predicate Sealable(typ: byte, content: bytes) {
    typ != 0 && |content| <= MAX_PAYLOAD_LEN
  }

  /** Sealing sets no limit, so what is sealed comes back exactly when the type is not zero and the
      content is within the limit that opening enforces; the record can be framed up to the range
      of its length field. The header that was authenticated is the one recomputed on opening. */
  lemma SealedOpensExactly(suite: Suite, key: bytes, iv: bytes, sn: uint64, typ: byte, content: bytes)
    requires Lawful(suite) && |key| == KEY_SIZE && |iv| == NONCE_SIZE
    ensures var r := Sealed(suite, key, iv, sn, typ, content);
            && r.Ok? && r.value.typ == APPLICATION_DATA && r.value.version == TLS_VERSION_1_2
            && |r.value.payload| == |content| + 1 + TAG_SIZE
            && (r.value.WellFramed() <==> |content| + 1 + TAG_SIZE <= 0xffff)
            && (Opened(Some(suite(key)), iv, sn, r.value) == Ok(Plain(content, typ)) <==> typ != 0 && |content| <= 16384)
  {
    var aead := suite(key);
    var inner := BuildTLSInnerPlaintext(typ, content);
    var ad := CiphertextRecord(Zeros(|inner| + TAG_SIZE)).Header();
    var rec := Sealed(suite, key, iv, sn, typ, content).value;
    assert OpensWhatItSeals(aead, RecordNonce(iv, sn), inner, ad);
    assert rec.Header() == ad;
    InnerExact(inner, TLSInnerPlaintext(content, typ, []));
    if InnerOf(inner).Ok? {
      InnerExact(inner, InnerOf(inner).value);
    }
  }

  /** One record through the wire: sealed, encoded, parsed and opened at the same sequence number. */
  lemma SealedOpens(suite: Suite, key: bytes, iv: bytes, sn: uint64, typ: byte, content: bytes)
    requires Lawful(suite) && |key| == KEY_SIZE && |iv| == NONCE_SIZE && Sealable(typ, content)
    ensures var r := Sealed(suite, key, iv, sn, typ, content);
            && r.Ok? && r.value.WellFramed() && r.value.typ == APPLICATION_DATA
            && r.value.version == TLS_VERSION_1_2
            && Frames(r.value.Marshal()) == Framed([r.value], [])
            && Opened(Some(suite(key)), iv, sn, r.value) == Ok(Plain(content, typ))
  {
    SealedOpensExactly(suite, key, iv, sn, typ, content);
    FramesOfOne(Sealed(suite, key, iv, sn, typ, content).value);
  }

  // ----- Opening a batch -----

  function Advance(sn: uint64, n: nat): uint64
    decreases n
  {
    if n == 0 then sn else Advance(NextSeq(sn), n - 1)
  }

  lemma AddAfterNext(sn: uint64, m: nat)
    ensures (NextSeq(sn) + m) % 0x1_0000_0000_0000_0000 == (sn + 1 + m) % 0x1_0000_0000_0000_0000
  {
    if sn + 1 == 0x1_0000_0000_0000_0000 {
      assert NextSeq(sn) == 0;
    }
  }

  lemma {:induction false} AdvanceIsSum(sn: uint64, n: nat)
    ensures Advance(sn, n) == (sn + n) % 0x1_0000_0000_0000_0000
    decreases n
  {
    if n == 0 {
    } else {
      AdvanceIsSum(NextSeq(sn), n - 1);
      AddAfterNext(sn, n - 1);
    }
  }

  lemma {:induction false} AdvanceOnce(sn: uint64, n: nat)
    ensures Advance(sn, n + 1) == NextSeq(Advance(sn, n))
    decreases n
  {
    if n == 0 {
    } else {
      AdvanceOnce(NextSeq(sn), n - 1);
    }
  }

  /** Counting on from zero, the nonces of two records coincide exactly when the sequence number
      has wrapped around between them. */
  lemma NoncesRepeatOnlyAfterWrap(iv: bytes, i: nat, j: nat)
    requires |iv| >= 8
    ensures RecordNonce(iv, Advance(0, i)) == RecordNonce(iv, Advance(0, j))
       <==> i % 0x1_0000_0000_0000_0000 == j % 0x1_0000_0000_0000_0000
  {
    AdvanceIsSum(0, i);
    AdvanceIsSum(0, j);
    NonceUnique(iv, iv, Advance(0, i), Advance(0, j));
  }

  function AppCount(recs: seq<TLSPlaintext>): nat {
    if recs == [] then 0
    else (if recs[0].typ == APPLICATION_DATA then 1 else 0) + AppCount(recs[1..])
  }

  lemma {:induction false} AppCountAppend(a: seq<TLSPlaintext>, b: seq<TLSPlaintext>)
    ensures AppCount(a + b) == AppCount(a) + AppCount(b)
  {
    if a == [] {
      assert a + b == b;
    } else {
      assert (a + b)[1..] == a[1..] + b;
      AppCountAppend(a[1..], b);
    }
  }

  function SeqAfter(sn: uint64, rec: TLSPlaintext): uint64 {
    if rec.typ == APPLICATION_DATA then NextSeq(sn) else sn
  }

  function PlainRecord(rec: TLSPlaintext, p: Plain): TLSPlaintext {
    TLSPlaintext(p.typ, rec.version, Uint16(|p.content|), p.content)
  }

  type Decoded = Result<seq<TLSPlaintext>, Error>

  function Prepend(done: seq<TLSPlaintext>, r: Decoded): Decoded {
    if r.Ok? then Ok(done + r.value) else r
  }

  lemma PrependLaws(a: seq<TLSPlaintext>, b: seq<TLSPlaintext>, r: Decoded)
    ensures Prepend(a, Prepend(b, r)) == Prepend(a + b, r) && Prepend([], r) == r
  {
    if r.Ok? {
      assert a + (b + r.value) == (a + b) + r.value && [] + r.value == r.value;
    }
  }

  function OpenedAll(aead: Option<Aead>, iv: bytes, sn: uint64, recs: seq<TLSPlaintext>): Decoded
    decreases |recs|
  {
    if recs == [] then Ok([])
    else
      var p :- Opened(aead, iv, sn, recs[0]);
      Prepend([PlainRecord(recs[0], p)], OpenedAll(aead, iv, SeqAfter(sn, recs[0]), recs[1..]))
  }

  method DecodeTLSCiphertextRecordsWithAEAD(recs: seq<TLSPlaintext>, aead: Option<Aead>, iv: bytes, initialSeq: uint64)
    returns (r: Decoded)
    ensures r == OpenedAll(aead, iv, initialSeq, recs)
  {
    var plaintextRecords, sn := [], initialSeq;
    assert recs[0..] == recs;
    PrependLaws([], [], OpenedAll(aead, iv, sn, recs));
    for i := 0 to |recs|
      invariant OpenedAll(aead, iv, initialSeq, recs) == Prepend(plaintextRecords, OpenedAll(aead, iv, sn, recs[i..]))
    {
      var rec := recs[i];
      var p :- DecodeTLSCiphertextRecordWithAEAD(rec, aead, iv, sn);
      assert recs[i..][1..] == recs[i + 1..];
      if rec.typ == APPLICATION_DATA {
        sn := NextSeq(sn);
      }
      PrependLaws(plaintextRecords, [PlainRecord(rec, p)], OpenedAll(aead, iv, sn, recs[i + 1..]));
      plaintextRecords := plaintextRecords + [TLSPlaintext(p.typ, rec.version, Uint16(|p.content|), p.content)];
    }
    assert recs[|recs|..] == [] && plaintextRecords + [] == plaintextRecords;
    return Ok(plaintextRecords);
  }

  /** Record number i opens to `out` at the start number plus the protected records before it. */
  ghost predicate OpensAt(aead: Option<Aead>, iv: bytes, sn: uint64, recs: seq<TLSPlaintext>, i: nat, out: TLSPlaintext)
    requires i < |recs|
  {
    var p := Opened(aead, iv, Advance(sn, AppCount(recs[..i])), recs[i]);
    && p.Ok? && out.typ == p.value.typ && out.payload == p.value.content
    && out.version == recs[i].version && out.length == |p.value.content| % 0x1_0000
  }

  lemma AdvanceHead(sn: uint64, recs: seq<TLSPlaintext>)
    requires recs != []
    ensures Advance(sn, AppCount(recs)) == Advance(SeqAfter(sn, recs[0]), AppCount(recs[1..]))
  {
  }

  lemma AdvanceShift(sn: uint64, recs: seq<TLSPlaintext>, k: nat)
    requires k < |recs|
    ensures Advance(sn, AppCount(recs[..k + 1])) == Advance(SeqAfter(sn, recs[0]), AppCount(recs[1..][..k]))
  {
    assert recs[..k + 1][1..] == recs[1..][..k];
    AdvanceHead(sn, recs[..k + 1]);
  }

  lemma OpensAtShift(aead: Option<Aead>, iv: bytes, sn: uint64, recs: seq<TLSPlaintext>, i: nat, out: TLSPlaintext)
    requires i < |recs| - 1
    ensures OpensAt(aead, iv, sn, recs, i + 1, out) == OpensAt(aead, iv, SeqAfter(sn, recs[0]), recs[1..], i, out)
  {
    AdvanceShift(sn, recs, i);
  }

  ghost predicate AllOpenTo(aead: Option<Aead>, iv: bytes, sn: uint64, recs: seq<TLSPlaintext>, plain: seq<TLSPlaintext>)
  {
    |plain| == |recs| && forall i :: 0 <= i < |recs| ==> OpensAt(aead, iv, sn, recs, i, plain[i])
  }

  lemma AllOpenStep(aead: Option<Aead>, iv: bytes, sn: uint64, recs: seq<TLSPlaintext>, plain: seq<TLSPlaintext>)
    requires recs != [] && plain != []
    ensures AllOpenTo(aead, iv, sn, recs, plain)
       <==> && OpensAt(aead, iv, sn, recs, 0, plain[0])
            && AllOpenTo(aead, iv, SeqAfter(sn, recs[0]), recs[1..], plain[1..])
  {
    forall i | 0 <= i < |recs| - 1 && |plain| == |recs|
      ensures OpensAt(aead, iv, sn, recs, i + 1, plain[i + 1])
           == OpensAt(aead, iv, SeqAfter(sn, recs[0]), recs[1..], i, plain[1..][i])
    {
      OpensAtShift(aead, iv, sn, recs, i, plain[i + 1]);
    }
    if |plain| == |recs| && OpensAt(aead, iv, sn, recs, 0, plain[0])
       && AllOpenTo(aead, iv, SeqAfter(sn, recs[0]), recs[1..], plain[1..]) {
      forall i | 1 <= i < |recs| ensures OpensAt(aead, iv, sn, recs, i, plain[i]) {
        assert OpensAt(aead, iv, SeqAfter(sn, recs[0]), recs[1..], i - 1, plain[1..][i - 1]);
      }
    }
  }

  lemma OpenedAllStep(aead: Option<Aead>, iv: bytes, sn: uint64, recs: seq<TLSPlaintext>, plain: seq<TLSPlaintext>)
    requires recs != []
    ensures OpenedAll(aead, iv, sn, recs) == Ok(plain)
       <==> && plain != []
            && OpensAt(aead, iv, sn, recs, 0, plain[0])
            && OpenedAll(aead, iv, SeqAfter(sn, recs[0]), recs[1..]) == Ok(plain[1..])
  {
    assert recs[..0] == [] && Advance(sn, 0) == sn;
    var p := Opened(aead, iv, sn, recs[0]);
    if p.Ok? {
      var tail := OpenedAll(aead, iv, SeqAfter(sn, recs[0]), recs[1..]);
      if tail.Ok? {
        var whole := [PlainRecord(recs[0], p.value)] + tail.value;
        assert whole[1..] == tail.value;
        assert plain != [] ==> plain == [plain[0]] + plain[1..];
      }
    }
  }

  /** A batch decodes to a list exactly when each of its records opens to the item in its place. */
  lemma {:induction false} OpenedAllExact(aead: Option<Aead>, iv: bytes, sn: uint64, recs: seq<TLSPlaintext>,
                                          plain: seq<TLSPlaintext>)
    ensures OpenedAll(aead, iv, sn, recs) == Ok(plain) <==> AllOpenTo(aead, iv, sn, recs, plain)
    decreases |recs|
  {
    if recs == [] {
      assert OpenedAll(aead, iv, sn, recs) == Ok([]);
    } else {
      OpenedAllStep(aead, iv, sn, recs, plain);
      if plain != [] {
        AllOpenStep(aead, iv, sn, recs, plain);
        OpenedAllExact(aead, iv, SeqAfter(sn, recs[0]), recs[1..], plain[1..]);
      }
    }
  }

  function OpenedRaw(suite: Suite, key: bytes, iv: bytes, sn: uint64, recs: seq<TLSPlaintext>): Decoded
  {
    var aead :- NewAead(suite, key);
    OpenedAll(Some(aead), iv, sn, recs)
  }
}
