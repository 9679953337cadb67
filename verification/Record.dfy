/** The record layer: framing (section 5.1 of RFC 8446) and inner plaintexts (section 5.4). */
module Record {
  import opened Bytes
  import opened Protocol
  import opened Framing

  datatype TLSPlaintext = TLSPlaintext(typ: byte, version: uint16, length: uint16, payload: bytes) {
    function Marshal(): bytes {
      [typ] + Be16(version) + Be16(length) + payload
    }

    /** The five header octets, which are also the additional data of a protected record. */
    function Header(): bytes {
      [typ, version / 256, version % 256, length / 256, length % 256]
    }

    predicate WellFramed() {
      length == |payload|
    }
  }

  function NewTLSPlaintext(typ: byte, fragment: bytes): (r: Result<TLSPlaintext, Error>) {
    if |fragment| > MAX_PAYLOAD_LEN then Err(PayloadTooLarge)
    else Ok(TLSPlaintext(typ, TLS_VERSION_1_2, Uint16(|fragment|), fragment))
  }

  method HeaderBytes(r: TLSPlaintext) returns (header: array<byte>)
    ensures fresh(header) && header[..] == r.Header()
  {
    header := new byte[RECORD_HEADER_LEN];
    header[0] := r.typ;
    header[1] := r.version / 256;
    header[2] := r.version % 256;
    header[3] := r.length / 256;
    header[4] := r.length % 256;
  }

  // ----- Framing -----

  function RecordNeed(s: bytes): Option<nat> {
    if |s| < RECORD_HEADER_LEN then None else Some(RECORD_HEADER_LEN + U16(s[3..]))
  }

  predicate HasRecord(s: bytes) {
    HasUnit(RecordNeed, s)
  }

  lemma RecordNeedIsPrefixed()
    ensures Prefixed(RecordNeed)
  {
  }

  function Encodings(rs: seq<TLSPlaintext>): (us: seq<bytes>) {
    seq(|rs|, i requires 0 <= i < |rs| => rs[i].Marshal())
  }

  function MarshalAll(rs: seq<TLSPlaintext>): bytes {
    Concat(Encodings(rs))
  }

  predicate AllWellFramed(rs: seq<TLSPlaintext>) {
    forall i :: 0 <= i < |rs| ==> rs[i].WellFramed()
  }

  function RecordOf(u: bytes): TLSPlaintext
    requires |u| >= RECORD_HEADER_LEN
  {
    TLSPlaintext(u[0], U16(u[1..]), U16(u[3..]), u[5..])
  }

  function RecordsOf(us: seq<bytes>): seq<TLSPlaintext>
    requires AllWhole(RecordNeed, us)
  {
    seq(|us|, i requires 0 <= i < |us| => assert Whole(RecordNeed, us[i]); RecordOf(us[i]))
  }

  lemma RecordsOfAppend(us: seq<bytes>, vs: seq<bytes>)
    requires AllWhole(RecordNeed, us) && AllWhole(RecordNeed, vs)
    ensures AllWhole(RecordNeed, us + vs) && RecordsOf(us + vs) == RecordsOf(us) + RecordsOf(vs)
  {
  }

  datatype Framed = Framed(records: seq<TLSPlaintext>, rest: bytes)

  /** What a stream of octets means: its complete records and the incomplete tail. */
  ghost function Frames(data: bytes): Framed {
    RecordNeedIsPrefixed();
    CutSound(RecordNeed, data);
    var c := Cut(RecordNeed, data);
    Framed(RecordsOf(c.units), c.rest)
  }

  lemma RecordOfMarshal(r: TLSPlaintext)
    requires r.WellFramed()
    ensures Whole(RecordNeed, r.Marshal()) && RecordOf(r.Marshal()) == r
  {
  }

  lemma MarshalOfRecord(u: bytes)
    requires Whole(RecordNeed, u)
    ensures RecordOf(u).WellFramed() && RecordOf(u).Marshal() == u
  {
  }

  /** Framing is a bijection: the records and the tail are the only ones whose encoding is the
      stream, so parsing loses nothing, invents nothing and never fails. */
  lemma FramesExact(data: bytes, rs: seq<TLSPlaintext>, rest: bytes)
    ensures Frames(data) == Framed(rs, rest)
       <==> data == MarshalAll(rs) + rest && AllWellFramed(rs) && !HasRecord(rest)
  {
    RecordNeedIsPrefixed();
    var c := Cut(RecordNeed, data);
    CutSound(RecordNeed, data);
    if Frames(data) == Framed(rs, rest) {
      forall i | 0 <= i < |rs| ensures rs[i].WellFramed() && Encodings(rs)[i] == c.units[i] {
        assert Whole(RecordNeed, c.units[i]);
        MarshalOfRecord(c.units[i]);
      }
      assert Encodings(rs) == c.units;
    }
    if data == MarshalAll(rs) + rest && AllWellFramed(rs) && !HasRecord(rest) {
      forall i | 0 <= i < |rs| ensures Whole(RecordNeed, Encodings(rs)[i]) && RecordOf(Encodings(rs)[i]) == rs[i] {
        RecordOfMarshal(rs[i]);
      }
      CutExact(RecordNeed, data, Encodings(rs), rest);
      assert RecordsOf(c.units) == rs;
    }
  }

  /** The streaming law: parsing what has arrived and carrying its tail into the next parse sees
      the same records as parsing everything again. */
  lemma FramesAppend(a: bytes, b: bytes)
    ensures Frames(a + b) == Framed(Frames(a).records + Frames(Frames(a).rest + b).records,
                                    Frames(Frames(a).rest + b).rest)
  {
    RecordNeedIsPrefixed();
    var ca := Cut(RecordNeed, a);
    var cb := Cut(RecordNeed, ca.rest + b);
    CutAppend(RecordNeed, a, b);
    CutSound(RecordNeed, a);
    CutSound(RecordNeed, ca.rest + b);
    RecordsOfAppend(ca.units, cb.units);
  }

  /** What a reader that carries the tail sees over a list of chunks. */
  ghost function Carried(rest: bytes, chunks: seq<bytes>): Framed
    decreases |chunks|
  {
    if chunks == [] then Framed([], rest)
    else
      var f := Frames(rest + chunks[0]);
      var g := Carried(f.rest, chunks[1..]);
      Framed(f.records + g.records, g.rest)
  }

  /** Over any list of chunks it sees what a reader that parses everything again sees. */
  lemma {:induction false} CarriedIsWhole(seen: bytes, chunks: seq<bytes>)
    ensures var c := Carried(Frames(seen).rest, chunks);
            Frames(seen + Concat(chunks)) == Framed(Frames(seen).records + c.records, c.rest)
    decreases |chunks|
  {
    if chunks == [] {
      assert seen + [] == seen && Frames(seen).records + [] == Frames(seen).records;
    } else {
      var f := Frames(Frames(seen).rest + chunks[0]);
      FramesAppend(seen, chunks[0]);
      CarriedIsWhole(seen + chunks[0], chunks[1..]);
      Associate(seen, chunks[0], Concat(chunks[1..]));
      Associate(Frames(seen).records, f.records, Carried(f.rest, chunks[1..]).records);
    }
  }

  lemma FramesStep(data: bytes)
    ensures Frames([]) == Framed([], [])
    ensures !HasRecord(data) ==> Frames(data) == Framed([], data)
    ensures HasRecord(data) ==>
      var n := RecordNeed(data).value;
      Frames(data) == Framed([RecordOf(data[..n])] + Frames(data[n..]).records, Frames(data[n..]).rest)
  {
  }

  /** The outcome of a parse that has found `records` and still has `data` to go through. */
  ghost function Ahead(records: seq<TLSPlaintext>, data: bytes): Framed {
    Framed(records + Frames(data).records, Frames(data).rest)
  }

  lemma AheadDone(records: seq<TLSPlaintext>, data: bytes)
    ensures Ahead([], data) == Frames(data)
    ensures !HasRecord(data) ==> Ahead(records, data) == Framed(records, data)
  {
  }

  /** One turn of the parse loop: what the octets from `offset` on start with. */
  lemma AheadStep(records: seq<TLSPlaintext>, data: bytes, offset: nat, hdr: TLSPlaintext)
    requires offset + RECORD_HEADER_LEN <= |data|
    requires hdr.Header() == data[offset..offset + RECORD_HEADER_LEN]
    ensures var n := RECORD_HEADER_LEN + hdr.length;
            if |data| - offset < n then !HasRecord(data[offset..])
            else var u := data[offset..offset + n];
                 && HasRecord(u) && u[..RecordNeed(u).value] == u
                 && Ahead(records, data[offset..]) == Ahead(records + [RecordOf(u)], data[offset + n..])
  {
    var tail, n := data[offset..], RECORD_HEADER_LEN + hdr.length;
    LengthInHeader(tail, hdr);
    if |data| - offset >= n {
      assert tail[..n] == data[offset..offset + n] && tail[n..] == data[offset + n..];
      AheadOne(records, tail, n);
    }
  }

  lemma LengthInHeader(tail: bytes, hdr: TLSPlaintext)
    requires |tail| >= RECORD_HEADER_LEN && hdr.Header() == tail[..RECORD_HEADER_LEN]
    ensures RecordNeed(tail) == Some(RECORD_HEADER_LEN + hdr.length)
  {
    assert tail[3] == hdr.Header()[3] && tail[4] == hdr.Header()[4];
  }

  lemma AheadOne(records: seq<TLSPlaintext>, tail: bytes, n: nat)
    requires RecordNeed(tail) == Some(n) && RECORD_HEADER_LEN <= n <= |tail|
    ensures RecordNeed(tail[..n]) == Some(n)
    ensures Ahead(records, tail) == Ahead(records + [RecordOf(tail[..n])], tail[n..])
  {
    FramesStep(tail);
    Associate(records, [RecordOf(tail[..n])], Frames(tail[n..]).records);
  }

  /** A fragment becomes a record exactly up to the size limit, and the record parses back. */
  lemma NewTLSPlaintextExact(typ: byte, fragment: bytes)
    ensures |fragment| > 16384 ==> NewTLSPlaintext(typ, fragment) == Err(PayloadTooLarge)
    ensures |fragment| <= 16384 ==>
      NewTLSPlaintext(typ, fragment).Ok? &&
      var r := NewTLSPlaintext(typ, fragment).value;
      && r == TLSPlaintext(typ, 0x0303, |fragment|, fragment)
      && Frames(r.Marshal()) == Framed([r], [])
  {
    if |fragment| <= MAX_PAYLOAD_LEN {
      FramesOfOne(NewTLSPlaintext(typ, fragment).value);
    }
  }

  lemma FramesOfOne(rec: TLSPlaintext)
    requires rec.WellFramed()
    ensures Frames(rec.Marshal()) == Framed([rec], [])
  {
    assert Encodings([rec]) == [rec.Marshal()];
    ConcatLast([], rec.Marshal());
    assert [] + [rec.Marshal()] == [rec.Marshal()];
    FramesExact(rec.Marshal(), [rec], []);
  }

  method ParseTLSPlaintextHeader(data: bytes) returns (r: Result<TLSPlaintext, Error>)
    ensures |data| < RECORD_HEADER_LEN ==> r == Err(DataTooShort)
    ensures |data| >= RECORD_HEADER_LEN ==>
      r.Ok? && r.value.Header() == data[..RECORD_HEADER_LEN] && r.value.payload == []
  {
    if |data| < RECORD_HEADER_LEN {
      return Err(DataTooShort);
    }
    var s := data[..RECORD_HEADER_LEN];
    var typ, version, length := s[0], U16(s[1..]), U16(s[3..]);
    return Ok(TLSPlaintext(typ, version, length, []));
  }

  /** One record from the front; octets after it are ignored. */
  method ParseTLSPlaintext(data: bytes) returns (r: Result<TLSPlaintext, Error>)
    ensures r.Ok? <==> HasRecord(data)
    ensures r.Ok? ==> r.value == RecordOf(data[..RecordNeed(data).value])
    ensures r.Err? ==> r.error == if |data| < RECORD_HEADER_LEN then DataTooShort else DataLengthMismatch
  {
    var s := data;
    var typ := ReadUint8(s);
    if typ.None? { return Err(DataTooShort); }
    s := typ.value.rest;
    var version := ReadUint16(s);
    if version.None? { return Err(DataTooShort); }
    s := version.value.rest;
    var length := ReadUint16(s);
    if length.None? { return Err(DataTooShort); }
    s := length.value.rest;
    assert data[1..] == typ.value.rest && data[3..] == version.value.rest && data[5..] == s;
    var n: uint16 := length.value.value;
    if |s| < n { return Err(DataLengthMismatch); }
    var u := data[..RECORD_HEADER_LEN + n];
    assert u[1..][..2] == data[1..][..2] && u[3..][..2] == data[3..][..2] && u[5..] == s[..n];
    return Ok(TLSPlaintext(typ.value.value, version.value.value, n, s[..n]));
  }

  method ParseTLSPlaintextRecordsWithRemainder(data: bytes) returns (r: Result<Framed, Error>)
    ensures data == [] ==> r == Err(DataTooShort)
    ensures data != [] ==> r == Ok(Frames(data))
  {
    if |data| == 0 {
      return Err(DataTooShort);
    }
    var records, offset := [], 0;
    assert data[0..] == data;
    AheadDone(records, data);
    while true
      invariant 0 <= offset <= |data|
      invariant Frames(data) == Ahead(records, data[offset..])
      decreases |data| - offset
    {
      AheadDone(records, data[offset..]);
      var remaining := |data| - offset;
      if remaining == 0 {
        return Ok(Framed(records, []));
      }
      if remaining < RECORD_HEADER_LEN {
        return Ok(Framed(records, data[offset..]));
      }
      var hdr := ParseTLSPlaintextHeader(data[offset..offset + RECORD_HEADER_LEN]);
      if hdr.Err? {
        assert false; // five octets are a header
      }
      AheadStep(records, data, offset, hdr.value);
      var recordLen := RECORD_HEADER_LEN + hdr.value.length;
      if remaining < recordLen {
        return Ok(Framed(records, data[offset..]));
      }
      var rec := ParseTLSPlaintext(data[offset..offset + recordLen]);
      if rec.Err? {
        assert false; // the length was just checked
      }
      records := records + [rec.value];
      offset := offset + recordLen;
    }
  }

  ghost function RecordsOnly(data: bytes): Result<seq<TLSPlaintext>, Error> {
    if data == [] then Err(DataTooShort)
    else if Frames(data).rest != [] then Err(IncompleteFragment(|Frames(data).rest|))
    else Ok(Frames(data).records)
  }

  method ParseTLSPlaintextRecords(data: bytes) returns (r: Result<seq<TLSPlaintext>, Error>)
    ensures r == RecordsOnly(data)
  {
    var framed :- ParseTLSPlaintextRecordsWithRemainder(data);
    if |framed.rest| > 0 {
      return Err(IncompleteFragment(|framed.rest|));
    }
    return Ok(framed.records);
  }

  /** A whole buffer is accepted exactly when it is the encoding of a non-empty record list. */
  lemma RecordsOnlyExact(data: bytes, rs: seq<TLSPlaintext>)
    ensures RecordsOnly(data) == Ok(rs) <==> rs != [] && data == MarshalAll(rs) && AllWellFramed(rs)
    ensures data == [] ==> RecordsOnly(data) == Err(DataTooShort)
    ensures Frames(data).rest != [] ==> RecordsOnly(data) == Err(IncompleteFragment(|Frames(data).rest|))
  {
    FramesExact(data, rs, []);
    assert MarshalAll(rs) + [] == MarshalAll(rs);
    if rs != [] {
      assert MarshalAll(rs) == rs[0].Marshal() + Concat(Encodings(rs)[1..]);
    }
  }

  // ----- Inner plaintext -----

  datatype TLSInnerPlaintext = TLSInnerPlaintext(content: bytes, typ: byte, padding: bytes) {
    function Marshal(): bytes {
      content + [typ] + padding
    }
  }

  predicate AllZero(s: bytes) {
    forall i :: 0 <= i < |s| ==> s[i] == 0
  }

  predicate ValidInner(p: TLSInnerPlaintext) {
    p.typ != 0 && AllZero(p.padding)
  }

  function InnerOf(data: bytes): Result<TLSInnerPlaintext, Error> {
    if data == [] then Err(InnerPlaintextTooShort) else StripPadding(data, |data|)
  }

  /** The last non-zero octet before `end` is the type. */
  function StripPadding(data: bytes, end: nat): Result<TLSInnerPlaintext, Error>
    requires end <= |data|
  {
    if end == 0 then Err(InnerPlaintextNoType)
    else if data[end - 1] != 0 then Ok(TLSInnerPlaintext(data[..end - 1], data[end - 1], data[end..]))
    else StripPadding(data, end - 1)
  }

  lemma {:induction false} StripPaddingExact(data: bytes, end: nat, p: TLSInnerPlaintext)
    requires end <= |data| && AllZero(data[end..])
    ensures StripPadding(data, end) == Ok(p) <==> data == p.Marshal() && ValidInner(p)
    ensures StripPadding(data, end).Err? <==> AllZero(data)
  {
    if end == 0 {
      assert data[0..] == data;
      if data == p.Marshal() {
        assert data[|p.content|] == p.typ;
      }
    } else if data[end - 1] != 0 {
      if data == p.Marshal() && ValidInner(p) {
        var k := |p.content|;
        assert data[k] == p.typ;
        assert k == end - 1;
        assert data[..k] == p.content && data[end..] == p.padding;
      }
      if StripPadding(data, end) == Ok(p) {
        assert data == p.Marshal();
      }
    } else {
      assert data[end - 1..] == [data[end - 1]] + data[end..];
      StripPaddingExact(data, end - 1, p);
    }
  }

  lemma {:induction false} StripPaddingError(data: bytes, end: nat)
    requires end <= |data|
    ensures StripPadding(data, end).Err? ==> StripPadding(data, end).error == InnerPlaintextNoType
  {
    if end == 0 {
    } else {
      StripPaddingError(data, end - 1);
    }
  }

  /** Parsing inverts encoding, for every non-zero type and all-zero padding and whatever the
      content ends with; nothing else parses, and only all-zero input is refused. */
  lemma InnerExact(data: bytes, p: TLSInnerPlaintext)
    ensures InnerOf(data) == Ok(p) <==> data == p.Marshal() && ValidInner(p)
    ensures InnerOf(data).Err? <==> AllZero(data)
    ensures AllZero(data) ==> InnerOf(data) == Err(if data == [] then InnerPlaintextTooShort else InnerPlaintextNoType)
  {
    assert data[|data|..] == [];
    StripPaddingExact(data, |data|, p);
    StripPaddingError(data, |data|);
  }

  method ParseTLSInnerPlaintext(data: bytes) returns (r: Result<TLSInnerPlaintext, Error>)
    ensures r == InnerOf(data)
  {
    if |data| < 1 {
      return Err(InnerPlaintextTooShort);
    }
    var typeIndex := -1;
    var i := |data| - 1;
    while i >= 0
      invariant -1 <= i < |data| && typeIndex == -1
      invariant StripPadding(data, i + 1) == InnerOf(data)
    {
      if data[i] != 0 {
        typeIndex := i;
        break;
      }
      i := i - 1;
    }
    if typeIndex < 0 {
      return Err(InnerPlaintextNoType);
    }
    return Ok(TLSInnerPlaintext(data[..typeIndex], data[typeIndex], data[typeIndex + 1..]));
  }

  // ----- The octets of a record -----

  /** Type, version and length, each with its high octet first, then the payload. */
  lemma RecordOctets(r: TLSPlaintext)
    ensures r.Header() == [r.typ, r.version / 256, r.version % 256, r.length / 256, r.length % 256]
    ensures r.Marshal() == [r.typ, r.version / 256, r.version % 256, r.length / 256, r.length % 256] + r.payload
  {
    assert [r.typ] + Be16(r.version) + Be16(r.length) == r.Header();
  }

  /** A record is there once five octets are, and as many more as the last two of them say. */
  lemma RecordIsThere(data: bytes)
    ensures HasRecord(data) <==> |data| >= 5 && |data| >= 5 + data[3] as int * 256 + data[4] as int
    ensures HasRecord(data) ==>
      var n := data[3] as int * 256 + data[4] as int;
      Frames(data).records != [] && Frames(data).records[0]
        == TLSPlaintext(data[0], data[1] as int * 256 + data[2] as int, n, data[5..5 + n])
  {
    FramesStep(data);
    if HasRecord(data) {
      var n: nat := data[3] as int * 256 + data[4] as int;
      assert RecordNeed(data) == Some(5 + n);
      assert data[..5 + n][5..] == data[5..5 + n];
    }
  }
}
