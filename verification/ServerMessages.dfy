/** EncryptedExtensions, Certificate, CertificateVerify and Finished (sections 4.3.1, 4.4.2, 4.4.3
    and 4.4.4 of RFC 8446). */
module ServerMessages {
  import opened Bytes
  import opened Protocol
  import opened Framing
  import opened Extensions
  import opened Messages
  import opened Reassembly

  /** The fields of a message after unmarshalling, and the error that stopped it. */
  datatype Parsed<T> = Parsed(value: T, err: Option<Error>)

  // ----- EncryptedExtensions -----

  datatype EncryptedExtensionList = EncryptedExtensionList(extensions: seq<Extension>, serverNameAck: bool)

  /** The slice that drops the header panics when the header announces more than is there. */
  predicate SliceInBounds(data: bytes) {
    |data| >= HANDSHAKE_HEADER_LEN && data[0] == ENCRYPTED_EXTENSIONS ==> HANDSHAKE_HEADER_LEN + U24(data[1..]) <= |data|
  }

  function EncryptedExtensionsBody(data: bytes): bytes
    requires SliceInBounds(data)
  {
    if |data| >= HANDSHAKE_HEADER_LEN && data[0] == ENCRYPTED_EXTENSIONS
    then data[HANDSHAKE_HEADER_LEN..HANDSHAKE_HEADER_LEN + U24(data[1..])]
    else data
  }

  function TakeExtensions(es: seq<Extension>, i: nat, taken: EncryptedExtensionList): Parsed<EncryptedExtensionList>
    requires i <= |es|
    decreases |es| - i
  {
    if i == |es| then Parsed(taken, None)
    else if es[i].tag in TagsOf(es[..i]) then Parsed(taken, Some(DuplicateExtension(es[i].tag)))
    else if es[i].tag != EXT_SERVER_NAME then
      TakeExtensions(es, i + 1, taken.(extensions := taken.extensions + [es[i]]))
    else if es[i].body != [] then Parsed(taken, Some(Malformed("server_name")))
    else TakeExtensions(es, i + 1, taken.(serverNameAck := true))
  }

  ghost function EncryptedExtensionsOf(data: bytes): Parsed<EncryptedExtensionList>
    requires SliceInBounds(data)
  {
    var none := EncryptedExtensionList([], false);
    match ReadUint16Prefixed(EncryptedExtensionsBody(data))
    case None => Parsed(none, Some(Malformed("encrypted extensions")))
    case Some(block) =>
      match Entries(block.value)
      case None => Parsed(none, Some(Malformed("extensions")))
      case Some(es) => TakeExtensions(es, 0, none)
  }

  class EncryptedExtensions {
    var extensions: seq<Extension>
    var serverNameAck: bool

    constructor ()
    {
      extensions, serverNameAck := [], false;
    }

    function Contents(): EncryptedExtensionList
      reads this
    {
      EncryptedExtensionList(extensions, serverNameAck)
    }

    method Unmarshal(data: bytes) returns (err: Option<Error>)
      requires SliceInBounds(data)
      modifies this
      ensures Parsed(Contents(), err) == EncryptedExtensionsOf(data)
    {
      extensions, serverNameAck := [], false;
      var s := data;
      if |data| >= HANDSHAKE_HEADER_LEN && data[0] == ENCRYPTED_EXTENSIONS {
        s := data[HANDSHAKE_HEADER_LEN..HANDSHAKE_HEADER_LEN + U24(data[1..])];
      }
      var extData := ReadUint16Prefixed(s);
      if extData.None? {
        return Some(Malformed("encrypted extensions"));
      }
      var exts := UnmarshalExtensions(extData.value.value);
      if exts.None? {
        return Some(Malformed("extensions"));
      }
      var es := exts.value;
      var seenExts: set<uint16> := {};
      for i := 0 to |es|
        invariant seenExts == TagsOf(es[..i])
        invariant TakeExtensions(es, i, Contents()) == EncryptedExtensionsOf(data)
      {
        if es[i].tag in seenExts {
          return Some(DuplicateExtension(es[i].tag));
        }
        TagsOfLast(es, i);
        seenExts := seenExts + {es[i].tag};
        if es[i].tag == EXT_SERVER_NAME {
          if |es[i].body| != 0 {
            return Some(Malformed("server_name"));
          }
          serverNameAck := true;
        } else {
          extensions := extensions + [es[i]];
        }
      }
      return None;
    }
  }

  /** The list without the server name, which is acknowledged instead of kept. */
  function Kept(es: seq<Extension>): seq<Extension> {
    if es == [] then []
    else Kept(es[..|es| - 1]) + (if es[|es| - 1].tag == EXT_SERVER_NAME then [] else [es[|es| - 1]])
  }

  predicate Acknowledges(es: seq<Extension>) {
    EXT_SERVER_NAME in TagsOf(es)
  }

  predicate EmptyNamesFrom(es: seq<Extension>, i: nat) {
    forall k :: i <= k < |es| && es[k].tag == EXT_SERVER_NAME ==> es[k].body == []
  }

  lemma KeptLast(es: seq<Extension>, i: nat)
    requires i < |es|
    ensures es[i].tag == EXT_SERVER_NAME ==> Kept(es[..i + 1]) == Kept(es[..i]) && Acknowledges(es[..i + 1])
    ensures es[i].tag != EXT_SERVER_NAME ==>
      Kept(es[..i + 1]) == Kept(es[..i]) + [es[i]] && Acknowledges(es[..i + 1]) == Acknowledges(es[..i])
  {
    assert es[..i + 1][..i] == es[..i] && Kept(es[..i]) + [] == Kept(es[..i]);
    TagsOfLast(es, i);
  }

  lemma {:induction false} TakeExtensionsExact(es: seq<Extension>, i: nat)
    requires i <= |es|
    ensures var r := TakeExtensions(es, i, EncryptedExtensionList(Kept(es[..i]), Acknowledges(es[..i])));
            && (r.err.None? <==> NoRepeatFrom(es, i) && EmptyNamesFrom(es, i))
            && (r.err.None? ==> r.value == EncryptedExtensionList(Kept(es), Acknowledges(es)))
    decreases |es| - i
  {
    if i == |es| {
      assert es[..i] == es;
    } else {
      KeptLast(es, i);
      TakeExtensionsExact(es, i + 1);
    }
  }

  predicate EncodesExtensions(body: bytes, es: seq<Extension>, trailing: bytes) {
    var list := MarshalEntries(es);
    |list| <= 0xffff && AllFit(es) && body == Be16(|list|) + (list + trailing)
  }

  /** Unmarshalling accepts exactly a list of distinct extensions, whose server name is empty, with
      its length before it and anything after it; it keeps them in order but for the name. */
  lemma EncryptedExtensionsExact(data: bytes, value: EncryptedExtensionList)
    requires SliceInBounds(data)
    ensures EncryptedExtensionsOf(data) == Parsed(value, None)
       <==> exists es: seq<Extension>, trailing: bytes ::
              && EncodesExtensions(EncryptedExtensionsBody(data), es, trailing)
              && Distinct(es) && EmptyNamesFrom(es, 0)
              && value == EncryptedExtensionList(Kept(es), Acknowledges(es))
  {
    if EncryptedExtensionsOf(data) == Parsed(value, None) {
      var es, trailing := EncryptedExtensionsRead(data);
    }
    forall es: seq<Extension>, trailing: bytes |
      && EncodesExtensions(EncryptedExtensionsBody(data), es, trailing)
      && Distinct(es) && EmptyNamesFrom(es, 0)
      && value == EncryptedExtensionList(Kept(es), Acknowledges(es))
      ensures EncryptedExtensionsOf(data) == Parsed(value, None)
    {
      Uint16PrefixedExact(EncryptedExtensionsBody(data), MarshalEntries(es), trailing);
      EntriesExact(MarshalEntries(es), es);
      TakenWhole(es);
    }
  }

  lemma EncryptedExtensionsRead(data: bytes) returns (es: seq<Extension>, trailing: bytes)
    requires SliceInBounds(data) && EncryptedExtensionsOf(data).err.None?
    ensures EncodesExtensions(EncryptedExtensionsBody(data), es, trailing)
    ensures Distinct(es) && EmptyNamesFrom(es, 0)
    ensures EncryptedExtensionsOf(data).value == EncryptedExtensionList(Kept(es), Acknowledges(es))
  {
    var block := ReadUint16Prefixed(EncryptedExtensionsBody(data)).value;
    es, trailing := Entries(block.value).value, block.rest;
    Uint16PrefixedExact(EncryptedExtensionsBody(data), block.value, block.rest);
    EntriesExact(block.value, es);
    TakenWhole(es);
  }

  lemma TakenWhole(es: seq<Extension>)
    ensures var r := TakeExtensions(es, 0, EncryptedExtensionList([], false));
            && (r.err.None? <==> Distinct(es) && EmptyNamesFrom(es, 0))
            && (r.err.None? ==> r.value == EncryptedExtensionList(Kept(es), Acknowledges(es)))
  {
    assert es[..0] == [] && TagsOf([]) == {};
    TakeExtensionsExact(es, 0);
    NoRepeatIsDistinct(es);
  }

  /** On a collected message the slice is always in bounds, and drops the header alone. */
  lemma SliceOfMessage(m: bytes)
    requires IsMessage(m)
    ensures SliceInBounds(m)
    ensures m[0] == ENCRYPTED_EXTENSIONS ==> EncryptedExtensionsBody(m) == m[HANDSHAKE_HEADER_LEN..]
  {
  }

  // ----- Certificate -----

  datatype CertificateEntry = CertificateEntry(cert: bytes, extensions: bytes) {
    predicate Fits() {
      |cert| <= 0xff_ffff && |extensions| <= 0xffff
    }

    function Encode(): bytes
      requires Fits()
    {
      Be24(|cert|) + (cert + (Be16(|extensions|) + extensions))
    }
  }

  function CertificateNeed(s: bytes): Option<nat> {
    if |s| < 3 then None
    else
      var n := U24(s);
      if |s| < 3 + n + 2 then None else Some(3 + n + 2 + U16(s[3 + n..]))
  }

  lemma CertificateNeedIsPrefixed()
    ensures Prefixed(CertificateNeed)
  {
  }

  function CertificateOf(u: bytes): bytes
    requires Whole(CertificateNeed, u)
  {
    u[3..3 + U24(u)]
  }

  function CertificatesOf(us: seq<bytes>): seq<bytes>
    requires AllWhole(CertificateNeed, us)
  {
    seq(|us|, i requires 0 <= i < |us| => assert Whole(CertificateNeed, us[i]); CertificateOf(us[i]))
  }

  function EntryFault(rest: bytes): Error {
    if ReadUint24Prefixed(rest).None? then Malformed("certificate") else Malformed("certificate extensions")
  }

  ghost function CertificateListOf(list: bytes): Parsed<seq<bytes>> {
    CertificateNeedIsPrefixed();
    CutSound(CertificateNeed, list);
    var c := Cut(CertificateNeed, list);
    Parsed(CertificatesOf(c.units), if c.rest == [] then None else Some(EntryFault(c.rest)))
  }

  ghost function CertificateMessageOf(data: bytes): Parsed<seq<bytes>> {
    match ReadUint8Prefixed(StripHeader(data, CERTIFICATE))
    case None => Parsed([], Some(Malformed("certificate context")))
    case Some(context) =>
      if context.value != [] then Parsed([], Some(Malformed("certificate context")))
      else
        match ReadUint24Prefixed(context.rest)
        case None => Parsed([], Some(Malformed("certificate list")))
        case Some(list) =>
          if list.rest != [] then Parsed([], Some(Malformed("certificate list"))) else CertificateListOf(list.value)
  }

  class Certificate {
    var certificates: seq<bytes>

    constructor ()
    {
      certificates := [];
    }

    method Unmarshal(data: bytes) returns (err: Option<Error>)
      modifies this
      ensures Parsed(certificates, err) == CertificateMessageOf(data)
    {
      certificates := [];
      var s := data;
      if |data| >= HANDSHAKE_HEADER_LEN && data[0] == CERTIFICATE {
        s := data[HANDSHAKE_HEADER_LEN..];
      }
      var context := ReadUint8Prefixed(s);
      if context.None? || |context.value.value| != 0 {
        return Some(Malformed("certificate context"));
      }
      var list := ReadUint24Prefixed(context.value.rest);
      if list.None? || |list.value.rest| != 0 {
        return Some(Malformed("certificate list"));
      }
      var certList := list.value.value;
      assert [] + CertificateListOf(certList).value == CertificateListOf(certList).value;
      while |certList| != 0
        invariant CertificateListOf(list.value.value)
               == Parsed(certificates + CertificateListOf(certList).value, CertificateListOf(certList).err)
        decreases |certList|
      {
        CertificateListStep(certList);
        assert certificates + [] == certificates;
        var cert := ReadUint24Prefixed(certList);
        if cert.None? {
          return Some(Malformed("certificate"));
        }
        var exts := ReadUint16Prefixed(cert.value.rest);
        if exts.None? {
          return Some(Malformed("certificate extensions"));
        }
        Associate(certificates, [cert.value.value], CertificateListOf(exts.value.rest).value);
        certificates := certificates + [cert.value.value];
        certList := exts.value.rest;
      }
      CertificateListStep([]);
      assert certificates + [] == certificates;
      return None;
    }
  }

  lemma CertificateReads(s: bytes)
    ensures var cert := ReadUint24Prefixed(s);
            && (HasUnit(CertificateNeed, s) <==> cert.Some? && ReadUint16Prefixed(cert.value.rest).Some?)
            && (HasUnit(CertificateNeed, s) ==>
                  var n := CertificateNeed(s).value;
                  && Whole(CertificateNeed, s[..n]) && CertificateOf(s[..n]) == cert.value.value
                  && ReadUint16Prefixed(cert.value.rest).value.rest == s[n..])
  {
  }

  lemma CertificateListCons(s: bytes)
    requires HasUnit(CertificateNeed, s)
    ensures var n := CertificateNeed(s).value;
            && Whole(CertificateNeed, s[..n])
            && var next := CertificateListOf(s[n..]);
               CertificateListOf(s) == Parsed([CertificateOf(s[..n])] + next.value, next.err)
  {
    var n := CertificateNeed(s).value;
    CertificateNeedIsPrefixed();
    assert Local(CertificateNeed, s);
    CutSound(CertificateNeed, s);
    CutSound(CertificateNeed, s[n..]);
    var us := Cut(CertificateNeed, s[n..]).units;
    assert CertificatesOf([s[..n]] + us) == [CertificateOf(s[..n])] + CertificatesOf(us);
  }

  lemma CertificateListStep(s: bytes)
    ensures s == [] ==> CertificateListOf(s) == Parsed([], None)
    ensures var cert := ReadUint24Prefixed(s);
            if cert.None? || ReadUint16Prefixed(cert.value.rest).None? then
              s != [] ==> CertificateListOf(s) == Parsed([], Some(EntryFault(s)))
            else
              var next := CertificateListOf(ReadUint16Prefixed(cert.value.rest).value.rest);
              CertificateListOf(s) == Parsed([cert.value.value] + next.value, next.err)
  {
    CertificateReads(s);
    if HasUnit(CertificateNeed, s) {
      CertificateListCons(s);
    } else {
      CertificateNeedIsPrefixed();
      CutSound(CertificateNeed, s);
      assert CertificatesOf([]) == [];
    }
  }

  function EncodeEach(entries: seq<CertificateEntry>): seq<bytes>
    requires AllEntriesFit(entries)
  {
    seq(|entries|, i requires 0 <= i < |entries| => entries[i].Encode())
  }

  predicate AllEntriesFit(entries: seq<CertificateEntry>) {
    forall i :: 0 <= i < |entries| ==> entries[i].Fits()
  }

  function CertsIn(entries: seq<CertificateEntry>): seq<bytes> {
    seq(|entries|, i requires 0 <= i < |entries| => entries[i].cert)
  }

  lemma EntryEncodes(e: CertificateEntry)
    requires e.Fits()
    ensures Whole(CertificateNeed, e.Encode()) && CertificateOf(e.Encode()) == e.cert
  {
    var u := e.Encode();
    var exts := Be16(|e.extensions|) + e.extensions;
    U24OfBe24(|e.cert|, e.cert + exts);
    assert u[3 + |e.cert|..] == exts;
    U16OfBe16(|e.extensions|, e.extensions);
  }

  function EntryIn(u: bytes): CertificateEntry
    requires Whole(CertificateNeed, u)
  {
    var n: nat := U24(u);
    CertificateEntry(u[3..3 + n], u[3 + n + 2..])
  }

  lemma EntryDecodes(u: bytes)
    requires Whole(CertificateNeed, u)
    ensures EntryIn(u).Fits() && EntryIn(u).Encode() == u && EntryIn(u).cert == CertificateOf(u)
  {
    var n: nat := U24(u);
    Be24OfU24(u);
    Be16OfU16(u[3 + n..]);
    assert u == u[..3] + (u[3..3 + n] + (u[3 + n..][..2] + u[3 + n + 2..]));
  }

  ghost predicate EncodesCertificates(list: bytes, entries: seq<CertificateEntry>) {
    AllEntriesFit(entries) && list == Concat(EncodeEach(entries))
  }

  lemma CertificateListWritten(list: bytes, entries: seq<CertificateEntry>)
    requires EncodesCertificates(list, entries)
    ensures CertificateListOf(list) == Parsed(CertsIn(entries), None)
  {
    var us := EncodeEach(entries);
    forall i | 0 <= i < |us| ensures Whole(CertificateNeed, us[i]) && CertificateOf(us[i]) == entries[i].cert {
      EntryEncodes(entries[i]);
    }
    CertificateNeedIsPrefixed();
    assert list + [] == list;
    CutExact(CertificateNeed, list, us, []);
    assert CertificatesOf(us) == CertsIn(entries);
  }

  lemma CertificateListRead(list: bytes) returns (entries: seq<CertificateEntry>)
    requires CertificateListOf(list).err.None?
    ensures EncodesCertificates(list, entries) && CertificateListOf(list).value == CertsIn(entries)
  {
    CertificateNeedIsPrefixed();
    CutSound(CertificateNeed, list);
    var us := Cut(CertificateNeed, list).units;
    entries := seq(|us|, i requires 0 <= i < |us| => assert Whole(CertificateNeed, us[i]); EntryIn(us[i]));
    forall i | 0 <= i < |us|
      ensures entries[i].Fits() && entries[i].Encode() == us[i] && entries[i].cert == CertificateOf(us[i])
    {
      EntryDecodes(us[i]);
    }
    assert EncodeEach(entries) == us && Concat(us) + [] == Concat(us);
    assert CertsIn(entries) == CertificatesOf(us);
  }

  predicate FramesCertificates(body: bytes, list: bytes) {
    |list| <= 0xff_ffff && body == [0] + (Be24(|list|) + list)
  }

  lemma CertificateBodyWritten(data: bytes, list: bytes)
    requires FramesCertificates(StripHeader(data, CERTIFICATE), list)
    ensures CertificateMessageOf(data) == CertificateListOf(list)
  {
    var rest := Be24(|list|) + list;
    assert list + [] == list && [] + rest == rest;
    Uint8PrefixedExact(StripHeader(data, CERTIFICATE), [], rest);
    Uint24PrefixedExact(rest, list, []);
  }

  lemma CertificateBodyRead(data: bytes) returns (list: bytes)
    requires CertificateMessageOf(data).err.None?
    ensures FramesCertificates(StripHeader(data, CERTIFICATE), list)
    ensures CertificateMessageOf(data) == CertificateListOf(list)
  {
    var context := ReadUint8Prefixed(StripHeader(data, CERTIFICATE)).value;
    list := ReadUint24Prefixed(context.rest).value.value;
    Uint8PrefixedExact(StripHeader(data, CERTIFICATE), [], context.rest);
    Uint24PrefixedExact(context.rest, list, []);
    assert list + [] == list && [] + context.rest == context.rest;
  }

  /** Unmarshalling accepts exactly an empty context and a list filled by whole entries, each a
      certificate and its extensions, and returns their certificates in order. */
  lemma CertificateExact(data: bytes, certs: seq<bytes>)
    ensures CertificateMessageOf(data) == Parsed(certs, None)
       <==> exists list: bytes, entries: seq<CertificateEntry> ::
              && FramesCertificates(StripHeader(data, CERTIFICATE), list)
              && EncodesCertificates(list, entries) && certs == CertsIn(entries)
  {
    if CertificateMessageOf(data) == Parsed(certs, None) {
      var list := CertificateBodyRead(data);
      var entries := CertificateListRead(list);
    }
    forall list: bytes, entries: seq<CertificateEntry> |
      && FramesCertificates(StripHeader(data, CERTIFICATE), list)
      && EncodesCertificates(list, entries) && certs == CertsIn(entries)
      ensures CertificateMessageOf(data) == Parsed(certs, None)
    {
      CertificateBodyWritten(data, list);
      CertificateListWritten(list, entries);
    }
  }

  // ----- CertificateVerify -----

  datatype Signature = Signature(algorithm: uint16, signature: bytes)

  function CertificateVerifyOf(before: Signature, data: bytes): Parsed<Signature> {
    match ReadUint16(StripHeader(data, CERTIFICATE_VERIFY))
    case None => Parsed(before, Some(Malformed("signature algorithm")))
    case Some(algorithm) =>
      var named := before.(algorithm := algorithm.value);
      match ReadUint16Prefixed(algorithm.rest)
      case None => Parsed(named, Some(Malformed("signature")))
      case Some(signature) =>
        if signature.rest != [] then Parsed(named, Some(Malformed("signature")))
        else Parsed(Signature(algorithm.value, signature.value), None)
  }

  class CertificateVerify {
    var signatureAlgorithm: uint16
    var signature: bytes

    constructor ()
      ensures Contents() == Signature(0, [])
    {
      signatureAlgorithm, signature := 0, [];
    }

    function Contents(): Signature
      reads this
    {
      Signature(signatureAlgorithm, signature)
    }

    method Unmarshal(data: bytes) returns (err: Option<Error>)
      modifies this
      ensures Parsed(Contents(), err) == CertificateVerifyOf(old(Contents()), data)
    {
      var s := data;
      if |data| >= HANDSHAKE_HEADER_LEN && data[0] == CERTIFICATE_VERIFY {
        s := data[HANDSHAKE_HEADER_LEN..];
      }
      var sigAlg := ReadUint16(s);
      if sigAlg.None? {
        return Some(Malformed("signature algorithm"));
      }
      signatureAlgorithm := sigAlg.value.value;
      var sig := ReadUint16Prefixed(sigAlg.value.rest);
      if sig.None? || |sig.value.rest| != 0 {
        return Some(Malformed("signature"));
      }
      signature := sig.value.value;
      return None;
    }
  }

  lemma CertificateVerifyExact(before: Signature, data: bytes, value: Signature)
    ensures CertificateVerifyOf(before, data) == Parsed(value, None)
       <==> && |value.signature| <= 0xffff
            && StripHeader(data, CERTIFICATE_VERIFY) == Be16(value.algorithm) + (Be16(|value.signature|) + value.signature)
  {
    var body := StripHeader(data, CERTIFICATE_VERIFY);
    assert value.signature + [] == value.signature;
    if |value.signature| <= 0xffff {
      Uint16Exact(body, value.algorithm, Be16(|value.signature|) + value.signature);
      Uint16PrefixedExact(Be16(|value.signature|) + value.signature, value.signature, []);
    }
    if ReadUint16(body).Some? {
      var algorithm := ReadUint16(body).value;
      Uint16Exact(body, algorithm.value, algorithm.rest);
      Uint16PrefixedExact(algorithm.rest, value.signature, []);
    }
  }

  // ----- Finished -----

  /** The type octet is read but not compared. */
  function FinishedOf(before: bytes, data: bytes): Parsed<bytes> {
    if |data| < 1 then Parsed(before, Some(Malformed("finished")))
    else
      match ReadUint24Prefixed(data[1..])
      case None => Parsed(before, Some(Malformed("finished verify data")))
      case Some(verifyData) =>
        if verifyData.rest != [] then Parsed(before, Some(Malformed("finished verify data")))
        else Parsed(verifyData.value, None)
  }

  class Finished {
    var verifyData: bytes

    constructor ()
      ensures verifyData == []
    {
      verifyData := [];
    }

    method Unmarshal(data: bytes) returns (err: Option<Error>)
      modifies this
      ensures Parsed(verifyData, err) == FinishedOf(old(verifyData), data)
    {
      if |data| < 1 {
        return Some(Malformed("finished"));
      }
      var msgType := ReadUint8(data);
      var data' := ReadUint24Prefixed(msgType.value.rest);
      if data'.None? || |data'.value.rest| != 0 {
        return Some(Malformed("finished verify data"));
      }
      verifyData := data'.value.value;
      return None;
    }
  }

  /** A collected message always unmarshals as a Finished: its body. */
  lemma FinishedOfMessage(before: bytes, m: bytes)
    requires IsMessage(m)
    ensures FinishedOf(before, m) == Parsed(m[HANDSHAKE_HEADER_LEN..], None)
    ensures m[HANDSHAKE_HEADER_LEN..] != []
  {
    var body := m[HANDSHAKE_HEADER_LEN..];
    MessageShape(m);
    Be24OfU24(m[1..]);
    Split(m[1..], 3);
    assert m[1..][3..] == body && body + [] == body;
    Uint24PrefixedExact(m[1..], body, []);
  }

  // ----- In octets, and the errors -----

  /** Extensions of type 0 are acknowledged, all others are kept where they stand. */
  lemma KeptIs(es: seq<Extension>, e: Extension)
    ensures e.tag == 0 ==> Kept(es + [e]) == Kept(es) && Acknowledges(es + [e])
    ensures e.tag != 0 ==> Kept(es + [e]) == Kept(es) + [e] && (Acknowledges(es + [e]) <==> Acknowledges(es))
    ensures Kept([]) == [] && !Acknowledges([])
  {
    var all := es + [e];
    assert all[..|es|] == es && all[..|es| + 1] == all && Kept(es) + [] == Kept(es);
    KeptLast(all, |es|);
  }

  /** The first extension that repeats a type, or names a server, decides. */
  lemma {:induction false} ExtensionsFault(es: seq<Extension>, i: nat, k: nat, taken: EncryptedExtensionList)
    requires i <= k < |es|
    requires forall j, l :: 0 <= j < l < k ==> es[j].tag != es[l].tag
    requires forall j :: 0 <= j < k && es[j].tag == 0 ==> es[j].body == []
    ensures (exists j :: 0 <= j < k && es[j].tag == es[k].tag) ==>
      TakeExtensions(es, i, taken).err == Some(DuplicateExtension(es[k].tag))
    ensures !(exists j :: 0 <= j < k && es[j].tag == es[k].tag) && es[k].tag == 0 && es[k].body != [] ==>
      TakeExtensions(es, i, taken).err == Some(Malformed("server_name"))
    decreases k - i
  {
    if i == k {
      if j :| 0 <= j < k && es[j].tag == es[k].tag {
        assert es[..k][j].tag == es[k].tag;
      }
    } else {
      var next := if es[i].tag != 0 then taken.(extensions := taken.extensions + [es[i]]) else taken.(serverNameAck := true);
      ExtensionsFault(es, i + 1, k, next);
    }
  }

  /** A Finished is one octet that is not looked at, a length of three octets and exactly that many. */
  lemma FinishedExact(before: bytes, data: bytes, value: bytes)
    ensures FinishedOf(before, data) == Parsed(value, None)
       <==> && |data| >= 4 && value == data[4..]
            && data[1] as int * 65536 + data[2] as int * 256 + data[3] as int == |value|
  {
    if |data| >= 1 {
      assert value + [] == value;
      Uint24PrefixedExact(data[1..], value, []);
      if |data| >= 4 {
        assert data[1..][3..] == data[4..];
        Be24OfU24(data[1..]);
        Split(data[1..], 3);
      }
    }
  }

  /** A certificate entry: a length of three octets and the certificate, one of two and extensions. */
  lemma EntryOctets(e: CertificateEntry)
    requires |e.cert| <= 0xff_ffff && |e.extensions| <= 0xffff
    ensures e.Fits() && e.Encode() == [|e.cert| / 65536, |e.cert| / 256 % 256, |e.cert| % 256] + e.cert
                          + [|e.extensions| / 256, |e.extensions| % 256] + e.extensions
  {
    var a, b := Be24(|e.cert|), Be16(|e.extensions|);
    assert e.Encode() == a + (e.cert + (b + e.extensions));
    Associate(a + e.cert, b, e.extensions);
    Associate(a, e.cert, b + e.extensions);
  }

  /** A list that ends inside an entry: the certificates before it, and what is missing of it. */
  lemma CertificateListFails(entries: seq<CertificateEntry>, rest: bytes)
    requires AllEntriesFit(entries) && rest != [] && !HasUnit(CertificateNeed, rest)
    ensures CertificateListOf(Concat(EncodeEach(entries)) + rest)
         == Parsed(CertsIn(entries),
                   Some(Malformed(if |rest| < 3 || |rest| < 3 + U24(rest) then "certificate" else "certificate extensions")))
  {
    var us := EncodeEach(entries);
    forall i | 0 <= i < |us| ensures Whole(CertificateNeed, us[i]) && CertificateOf(us[i]) == entries[i].cert {
      EntryEncodes(entries[i]);
    }
    CertificateNeedIsPrefixed();
    CutExact(CertificateNeed, Concat(us) + rest, us, rest);
    assert CertificatesOf(us) == CertsIn(entries);
  }

  /** Before the entries: an empty context, and a length that counts the octets after it. */
  lemma CertificateErrors(data: bytes)
    ensures var body, r := StripHeader(data, CERTIFICATE), CertificateMessageOf(data);
            if body == [] || body[0] != 0 then r == Parsed([], Some(Malformed("certificate context")))
            else if |body| < 4 || body[1] as int * 65536 + body[2] as int * 256 + body[3] as int != |body| - 4
            then r == Parsed([], Some(Malformed("certificate list")))
            else r == CertificateListOf(body[4..])
  {
    var body := StripHeader(data, CERTIFICATE);
    if body != [] && body[0] == 0 {
      var rest := body[1..];
      assert body[1..][..0] == [] && body[1..][0..] == rest;
      if |body| >= 4 && body[1] as int * 65536 + body[2] as int * 256 + body[3] as int == |body| - 4 {
        assert rest[3..] == body[4..] && rest[3..][..|body| - 4] == body[4..];
      }
    }
  }

  /** Which part of a CertificateVerify is missing; an algorithm that was read is kept. */
  lemma CertificateVerifyErrors(before: Signature, data: bytes)
    ensures var body, r := StripHeader(data, CERTIFICATE_VERIFY), CertificateVerifyOf(before, data);
            if |body| < 2 then r == Parsed(before, Some(Malformed("signature algorithm")))
            else if |body| < 4 || body[2] as int * 256 + body[3] as int != |body| - 4
            then r == Parsed(Signature(body[0] as int * 256 + body[1] as int, before.signature), Some(Malformed("signature")))
            else r == Parsed(Signature(body[0] as int * 256 + body[1] as int, body[4..]), None)
  {
    var body := StripHeader(data, CERTIFICATE_VERIFY);
    if |body| >= 4 {
      var n := |body| - 4;
      assert body[2..][2..] == body[4..] && body[4..][..n] == body[4..] && body[4..][n..] == [];
    }
  }

  /** EncryptedExtensions without a whole block, or with one that is not a list of entries. */
  lemma EncryptedExtensionsErrors(data: bytes)
    requires SliceInBounds(data)
    ensures var body, r := EncryptedExtensionsBody(data), EncryptedExtensionsOf(data);
            if |body| < 2 || |body| < 2 + body[0] as int * 256 + body[1] as int
            then r == Parsed(EncryptedExtensionList([], false), Some(Malformed("encrypted extensions")))
            else var block := body[2..2 + body[0] as int * 256 + body[1] as int];
                 Entries(block).None? ==> r == Parsed(EncryptedExtensionList([], false), Some(Malformed("extensions")))
  {
    var body := EncryptedExtensionsBody(data);
    if |body| >= 2 && |body| >= 2 + body[0] as int * 256 + body[1] as int {
      var n: nat := body[0] as int * 256 + body[1] as int;
      assert body[2..][..n] == body[2..2 + n];
    }
  }
}
