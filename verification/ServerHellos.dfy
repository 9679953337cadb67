/** The ServerHello message (section 4.1.3 of RFC 8446). */
module ServerHellos {
  import opened Bytes
  import opened Protocol
  import opened Extensions
  import opened Messages

  function ParseSupportedVersionsServer(payload: bytes): Option<uint16> {
    if |payload| != 2 then None else Some(U16(payload))
  }

  function ParseCookie(payload: bytes): Option<bytes> {
    match ReadUint16Prefixed(payload)
    case None => None
    case Some(cookie) => if cookie.value == [] || cookie.rest != [] then None else Some(cookie.value)
  }

  lemma CookieExact(payload: bytes, cookie: bytes)
    ensures ParseCookie(payload) == Some(cookie)
       <==> cookie != [] && |cookie| <= 0xffff && payload == Be16(|cookie|) + cookie
  {
    Uint16PrefixedExact(payload, cookie, []);
    assert cookie + [] == cookie;
  }

  /** The payload checks on the extensions the client knows. */
  predicate WellFormed(e: Extension) {
    && (e.tag == EXT_SUPPORTED_VERSIONS ==> ParseSupportedVersionsServer(e.body).Some?)
    && (e.tag == EXT_COOKIE ==> ParseCookie(e.body).Some?)
    && (e.tag == EXT_KEY_SHARE ==> ParseKeyShareServer(e.body).Some?)
  }

  predicate ValidExtensions(es: seq<Extension>) {
    Distinct(es) && forall i :: 0 <= i < |es| ==> WellFormed(es[i])
  }

  datatype Hello = Hello(
    original: bytes,
    version: uint16,
    random: bytes,
    sessionID: bytes,
    cipherSuite: uint16,
    compression: byte,
    extensions: seq<Extension>)

  /** The fixed part of a server hello body. */
  function HelloPrefix(h: Hello): bytes
    requires |h.sessionID| <= 255
  {
    Be16(h.version) + (h.random + ([|h.sessionID|] + (h.sessionID + (Be16(h.cipherSuite) + [h.compression]))))
  }

  function ExtensionBlock(es: seq<Extension>): bytes {
    var list := MarshalEntries(es);
    if |list| > 0xffff then [] else Be16(|list|) + list
  }

  /** Fields filled so far, the octets left, and the error that stopped the filling. */
  datatype Filling = Filling(hello: Hello, rest: bytes, err: Option<Error>)

  function ReadPrefix(h: Hello, data: bytes): Filling {
    match ReadUint16(data)
    case None => Filling(h, data, Some(Malformed("server hello version")))
    case Some(version) =>
      var h := h.(version := version.value);
      match ReadBytes(version.rest, 32)
      case None => Filling(h, version.rest, Some(Malformed("server hello random")))
      case Some(random) =>
        var h := h.(random := random.value);
        match ReadUint8Prefixed(random.rest)
        case None => Filling(h, random.rest, Some(Malformed("server hello session id")))
        case Some(sessionID) =>
          var h := h.(sessionID := sessionID.value);
          match ReadUint16(sessionID.rest)
          case None => Filling(h, sessionID.rest, Some(Malformed("server hello cipher suite")))
          case Some(cipherSuite) =>
            var h := h.(cipherSuite := cipherSuite.value);
            match ReadUint8(cipherSuite.rest)
            case None => Filling(h, cipherSuite.rest, Some(Malformed("server hello compression method")))
            case Some(compression) => Filling(h.(compression := compression.value), compression.rest, None)
  }

  /** The first entry from `i` on that repeats a type or does not parse. */
  function FirstFault(es: seq<Extension>, i: nat): Option<Error>
    requires i <= |es|
    decreases |es| - i
  {
    if i == |es| then None
    else if es[i].tag in TagsOf(es[..i]) then Some(DuplicateExtension(es[i].tag))
    else if !WellFormed(es[i]) then Some(Malformed("extension payload"))
    else FirstFault(es, i + 1)
  }

  lemma {:induction false} FirstFaultExact(es: seq<Extension>, i: nat)
    requires i <= |es|
    ensures FirstFault(es, i) == None
       <==> NoRepeatFrom(es, i) && forall k :: i <= k < |es| ==> WellFormed(es[k])
    decreases |es| - i
  {
    if i == |es| {
    } else {
      FirstFaultExact(es, i + 1);
    }
  }

  lemma NoFaultIsValid(es: seq<Extension>)
    ensures FirstFault(es, 0) == None <==> ValidExtensions(es)
  {
    FirstFaultExact(es, 0);
    NoRepeatIsDistinct(es);
  }

  datatype Filled = Filled(hello: Hello, err: Option<Error>)

  /** What unmarshalling leaves in a hello that held `h`. A body without an extension block
      leaves the extensions as they were. */
  ghost function Unmarshalled(h: Hello, data: bytes): Filled {
    var prefix := ReadPrefix(h.(original := data), StripHeader(data, SERVER_HELLO));
    if prefix.err.Some? || prefix.rest == [] then Filled(prefix.hello, prefix.err)
    else
      match ReadUint16Prefixed(prefix.rest)
      case None => Filled(prefix.hello, Some(Malformed("server hello extensions")))
      case Some(block) =>
        if block.rest != [] then Filled(prefix.hello, Some(Malformed("server hello extensions")))
        else
          match Entries(block.value)
          case None => Filled(prefix.hello, Some(Malformed("extensions")))
          case Some(es) => Filled(prefix.hello.(extensions := es), FirstFault(es, 0))
  }

  lemma PrefixParts(h: Hello, rest: bytes)
    requires |h.sessionID| <= 255
    ensures HelloPrefix(h) + rest
         == Be16(h.version) + (h.random + ([|h.sessionID|] + (h.sessionID + (Be16(h.cipherSuite) + ([h.compression] + rest)))))
  {
    var e := [h.compression];
    var d := Be16(h.cipherSuite) + e;
    var c := h.sessionID + d;
    var b := [|h.sessionID|] + c;
    Associate(Be16(h.version), h.random + b, rest);
    Associate(h.random, b, rest);
    Associate([|h.sessionID|], c, rest);
    Associate(h.sessionID, d, rest);
    Associate(Be16(h.cipherSuite), e, rest);
  }

  lemma PrefixRead(h0: Hello, data: bytes)
    requires ReadPrefix(h0, data).err.None?
    ensures var f := ReadPrefix(h0, data);
            && |f.hello.random| == 32 && |f.hello.sessionID| <= 255 && data == HelloPrefix(f.hello) + f.rest
            && f.hello.original == h0.original && f.hello.extensions == h0.extensions
  {
    var f := ReadPrefix(h0, data);
    var version := ReadUint16(data).value;
    var random := ReadBytes(version.rest, 32).value;
    var sessionID := ReadUint8Prefixed(random.rest).value;
    var cipherSuite := ReadUint16(sessionID.rest).value;
    Uint16Exact(data, version.value, version.rest);
    BytesExact(version.rest, 32, random.value, random.rest);
    Uint8PrefixedExact(random.rest, sessionID.value, sessionID.rest);
    Uint16Exact(sessionID.rest, cipherSuite.value, cipherSuite.rest);
    Uint8Exact(cipherSuite.rest, f.hello.compression, f.rest);
    PrefixParts(f.hello, f.rest);
  }

  lemma PrefixWritten(h0: Hello, h: Hello, rest: bytes)
    requires |h.random| == 32 && |h.sessionID| <= 255
    requires h.original == h0.original && h.extensions == h0.extensions
    ensures ReadPrefix(h0, HelloPrefix(h) + rest) == Filling(h, rest, None)
  {
    PrefixParts(h, rest);
    var d5 := [h.compression] + rest;
    var d4 := Be16(h.cipherSuite) + d5;
    var d3 := [|h.sessionID|] + (h.sessionID + d4);
    var d2 := h.random + d3;
    Uint16Exact(HelloPrefix(h) + rest, h.version, d2);
    BytesExact(d2, 32, h.random, d3);
    Uint8PrefixedExact(d3, h.sessionID, d4);
    Uint16Exact(d4, h.cipherSuite, d5);
    Uint8Exact(d5, h.compression, rest);
  }

  /** Whether a body is `h` written out, for a receiver whose extensions were `kept`. */
  predicate EncodesHello(body: bytes, h: Hello, kept: seq<Extension>) {
    && |h.random| == 32 && |h.sessionID| <= 255
    && (|| (body == HelloPrefix(h) && h.extensions == kept)
        || (&& AllFit(h.extensions) && |MarshalEntries(h.extensions)| <= 0xffff && ValidExtensions(h.extensions)
            && body == HelloPrefix(h) + ExtensionBlock(h.extensions)))
  }

  /** Unmarshalling accepts a body exactly when it is some hello written out, whose extensions
      are distinct and well formed, and then it yields that hello. */
  lemma HelloExact(h0: Hello, data: bytes, h: Hello)
    ensures Unmarshalled(h0, data) == Filled(h, None)
       <==> h.original == data && EncodesHello(StripHeader(data, SERVER_HELLO), h, h0.extensions)
  {
    var body := StripHeader(data, SERVER_HELLO);
    var h1 := h0.(original := data);
    if Unmarshalled(h0, data) == Filled(h, None) {
      HelloRead(h0, data);
    }
    if h.original == data && EncodesHello(body, h, h0.extensions) {
      if body == HelloPrefix(h) && h.extensions == h0.extensions {
        PrefixWritten(h1, h, []);
        assert HelloPrefix(h) + [] == HelloPrefix(h);
      } else {
        var list := MarshalEntries(h.extensions);
        PrefixWritten(h1, h.(extensions := h0.extensions), ExtensionBlock(h.extensions));
        assert HelloPrefix(h.(extensions := h0.extensions)) == HelloPrefix(h);
        assert list + [] == list;
        Uint16PrefixedExact(ExtensionBlock(h.extensions), list, []);
        EntriesExact(list, h.extensions);
        NoFaultIsValid(h.extensions);
      }
    }
  }

  lemma HelloRead(h0: Hello, data: bytes)
    requires Unmarshalled(h0, data).err.None?
    ensures var h := Unmarshalled(h0, data).hello;
            h.original == data && EncodesHello(StripHeader(data, SERVER_HELLO), h, h0.extensions)
  {
    var body := StripHeader(data, SERVER_HELLO);
    var h := Unmarshalled(h0, data).hello;
    var prefix := ReadPrefix(h0.(original := data), body);
    PrefixRead(h0.(original := data), body);
    if prefix.rest == [] {
      assert HelloPrefix(h) + [] == HelloPrefix(h);
    } else {
      var list := ReadUint16Prefixed(prefix.rest).value.value;
      Uint16PrefixedExact(prefix.rest, list, []);
      assert list + [] == list;
      EntriesExact(list, h.extensions);
      NoFaultIsValid(h.extensions);
      assert HelloPrefix(h) == HelloPrefix(prefix.hello);
    }
  }

  // ----- The object, and what is looked up in it -----

  function FirstTag(es: seq<Extension>, tag: uint16): (k: nat)
    ensures k <= |es|
    ensures forall j :: 0 <= j < k ==> es[j].tag != tag
    ensures k < |es| ==> es[k].tag == tag
  {
    if es == [] then 0
    else if es[0].tag == tag then 0
    else 1 + FirstTag(es[1..], tag)
  }

  function VersionIn(es: seq<Extension>): Result<uint16, Error> {
    var k := FirstTag(es, EXT_SUPPORTED_VERSIONS);
    if k == |es| then Err(MissingExtension(EXT_SUPPORTED_VERSIONS))
    else
      match ParseSupportedVersionsServer(es[k].body)
      case None => Err(Malformed("supported_versions"))
      case Some(version) => Ok(version)
  }

  /** A selected group of zero passes for a share: an empty one of group zero. */
  function ShareIn(es: seq<Extension>): Result<KeyShare, Error> {
    var k := FirstTag(es, EXT_KEY_SHARE);
    if k == |es| then Err(MissingExtension(EXT_KEY_SHARE))
    else
      match ParseKeyShareServer(es[k].body)
      case None => Err(Malformed("key_share"))
      case Some(Selected(group)) => if group != 0 then Err(HelloRetryRequest) else Ok(Tagged(0, []))
      case Some(Share(share)) => Ok(share)
  }

  function FreshHello(): Hello {
    Hello([], 0, Zeros(32), [], 0, 0, [])
  }

  class ServerHello {
    var original: bytes
    var version: uint16
    var random: bytes
    var sessionID: bytes
    var cipherSuite: uint16
    var compression: byte
    var extensions: seq<Extension>

    constructor ()
      ensures Contents() == FreshHello()
    {
      original, version, random, sessionID := [], 0, Zeros(32), [];
      cipherSuite, compression, extensions := 0, 0, [];
    }

    function Contents(): Hello
      reads this
    {
      Hello(original, version, random, sessionID, cipherSuite, compression, extensions)
    }

    /** The fixed part: version, random, session id, cipher suite, compression method. */
    method UnmarshalPrefix(body: bytes) returns (rest: bytes, err: Option<Error>)
      modifies this
      ensures Filling(Contents(), rest, err) == ReadPrefix(old(Contents()), body)
    {
      var s := body;
      var v := ReadUint16(s);
      if v.None? { return s, Some(Malformed("server hello version")); }
      version, s := v.value.value, v.value.rest;
      var r := ReadBytes(s, 32);
      if r.None? { return s, Some(Malformed("server hello random")); }
      random, s := r.value.value, r.value.rest;
      var id := ReadUint8Prefixed(s);
      if id.None? { return s, Some(Malformed("server hello session id")); }
      sessionID, s := id.value.value, id.value.rest;
      var suite := ReadUint16(s);
      if suite.None? { return s, Some(Malformed("server hello cipher suite")); }
      cipherSuite, s := suite.value.value, suite.value.rest;
      var c := ReadUint8(s);
      if c.None? { return s, Some(Malformed("server hello compression method")); }
      compression := c.value.value;
      return c.value.rest, None;
    }

    method Unmarshal(data: bytes) returns (err: Option<Error>)
      modifies this
      ensures Filled(Contents(), err) == Unmarshalled(old(Contents()), data)
    {
      original := data;
      var s := data;
      if |data| >= HANDSHAKE_HEADER_LEN && data[0] == SERVER_HELLO {
        s := data[HANDSHAKE_HEADER_LEN..];
      }
      s, err := UnmarshalPrefix(s);
      if err.Some? || |s| == 0 {
        return err;
      }
      var extData := ReadUint16Prefixed(s);
      if extData.None? || |extData.value.rest| != 0 {
        return Some(Malformed("server hello extensions"));
      }
      var exts := UnmarshalExtensions(extData.value.value);
      if exts.None? {
        return Some(Malformed("extensions"));
      }
      extensions := exts.value;
      err := CheckExtensions(exts.value);
    }

    method SupportedVersion() returns (r: Result<uint16, Error>)
      ensures r == VersionIn(extensions)
    {
      for i := 0 to |extensions|
        invariant FirstTag(extensions, EXT_SUPPORTED_VERSIONS) >= i
      {
        if extensions[i].tag != EXT_SUPPORTED_VERSIONS {
          continue;
        }
        var version := ParseSupportedVersionsServer(extensions[i].body);
        return if version.None? then Err(Malformed("supported_versions")) else Ok(version.value);
      }
      return Err(MissingExtension(EXT_SUPPORTED_VERSIONS));
    }

    method ServerShare() returns (r: Result<KeyShare, Error>)
      ensures r == ShareIn(extensions)
    {
      for i := 0 to |extensions|
        invariant FirstTag(extensions, EXT_KEY_SHARE) >= i
      {
        if extensions[i].tag != EXT_KEY_SHARE {
          continue;
        }
        var share := ParseKeyShareServer(extensions[i].body);
        if share.None? {
          return Err(Malformed("key_share"));
        }
        match share.value {
          case Selected(group) => return if group != 0 then Err(HelloRetryRequest) else Ok(Tagged(0, []));
          case Share(ks) => return Ok(ks);
        }
      }
      return Err(MissingExtension(EXT_KEY_SHARE));
    }
  }

  method CheckExtensions(exts: seq<Extension>) returns (err: Option<Error>)
    ensures err == FirstFault(exts, 0)
  {
    var seenExts: set<uint16> := {};
    for i := 0 to |exts|
      invariant seenExts == TagsOf(exts[..i]) && FirstFault(exts, i) == FirstFault(exts, 0)
    {
      var ext := exts[i];
      if ext.tag in seenExts {
        return Some(DuplicateExtension(ext.tag));
      }
      TagsOfLast(exts, i);
      seenExts := seenExts + {ext.tag};
      if ext.tag == EXT_SUPPORTED_VERSIONS {
        if ParseSupportedVersionsServer(ext.body).None? { return Some(Malformed("extension payload")); }
      } else if ext.tag == EXT_COOKIE {
        if ParseCookie(ext.body).None? { return Some(Malformed("extension payload")); }
      } else if ext.tag == EXT_KEY_SHARE {
        if ParseKeyShareServer(ext.body).None? { return Some(Malformed("extension payload")); }
      }
    }
    return None;
  }

  lemma ValidAfter(h0: Hello, data: bytes)
    requires ValidExtensions(h0.extensions) && Unmarshalled(h0, data).err.None?
    ensures ValidExtensions(Unmarshalled(h0, data).hello.extensions)
  {
    HelloRead(h0, data);
  }

  /** After a successful unmarshal the lookups can fail only for what the server really said: no
      such extension, or a hello retry request. The receiver is fresh, or holds valid extensions
      that a body without a block leaves in place. */
  lemma LookupsAreTotal(h0: Hello, data: bytes)
    requires ValidExtensions(h0.extensions) && Unmarshalled(h0, data).err.None?
    ensures var es := Unmarshalled(h0, data).hello.extensions;
            && ValidExtensions(es)
            && (VersionIn(es).Err? <==> forall i :: 0 <= i < |es| ==> es[i].tag != EXT_SUPPORTED_VERSIONS)
            && (ShareIn(es).Err? <==> forall i :: 0 <= i < |es| && es[i].tag == EXT_KEY_SHARE ==>
                                        |es[i].body| == 2 && U16(es[i].body) != 0)
            && (forall i :: 0 <= i < |es| && es[i].tag == EXT_SUPPORTED_VERSIONS ==> es[i].body == Be16(VersionIn(es).value))
            && (forall i :: 0 <= i < |es| && es[i].tag == EXT_KEY_SHARE && |es[i].body| != 2 ==>
                              es[i].body == ShareIn(es).value.Marshal())
            && (forall i :: 0 <= i < |es| && es[i].tag == EXT_KEY_SHARE && es[i].body == [0, 0] ==>
                              ShareIn(es) == Ok(Tagged(0, [])))
  {
    ValidAfter(h0, data);
    LookupsIn(Unmarshalled(h0, data).hello.extensions);
  }

  lemma LookupsIn(es: seq<Extension>)
    requires ValidExtensions(es)
    ensures VersionIn(es).Err? <==> forall i :: 0 <= i < |es| ==> es[i].tag != EXT_SUPPORTED_VERSIONS
    ensures ShareIn(es).Err? <==> forall i :: 0 <= i < |es| && es[i].tag == EXT_KEY_SHARE ==>
                                    |es[i].body| == 2 && U16(es[i].body) != 0
    ensures forall i :: 0 <= i < |es| && es[i].tag == EXT_SUPPORTED_VERSIONS ==> es[i].body == Be16(VersionIn(es).value)
    ensures forall i :: 0 <= i < |es| && es[i].tag == EXT_KEY_SHARE && |es[i].body| != 2 ==>
                          es[i].body == ShareIn(es).value.Marshal()
    ensures forall i :: 0 <= i < |es| && es[i].tag == EXT_KEY_SHARE && es[i].body == [0, 0] ==> ShareIn(es) == Ok(Tagged(0, []))
  {
    VersionLookup(es);
    ShareLookup(es);
  }

  lemma VersionLookup(es: seq<Extension>)
    requires ValidExtensions(es)
    ensures VersionIn(es).Err? <==> forall i :: 0 <= i < |es| ==> es[i].tag != EXT_SUPPORTED_VERSIONS
    ensures forall i :: 0 <= i < |es| && es[i].tag == EXT_SUPPORTED_VERSIONS ==> es[i].body == Be16(VersionIn(es).value)
  {
    var v := FirstTag(es, EXT_SUPPORTED_VERSIONS);
    if v < |es| {
      assert WellFormed(es[v]);
      Be16OfU16(es[v].body);
    }
  }

  lemma ShareLookup(es: seq<Extension>)
    requires ValidExtensions(es)
    ensures ShareIn(es).Err? <==> forall i :: 0 <= i < |es| && es[i].tag == EXT_KEY_SHARE ==>
                                    |es[i].body| == 2 && U16(es[i].body) != 0
    ensures forall i :: 0 <= i < |es| && es[i].tag == EXT_KEY_SHARE && |es[i].body| != 2 ==>
                          es[i].body == ShareIn(es).value.Marshal()
    ensures forall i :: 0 <= i < |es| && es[i].tag == EXT_KEY_SHARE && es[i].body == [0, 0] ==> ShareIn(es) == Ok(Tagged(0, []))
  {
    var k := FirstTag(es, EXT_KEY_SHARE);
    if k < |es| {
      assert WellFormed(es[k]);
      if ShareIn(es).Ok? {
        ServerKeyShareExact(es[k].body, ShareIn(es).value);
      }
    }
  }

  /** After a success the extensions are valid exactly when the body has octets after the
      compression method or the receiver was valid before. */
  lemma ValidExactly(h0: Hello, data: bytes)
    requires Unmarshalled(h0, data).err.None?
    ensures ValidExtensions(Unmarshalled(h0, data).hello.extensions)
       <==> (|| ReadPrefix(h0.(original := data), StripHeader(data, SERVER_HELLO)).rest != []
             || ValidExtensions(h0.extensions))
  {
    PrefixKeeps(h0.(original := data), StripHeader(data, SERVER_HELLO));
    NoFaultIsValid(Unmarshalled(h0, data).hello.extensions);
  }

  lemma PrefixKeeps(h0: Hello, data: bytes)
    ensures ReadPrefix(h0, data).hello.extensions == h0.extensions
  {
  }

  /** A receiver that is not valid keeps its extensions through a success, on any body that ends
      with the compression method. */
  lemma StaleExtensionsSurvive(h0: Hello, data: bytes, h: Hello)
    requires |h.random| == 32 && |h.sessionID| <= 255 && h.original == data
    requires h.extensions == h0.extensions && !ValidExtensions(h0.extensions)
    requires StripHeader(data, SERVER_HELLO) == HelloPrefix(h)
    ensures Unmarshalled(h0, data) == Filled(h, None) && !ValidExtensions(Unmarshalled(h0, data).hello.extensions)
  {
    HelloExact(h0, data, h);
  }

  // ----- In octets, and the errors -----

  /** What is checked of a known payload: two octets of version, a cookie that is not empty and fills
      its payload, and a selected group or one whole share. Other types are not looked at. */
  lemma WellFormedOctets(e: Extension)
    ensures e.tag == 43 ==> (WellFormed(e) <==> |e.body| == 2)
    ensures e.tag == 44 ==>
      (WellFormed(e) <==> |e.body| > 2 && e.body[0] as int * 256 + e.body[1] as int == |e.body| - 2)
    ensures e.tag == 51 ==>
      (WellFormed(e) <==> |e.body| == 2 || (|e.body| >= 4 && e.body[2] as int * 256 + e.body[3] as int == |e.body| - 4))
    ensures e.tag != 43 && e.tag != 44 && e.tag != 51 ==> WellFormed(e)
  {
  }

  /** The first extension that repeats a type or is not well formed decides, and repetition first. */
  lemma FirstFaultIs(es: seq<Extension>, k: nat)
    requires k < |es| && forall i :: 0 <= i < k ==> WellFormed(es[i])
    requires forall i, j :: 0 <= i < j < k ==> es[i].tag != es[j].tag
    ensures (exists i :: 0 <= i < k && es[i].tag == es[k].tag) ==> FirstFault(es, 0) == Some(DuplicateExtension(es[k].tag))
    ensures !(exists i :: 0 <= i < k && es[i].tag == es[k].tag) && !WellFormed(es[k]) ==>
      FirstFault(es, 0) == Some(Malformed("extension payload"))
  {
    FaultFrom(es, 0, k);
    if i :| 0 <= i < k && es[i].tag == es[k].tag {
      assert es[..k][i].tag == es[k].tag;
    }
  }

  lemma {:induction false} FaultFrom(es: seq<Extension>, i: nat, k: nat)
    requires i <= k <= |es| && forall j :: i <= j < k ==> WellFormed(es[j])
    requires forall j, l :: 0 <= j < l < k ==> es[j].tag != es[l].tag
    ensures FirstFault(es, i) == FirstFault(es, k)
    decreases k - i
  {
    if i == k {
    } else {
      FaultFrom(es, i + 1, k);
    }
  }

  /** Why a lookup fails: there is no such extension, it does not parse, or the server only asks for
      another group. */
  lemma LookupErrors(es: seq<Extension>, k: nat)
    requires k <= |es|
    ensures (forall i :: 0 <= i < k ==> es[i].tag != 43) ==>
      && (k == |es| ==> VersionIn(es) == Err(MissingExtension(43)))
      && (k < |es| && es[k].tag == 43 ==>
            VersionIn(es) == if |es[k].body| == 2 then Ok(es[k].body[0] as int * 256 + es[k].body[1] as int)
                             else Err(Malformed("supported_versions")))
    ensures (forall i :: 0 <= i < k ==> es[i].tag != 51) ==>
      && (k == |es| ==> ShareIn(es) == Err(MissingExtension(51)))
      && (k < |es| && es[k].tag == 51 && |es[k].body| == 2 && es[k].body != [0, 0] ==> ShareIn(es) == Err(HelloRetryRequest))
      && (k < |es| && es[k].tag == 51 && !WellFormed(es[k]) ==> ShareIn(es) == Err(Malformed("key_share")))
  {
    if forall i :: 0 <= i < k ==> es[i].tag != 43 {
      FirstTagAt(es, 43, k);
    }
    if forall i :: 0 <= i < k ==> es[i].tag != 51 {
      FirstTagAt(es, 51, k);
    }
  }

  lemma FirstTagAt(es: seq<Extension>, tag: uint16, k: nat)
    requires k <= |es| && forall i :: 0 <= i < k ==> es[i].tag != tag
    ensures k == |es| || es[k].tag == tag ==> FirstTag(es, tag) == k
  {
  }

  /** Where the fixed part stops short, told by the number of octets alone. */
  lemma PrefixErrors(h: Hello, body: bytes)
    ensures var err := ReadPrefix(h, body).err;
            if |body| < 2 then err == Some(Malformed("server hello version"))
            else if |body| < 34 then err == Some(Malformed("server hello random"))
            else if |body| < 35 || |body| < 35 + body[34] as int then err == Some(Malformed("server hello session id"))
            else if |body| < 37 + body[34] as int then err == Some(Malformed("server hello cipher suite"))
            else if |body| < 38 + body[34] as int then err == Some(Malformed("server hello compression method"))
            else err == None
  {
  }

  /** The fields that are read before that, each from its own octets. */
  lemma PrefixFields(h: Hello, body: bytes)
    ensures var r := ReadPrefix(h, body).hello;
            && r.original == h.original && r.extensions == h.extensions
            && r.version == (if |body| < 2 then h.version else body[0] as int * 256 + body[1] as int)
            && r.random == (if |body| < 34 then h.random else body[2..34])
    ensures |body| >= 35 && |body| >= 38 + body[34] as int ==>
      var r, n := ReadPrefix(h, body), body[34] as int;
      && r.hello.sessionID == body[35..35 + n]
      && r.hello.cipherSuite == body[35 + n] as int * 256 + body[36 + n] as int
      && r.hello.compression == body[37 + n] && r.rest == body[38 + n..]
  {
    if |body| >= 34 {
      assert body[2..][..32] == body[2..34] && body[2..][32..] == body[34..];
    }
    if |body| >= 35 && |body| >= 38 + body[34] as int {
      var n := body[34] as int;
      var tail := body[34..][1..];
      assert tail == body[35..] && tail[..n] == body[35..35 + n] && tail[n..] == body[35 + n..];
      assert tail[n..][2..] == body[37 + n..] && body[37 + n..][1..] == body[38 + n..];
    }
  }

  /** After the fixed part: the block must count what is left, be a list of entries, and have no
      fault; on a fault the entries are already taken over. */
  lemma BlockErrors(h: Hello, data: bytes)
    requires ReadPrefix(h.(original := data), StripHeader(data, SERVER_HELLO)).err.None?
    ensures var p, r := ReadPrefix(h.(original := data), StripHeader(data, SERVER_HELLO)), Unmarshalled(h, data);
            if p.rest == [] then r == Filled(p.hello, None)
            else if |p.rest| < 2 || p.rest[0] as int * 256 + p.rest[1] as int != |p.rest| - 2
            then r == Filled(p.hello, Some(Malformed("server hello extensions")))
            else if Entries(p.rest[2..]).None? then r == Filled(p.hello, Some(Malformed("extensions")))
            else var es := Entries(p.rest[2..]).value; r == Filled(p.hello.(extensions := es), FirstFault(es, 0))
  {
    var p := ReadPrefix(h.(original := data), StripHeader(data, SERVER_HELLO));
    if |p.rest| >= 2 && p.rest[0] as int * 256 + p.rest[1] as int == |p.rest| - 2 {
      assert p.rest[2..][..|p.rest| - 2] == p.rest[2..];
    }
  }
}
