/** Lists of (uint16 tag, uint16-prefixed body) entries: extensions (section 4.2 of RFC 8446) and
    key shares (section 4.2.8). */
module Extensions {
  import opened Bytes
  import opened Framing

  datatype Tagged = Tagged(tag: uint16, body: bytes) {
    predicate Fits() {
      |body| <= 0xffff
    }

    /** The builder gives up on a body its length field cannot hold, and yields nothing. */
    function Marshal(): bytes {
      if |body| > 0xffff then [] else Be16(tag) + Be16(|body|) + body
    }
  }

  type Extension = Tagged
  type KeyShare = Tagged

  predicate AllFit(es: seq<Tagged>) {
    forall i :: 0 <= i < |es| ==> es[i].Fits()
  }

  function MarshalEach(es: seq<Tagged>): seq<bytes> {
    seq(|es|, i requires 0 <= i < |es| => es[i].Marshal())
  }

  function MarshalEntries(es: seq<Tagged>): bytes {
    Concat(MarshalEach(es))
  }

  function TaggedNeed(s: bytes): Option<nat> {
    if |s| < 4 then None else Some(4 + U16(s[2..]))
  }

  lemma TaggedNeedIsPrefixed()
    ensures Prefixed(TaggedNeed)
  {
  }

  function EntryOf(u: bytes): Tagged
    requires |u| >= 4
  {
    Tagged(U16(u), u[4..])
  }

  function EntriesOf(us: seq<bytes>): seq<Tagged>
    requires AllWhole(TaggedNeed, us)
  {
    seq(|us|, i requires 0 <= i < |us| => assert Whole(TaggedNeed, us[i]); EntryOf(us[i]))
  }

  /** A list is read only if it is filled exactly. */
  ghost function Entries(data: bytes): Option<seq<Tagged>> {
    TaggedNeedIsPrefixed();
    CutSound(TaggedNeed, data);
    var c := Cut(TaggedNeed, data);
    if c.rest == [] then Some(EntriesOf(c.units)) else None
  }

  lemma EntryOfMarshal(e: Tagged)
    requires e.Fits()
    ensures Whole(TaggedNeed, e.Marshal()) && EntryOf(e.Marshal()) == e
  {
  }

  lemma MarshalOfEntry(u: bytes)
    requires Whole(TaggedNeed, u)
    ensures EntryOf(u).Fits() && EntryOf(u).Marshal() == u
  {
  }

  /** Reading and writing entry lists are inverse both ways, on the lists whose bodies fit. */
  lemma EntriesExact(data: bytes, es: seq<Tagged>)
    ensures Entries(data) == Some(es) <==> data == MarshalEntries(es) && AllFit(es)
  {
    TaggedNeedIsPrefixed();
    var c := Cut(TaggedNeed, data);
    CutSound(TaggedNeed, data);
    if Entries(data) == Some(es) {
      forall i | 0 <= i < |es| ensures es[i].Fits() && MarshalEach(es)[i] == c.units[i] {
        assert Whole(TaggedNeed, c.units[i]);
        MarshalOfEntry(c.units[i]);
      }
      assert MarshalEach(es) == c.units;
      assert Concat(c.units) + [] == Concat(c.units);
    }
    if data == MarshalEntries(es) && AllFit(es) {
      forall i | 0 <= i < |es|
        ensures Whole(TaggedNeed, MarshalEach(es)[i]) && EntryOf(MarshalEach(es)[i]) == es[i]
      {
        EntryOfMarshal(es[i]);
      }
      assert data + [] == data;
      CutExact(TaggedNeed, data, MarshalEach(es), []);
      assert EntriesOf(c.units) == es;
    }
  }

  /** An entry that does not fit disappears from what is written instead of failing. */
  lemma OversizedEntryVanishes(e: Tagged)
    requires !e.Fits()
    ensures Entries(MarshalEntries([e])) == Some([])
  {
    assert MarshalEach([e]) == [[]];
    assert Concat([[]]) == [] + Concat([[]][1..]);
    EntriesExact([], []);
  }

  lemma EntriesStep(s: bytes)
    ensures s == [] ==> Entries(s) == Some([])
    ensures s != [] && !HasUnit(TaggedNeed, s) ==> Entries(s) == None
    ensures HasUnit(TaggedNeed, s) ==>
      var n := TaggedNeed(s).value;
      Entries(s) == Ahead([EntryOf(s[..n])], s[n..])
  {
    TaggedNeedIsPrefixed();
    CutSound(TaggedNeed, s);
    assert EntriesOf([]) == [];
    if HasUnit(TaggedNeed, s) {
      var n := TaggedNeed(s).value;
      CutSound(TaggedNeed, s[n..]);
      var us := Cut(TaggedNeed, s[n..]).units;
      assert EntriesOf([s[..n]] + us) == [EntryOf(s[..n])] + EntriesOf(us);
    }
  }

  /** The result of a read that has `done` and still has `s` to go through. */
  ghost function Ahead(done: seq<Tagged>, s: bytes): Option<seq<Tagged>> {
    var r := Entries(s);
    if r.None? then None else Some(done + r.value)
  }

  method UnmarshalExtensions(data: bytes) returns (r: Option<seq<Extension>>)
    ensures r == Entries(data)
  {
    var exts, s := [], data;
    assert Entries(data).Some? ==> [] + Entries(data).value == Entries(data).value;
    while |s| != 0
      invariant Entries(data) == Ahead(exts, s)
      decreases |s|
    {
      EntriesStep(s);
      ghost var s0 := s;
      var extType := ReadUint16(s);
      if extType.None? { return None; }
      s := extType.value.rest;
      var payload := ReadUint16Prefixed(s);
      if payload.None? { return None; }
      s := payload.value.rest;
      assert HasUnit(TaggedNeed, s0) && s == s0[TaggedNeed(s0).value..];
      var ext := Tagged(extType.value.value, payload.value.value);
      assert ext == EntryOf(s0[..TaggedNeed(s0).value]);
      AheadStep(exts, ext, s);
      exts := exts + [ext];
    }
    EntriesStep(s);
    assert exts + [] == exts;
    return Some(exts);
  }

  lemma AheadStep(done: seq<Tagged>, e: Tagged, s: bytes)
    ensures var r := Ahead([e], s);
            Ahead(done + [e], s) == if r.None? then None else Some(done + r.value)
  {
    if Entries(s).Some? {
      assert done + ([e] + Entries(s).value) == (done + [e]) + Entries(s).value;
    }
  }

  // ----- Key shares -----

  function MarshalKeyShares(shares: seq<KeyShare>): bytes {
    var list := MarshalEntries(shares);
    if !AllFit(shares) || |list| > 0xffff then [] else Be16(|list|) + list
  }

  method ParseKeyShareClient(payload: bytes) returns (r: Option<seq<KeyShare>>)
    ensures r == KeySharesOf(payload)
  {
    var shareList := ReadUint16Prefixed(payload);
    if shareList.None? { return None; }
    r := UnmarshalExtensions(shareList.value.value);
  }

  ghost function KeySharesOf(payload: bytes): Option<seq<KeyShare>> {
    var list := ReadUint16Prefixed(payload);
    if list.None? then None else Entries(list.value.value)
  }

  /** A client's shares come back exactly when they and their list fit their length fields, and
      octets after the list are then ignored. */
  lemma KeySharesRoundTrip(shares: seq<KeyShare>, trailing: bytes)
    ensures KeySharesOf(MarshalKeyShares(shares)) == Some(shares)
       <==> AllFit(shares) && |MarshalEntries(shares)| <= 0xffff
    ensures AllFit(shares) && |MarshalEntries(shares)| <= 0xffff
        ==> KeySharesOf(MarshalKeyShares(shares) + trailing) == Some(shares)
  {
    if AllFit(shares) && |MarshalEntries(shares)| <= 0xffff {
      KeySharesRead(shares, trailing);
      KeySharesRead(shares, []);
      assert MarshalKeyShares(shares) + [] == MarshalKeyShares(shares);
    }
  }

  lemma KeySharesRead(shares: seq<KeyShare>, trailing: bytes)
    requires AllFit(shares) && |MarshalEntries(shares)| <= 0xffff
    ensures KeySharesOf(MarshalKeyShares(shares) + trailing) == Some(shares)
  {
    var list := MarshalEntries(shares);
    var p := MarshalKeyShares(shares) + trailing;
    assert p == Be16(|list|) + (list + trailing);
    U16OfBe16(|list|, list + trailing);
    assert p[2..] == list + trailing && p[2..][..|list|] == list;
    EntriesExact(list, shares);
  }

  datatype ServerKeyShare = Selected(group: uint16) | Share(share: KeyShare)

  /** Two octets name a group only, as in a hello retry request. */
  function ParseKeyShareServer(payload: bytes): Option<ServerKeyShare> {
    if |payload| == 2 then Some(Selected(U16(payload)))
    else
      match ReadUint16(payload)
      case None => None
      case Some(group) =>
        match ReadUint16Prefixed(group.rest)
        case None => None
        case Some(data) => if data.rest != [] then None else Some(Share(Tagged(group.value, data.value)))
  }

  /** A server share is one entry, written out whole. */
  lemma ServerKeyShareExact(payload: bytes, ks: KeyShare)
    ensures ParseKeyShareServer(payload) == Some(Share(ks)) <==> ks.Fits() && payload == ks.Marshal()
    ensures ParseKeyShareServer(payload).None? <==> |payload| != 2 && !(exists k: KeyShare :: k.Fits() && payload == k.Marshal())
  {
    if ParseKeyShareServer(payload).Some? && |payload| != 2 {
      assert payload[2..][2..] == payload[4..];
      assert Whole(TaggedNeed, payload);
      MarshalOfEntry(payload);
    }
    forall k: KeyShare | k.Fits() && payload == k.Marshal() ensures ParseKeyShareServer(payload) == Some(Share(k)) {
      EntryOfMarshal(k);
      var data := payload[2..][2..];
      assert data == payload[4..] == k.body && data[..|k.body|] == k.body;
    }
  }

  /** An entry: type and length of two octets each, the high one first, and the payload. */
  lemma TaggedOctets(e: Tagged)
    requires |e.body| <= 65535
    ensures e.Fits() && e.Marshal() == [e.tag / 256, e.tag % 256, |e.body| / 256, |e.body| % 256] + e.body
  {
    assert Be16(e.tag) + Be16(|e.body|) == [e.tag / 256, e.tag % 256, |e.body| / 256, |e.body| % 256];
  }

  /** Two octets name a group, the high one first. */
  lemma SelectedGroup(a: byte, b: byte)
    ensures ParseKeyShareServer([a, b]) == Some(Selected(a as int * 256 + b as int))
  {
  }
}
