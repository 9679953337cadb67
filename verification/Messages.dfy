/** What the message parsers share: dropping the header, and finding repeated extensions. */
module Messages {
  import opened Bytes
  import opened Protocol
  import opened Extensions

  /** The header is dropped only when it is there and names the expected type. */
  function StripHeader(data: bytes, typ: byte): bytes {
    if |data| >= HANDSHAKE_HEADER_LEN && data[0] == typ then data[HANDSHAKE_HEADER_LEN..] else data
  }

  predicate Distinct(es: seq<Extension>) {
    forall i, j :: 0 <= i < j < |es| ==> es[i].tag != es[j].tag
  }

  function TagsOf(es: seq<Extension>): set<uint16> {
    set i | 0 <= i < |es| :: es[i].tag
  }

  lemma TagsOfLast(es: seq<Extension>, i: nat)
    requires i < |es|
    ensures TagsOf(es[..i + 1]) == TagsOf(es[..i]) + {es[i].tag}
  {
  }

  predicate NoRepeatFrom(es: seq<Extension>, i: nat) {
    forall k :: i <= k < |es| ==> es[k].tag !in TagsOf(es[..k])
  }

  lemma NoRepeatIsDistinct(es: seq<Extension>)
    ensures NoRepeatFrom(es, 0) <==> Distinct(es)
  {
  }

  /** Four octets are dropped after the expected type, and none otherwise. */
  lemma HeaderStripped(typ: byte, a: byte, b: byte, c: byte, body: bytes, data: bytes)
    ensures StripHeader([typ, a, b, c] + body, typ) == body
    ensures |data| < 4 || data[0] != typ ==> StripHeader(data, typ) == data
  {
    assert ([typ, a, b, c] + body)[4..] == body;
  }
}
