/** Octets, fixed-width big-endian integers and the cursor reads of the parsers. */
module Bytes {
  type byte = x: int | 0 <= x < 256
  type uint16 = x: int | 0 <= x < 0x1_0000
  type uint24 = x: int | 0 <= x < 0x100_0000
  type uint64 = x: int | 0 <= x < 0x1_0000_0000_0000_0000
  type bytes = seq<byte>

  datatype Option<+T> = None | Some(value: T)

  datatype Result<+T, +E> = Ok(value: T) | Err(error: E) {
    predicate IsFailure() {
      Err?
    }

    function PropagateFailure<U>(): Result<U, E>
      requires Err?
    {
      Err(error)
    }

    function Extract(): T
      requires Ok?
    {
      value
    }
  }

  /** Go's conversion to uint16: the low sixteen bits. */
  function Uint16(n: nat): uint16 {
    n % 0x1_0000
  }

  /** Go's uint64 increment, which wraps. */
  function NextSeq(s: uint64): uint64 {
    (s + 1) % 0x1_0000_0000_0000_0000
  }

  function Zeros(n: nat): bytes {
    seq(n, i => 0)
  }

  function Be16(n: uint16): bytes {
    [n / 256, n % 256]
  }

  function Be24(n: uint24): bytes {
    [n / 0x1_0000, n / 256 % 256, n % 256]
  }

  function U16(s: bytes): uint16
    requires |s| >= 2
  {
    s[0] as int * 256 + s[1]
  }

  function U24(s: bytes): uint24
    requires |s| >= 3
  {
    s[0] as int * 0x1_0000 + s[1] as int * 256 + s[2]
  }

  lemma U16OfBe16(n: uint16, t: bytes)
    ensures U16(Be16(n) + t) == n
  {
  }

  lemma U24OfBe24(n: uint24, t: bytes)
    ensures U24(Be24(n) + t) == n
  {
  }

  lemma Be16OfU16(s: bytes)
    requires |s| >= 2
    ensures Be16(U16(s)) == s[..2]
  {
  }

  lemma Be24OfU24(s: bytes)
    requires |s| >= 3
    ensures Be24(U24(s)) == s[..3]
  {
    var n := U24(s);
    assert n / 256 == s[0] as int * 256 + s[1];
    assert n / 0x1_0000 == s[0];
  }

  lemma Associate<T>(a: seq<T>, b: seq<T>, c: seq<T>)
    ensures (a + b) + c == a + (b + c)
  {
  }

  lemma Split(s: bytes, n: nat)
    requires n <= |s|
    ensures s == s[..n] + s[n..]
  {
  }

  function Concat(parts: seq<bytes>): bytes {
    if parts == [] then [] else parts[0] + Concat(parts[1..])
  }

  lemma ConcatCons(u: bytes, us: seq<bytes>)
    ensures Concat([u] + us) == u + Concat(us)
  {
  }

  lemma {:induction false} ConcatAppend(a: seq<bytes>, b: seq<bytes>)
    ensures Concat(a + b) == Concat(a) + Concat(b)
  {
    if a == [] {
      assert a + b == b;
    } else {
      assert (a + b)[1..] == a[1..] + b;
      ConcatAppend(a[1..], b);
      assert Concat(a + b) == a[0] + (Concat(a[1..]) + Concat(b));
    }
  }

  lemma {:induction false} ConcatLast(a: seq<bytes>, x: bytes)
    ensures Concat(a + [x]) == Concat(a) + x
  {
    ConcatAppend(a, [x]);
    assert Concat([x]) == x + Concat([x][1..]);
  }

  // ----- Cursor reads: a value and what is left, or nothing when too few octets remain.

  datatype Read<+T> = Read(value: T, rest: bytes)

  function ReadUint8(s: bytes): Option<Read<byte>> {
    if |s| < 1 then None else Some(Read(s[0], s[1..]))
  }

  function ReadUint16(s: bytes): Option<Read<uint16>> {
    if |s| < 2 then None else Some(Read(U16(s), s[2..]))
  }

  function ReadBytes(s: bytes, n: nat): Option<Read<bytes>> {
    if |s| < n then None else Some(Read(s[..n], s[n..]))
  }

  function ReadUint8Prefixed(s: bytes): Option<Read<bytes>> {
    if |s| < 1 then None else ReadBytes(s[1..], s[0])
  }

  function ReadUint16Prefixed(s: bytes): Option<Read<bytes>> {
    if |s| < 2 then None else ReadBytes(s[2..], U16(s))
  }

  function ReadUint24Prefixed(s: bytes): Option<Read<bytes>> {
    if |s| < 3 then None else ReadBytes(s[3..], U24(s))
  }

  // ----- Each read inverts the encoding it expects, and accepts nothing else. -----

  lemma Uint8Exact(s: bytes, v: byte, t: bytes)
    ensures ReadUint8(s) == Some(Read(v, t)) <==> s == [v] + t
  {
  }

  lemma Uint16Exact(s: bytes, v: uint16, t: bytes)
    ensures ReadUint16(s) == Some(Read(v, t)) <==> s == Be16(v) + t
  {
  }

  lemma BytesExact(s: bytes, n: nat, v: bytes, t: bytes)
    ensures ReadBytes(s, n) == Some(Read(v, t)) <==> |v| == n && s == v + t
  {
  }

  lemma Uint8PrefixedExact(s: bytes, v: bytes, t: bytes)
    ensures ReadUint8Prefixed(s) == Some(Read(v, t)) <==> |v| <= 0xff && s == [|v|] + (v + t)
  {
  }

  lemma Uint16PrefixedExact(s: bytes, v: bytes, t: bytes)
    ensures ReadUint16Prefixed(s) == Some(Read(v, t)) <==> |v| <= 0xffff && s == Be16(|v|) + (v + t)
  {
  }

  lemma Uint24PrefixedExact(s: bytes, v: bytes, t: bytes)
    ensures ReadUint24Prefixed(s) == Some(Read(v, t)) <==> |v| <= 0xff_ffff && s == Be24(|v|) + (v + t)
  {
    if |s| >= 3 {
      Be24OfU24(s);
      Split(s, 3);
      BytesExact(s[3..], U24(s), v, t);
    }
    if |v| <= 0xff_ffff && s == Be24(|v|) + (v + t) { U24OfBe24(|v|, v + t); assert s[3..] == v + t; }
  }
}
