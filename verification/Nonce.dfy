/** The per-record nonce of section 5.3 of RFC 8446. */
module Nonce {
  import opened Bytes

  // ----- Exclusive or, one bit at a time -----

  function XorBits(a: nat, b: nat, width: nat): nat {
    if width == 0 then 0
    else 2 * XorBits(a / 2, b / 2, width - 1) + (if a % 2 == b % 2 then 0 else 1)
  }

  function Pow2(width: nat): nat {
    if width == 0 then 1 else 2 * Pow2(width - 1)
  }

  lemma {:induction false} XorBitsUndoes(a: nat, b: nat, width: nat)
    requires a < Pow2(width)
    ensures XorBits(a, b, width) < Pow2(width)
    ensures XorBits(XorBits(a, b, width), b, width) == a
  {
    if width == 0 {
    } else {
      XorBitsUndoes(a / 2, b / 2, width - 1);
      var q, bit := XorBits(a / 2, b / 2, width - 1), if a % 2 == b % 2 then 0 else 1;
      assert XorBits(a, b, width) == 2 * q + bit && (2 * q + bit) / 2 == q && (2 * q + bit) % 2 == bit;
    }
  }

  lemma {:induction false} XorBitsBound(a: nat, b: nat, width: nat)
    ensures XorBits(a, b, width) < Pow2(width)
  {
    if width == 0 {
    } else {
      XorBitsBound(a / 2, b / 2, width - 1);
    }
  }

  lemma {:induction false} XorBitsCommutes(a: nat, b: nat, width: nat)
    ensures XorBits(a, b, width) == XorBits(b, a, width)
  {
    if width == 0 {
    } else {
      XorBitsCommutes(a / 2, b / 2, width - 1);
    }
  }

  lemma Pow2Of8()
    ensures Pow2(8) == 256
  {
  }

  function Xor(a: byte, b: byte): byte {
    XorBitsBound(a, b, 8);
    Pow2Of8();
    XorBits(a, b, 8)
  }

  lemma XorLaws(a: byte, b: byte)
    ensures Xor(Xor(a, b), b) == a && Xor(a, b) == Xor(b, a)
  {
    Pow2Of8();
    XorBitsUndoes(a, b, 8);
    XorBitsCommutes(a, b, 8);
  }

  // ----- The nonce -----

  /** The low `n` octets of `sn`, most significant first. */
  function BigEndian(sn: nat, n: nat): (r: bytes)
    ensures |r| == n
  {
    if n == 0 then [] else BigEndian(sn / 256, n - 1) + [sn % 256]
  }

  function FromBigEndian(s: bytes): nat {
    if s == [] then 0 else 256 * FromBigEndian(s[..|s| - 1]) + s[|s| - 1]
  }

  /** The sequence number padded on the left with zeros to the length of the iv. */
  function Padded(sn: uint64, n: nat): (r: bytes)
    requires n >= 8
    ensures |r| == n
  {
    Zeros(n - 8) + BigEndian(sn, 8)
  }

  function XorBytes(a: bytes, b: bytes): bytes
    requires |a| == |b|
  {
    seq(|a|, i requires 0 <= i < |a| => Xor(a[i], b[i]))
  }

  function RecordNonce(iv: bytes, sn: uint64): bytes
    requires |iv| >= 8
  {
    XorBytes(iv, Padded(sn, |iv|))
  }

  /** Seven steps of the loop shift the sequence number right by that many octets. */
  function Shifted(sn: nat, octets: nat): nat {
    if octets == 0 then sn else Shifted(sn / 256, octets - 1)
  }

  lemma {:induction false} ShiftedLast(sn: nat, octets: nat)
    ensures Shifted(sn, octets) / 256 == Shifted(sn, octets + 1)
  {
    if octets == 0 {
    } else {
      ShiftedLast(sn / 256, octets - 1);
    }
  }

  lemma {:induction false} BigEndianAt(sn: nat, n: nat, i: nat)
    requires i < n
    ensures BigEndian(sn, n)[n - 1 - i] == Shifted(sn, i) % 256
  {
    if i == 0 {
    } else {
      BigEndianAt(sn / 256, n - 1, i - 1);
    }
  }

  method BuildTLS13Nonce(iv: bytes, sn: uint64) returns (nonce: array<byte>)
    requires |iv| >= 8
    ensures fresh(nonce) && nonce[..] == RecordNonce(iv, sn)
  {
    nonce := new byte[|iv|](k requires 0 <= k < |iv| => iv[k]);
    var shifted: nat := sn;
    for i := 0 to 8
      invariant shifted == Shifted(sn, i)
      invariant forall k :: 0 <= k < |iv| - i ==> nonce[k] == iv[k]
      invariant forall k :: |iv| - i <= k < |iv| ==> nonce[k] == Xor(iv[k], Padded(sn, |iv|)[k])
    {
      BigEndianAt(sn, 8, i);
      ShiftedLast(sn, i);
      assert Padded(sn, |iv|)[|iv| - 1 - i] == shifted % 256;
      nonce[|iv| - 1 - i] := Xor(nonce[|iv| - 1 - i], shifted % 256);
      shifted := shifted / 256;
    }
    forall k | 0 <= k < |iv| ensures nonce[k] == RecordNonce(iv, sn)[k] {
      if k < |iv| - 8 {
        XorZero(iv[k]);
      }
    }
  }

  lemma {:induction false} XorBitsZero(a: nat, width: nat)
    requires a < Pow2(width)
    ensures XorBits(a, 0, width) == a
  {
    if width == 0 {
    } else {
      XorBitsZero(a / 2, width - 1);
    }
  }

  lemma XorZero(a: byte)
    ensures Xor(a, 0) == a
  {
    Pow2Of8();
    XorBitsZero(a, 8);
  }

  // ----- What the nonce is for -----

  function Pow256(n: nat): nat {
    if n == 0 then 1 else 256 * Pow256(n - 1)
  }

  lemma {:induction false} BigEndianInverse(sn: nat, n: nat)
    requires sn < Pow256(n)
    ensures FromBigEndian(BigEndian(sn, n)) == sn
  {
    if n == 0 {
    } else {
      BigEndianInverse(sn / 256, n - 1);
      assert BigEndian(sn, n)[..n - 1] == BigEndian(sn / 256, n - 1);
    }
  }

  lemma PaddedInjective(s: uint64, t: uint64, n: nat)
    requires n >= 8 && Padded(s, n) == Padded(t, n)
    ensures s == t
  {
    assert Padded(s, n)[n - 8..] == BigEndian(s, 8);
    assert Padded(t, n)[n - 8..] == BigEndian(t, 8);
    assert Pow256(4) == 0x1_0000_0000;
    assert Pow256(8) == 0x1_0000_0000_0000_0000;
    BigEndianInverse(s, 8);
    BigEndianInverse(t, 8);
  }

  lemma XorBytesUndoes(a: bytes, b: bytes)
    requires |a| == |b|
    ensures XorBytes(XorBytes(a, b), b) == a
    ensures XorBytes(a, b) == XorBytes(b, a)
  {
    forall i | 0 <= i < |a| ensures XorBytes(XorBytes(a, b), b)[i] == a[i] && XorBytes(a, b)[i] == XorBytes(b, a)[i] {
      XorLaws(a[i], b[i]);
    }
  }

  /** Under one iv every sequence number has its own nonce; two ivs of one length never share
      the nonce of a sequence number; and the same step taken twice gives the iv back. */
  lemma NonceUnique(iv: bytes, iv': bytes, s: uint64, t: uint64)
    requires |iv| == |iv'| >= 8
    ensures RecordNonce(iv, s) == RecordNonce(iv, t) <==> s == t
    ensures RecordNonce(iv, s) == RecordNonce(iv', s) <==> iv == iv'
    ensures RecordNonce(RecordNonce(iv, s), s) == iv
  {
    XorBytesUndoes(iv, Padded(s, |iv|));
    XorBytesUndoes(iv', Padded(s, |iv|));
    if RecordNonce(iv, s) == RecordNonce(iv, t) {
      XorBytesUndoes(Padded(s, |iv|), iv);
      XorBytesUndoes(Padded(t, |iv|), iv);
      PaddedInjective(s, t, |iv|);
    }
  }

  // ----- Octet by octet and bit by bit -----

  lemma XorBitsStep(a: nat, b: nat, width: nat)
    ensures XorBits(a, b, width + 1) % 2 == (a % 2 + b % 2) % 2
    ensures XorBits(a, b, width + 1) / 2 == XorBits(a / 2, b / 2, width)
  {
    var q, bit := XorBits(a / 2, b / 2, width), if a % 2 == b % 2 then 0 else 1;
    assert XorBits(a, b, width + 1) == 2 * q + bit && (2 * q + bit) / 2 == q && (2 * q + bit) % 2 == bit;
  }

  lemma {:induction false} XorBitsWider(a: nat, b: nat, width: nat)
    requires a < Pow2(width) && b < Pow2(width)
    ensures XorBits(a, b, width + 1) == XorBits(a, b, width)
  {
    if width == 0 {
    } else {
      XorBitsWider(a / 2, b / 2, width - 1);
    }
  }

  lemma Pow2Of7()
    ensures Pow2(7) == 128
  {
  }

  /** The lowest bit of the exclusive or is the sum of the lowest bits modulo two, and its other bits
      are the exclusive or of the other bits. */
  lemma XorHalves(a: byte, b: byte)
    ensures Xor(a, b) % 2 == (a % 2 + b % 2) % 2
    ensures Xor(a, b) / 2 == Xor(a / 2, b / 2)
  {
    Pow2Of7();
    XorBitsStep(a, b, 7);
    XorBitsWider(a / 2, b / 2, 7);
  }

  lemma Halved(a: byte)
    ensures a / 2 / 2 == a / 4 && a / 4 / 2 == a / 8 && a / 8 / 2 == a / 16 && a / 16 / 2 == a / 32
    ensures a / 32 / 2 == a / 64 && a / 64 / 2 == a / 128 && a / 128 % 2 == a / 128
  {
  }

  lemma XorShifted(a: byte, b: byte)
    ensures var x := Xor(a, b);
            && x / 2 == Xor(a / 2, b / 2) && x / 4 == Xor(a / 4, b / 4) && x / 8 == Xor(a / 8, b / 8)
            && x / 16 == Xor(a / 16, b / 16) && x / 32 == Xor(a / 32, b / 32) && x / 64 == Xor(a / 64, b / 64)
            && x / 128 == Xor(a / 128, b / 128)
  {
    Halved(a);
    Halved(b);
    Halved(Xor(a, b));
    XorHalves(a, b);
    XorHalves(a / 2, b / 2);
    XorHalves(a / 4, b / 4);
    XorHalves(a / 8, b / 8);
    XorHalves(a / 16, b / 16);
    XorHalves(a / 32, b / 32);
    XorHalves(a / 64, b / 64);
  }

  lemma XorLowBits(a: byte, b: byte)
    ensures var x := Xor(a, b);
            && x % 2 == (a % 2 + b % 2) % 2
            && x / 2 % 2 == (a / 2 % 2 + b / 2 % 2) % 2
            && x / 4 % 2 == (a / 4 % 2 + b / 4 % 2) % 2
            && x / 8 % 2 == (a / 8 % 2 + b / 8 % 2) % 2
  {
    XorShifted(a, b);
    XorHalves(a, b);
    XorHalves(a / 2, b / 2);
    XorHalves(a / 4, b / 4);
    XorHalves(a / 8, b / 8);
  }

  lemma XorHighBits(a: byte, b: byte)
    ensures var x := Xor(a, b);
            && x / 16 % 2 == (a / 16 % 2 + b / 16 % 2) % 2
            && x / 32 % 2 == (a / 32 % 2 + b / 32 % 2) % 2
            && x / 64 % 2 == (a / 64 % 2 + b / 64 % 2) % 2
            && x / 128 % 2 == (a / 128 % 2 + b / 128 % 2) % 2
  {
    XorShifted(a, b);
    XorHalves(a / 16, b / 16);
    XorHalves(a / 32, b / 32);
    XorHalves(a / 64, b / 64);
    XorHalves(a / 128, b / 128);
  }

  /** Each bit of the exclusive or is the sum of the two bits modulo two. */
  lemma XorBitByBit(a: byte, b: byte)
    ensures var x := Xor(a, b);
            && x % 2 == (a % 2 + b % 2) % 2
            && x / 2 % 2 == (a / 2 % 2 + b / 2 % 2) % 2
            && x / 4 % 2 == (a / 4 % 2 + b / 4 % 2) % 2
            && x / 8 % 2 == (a / 8 % 2 + b / 8 % 2) % 2
            && x / 16 % 2 == (a / 16 % 2 + b / 16 % 2) % 2
            && x / 32 % 2 == (a / 32 % 2 + b / 32 % 2) % 2
            && x / 64 % 2 == (a / 64 % 2 + b / 64 % 2) % 2
            && x / 128 % 2 == (a / 128 % 2 + b / 128 % 2) % 2
  {
    XorLowBits(a, b);
    XorHighBits(a, b);
  }

  /** The sequence number in eight octets, the highest first. */
  lemma NumberOctets(sn: uint64)
    ensures BigEndian(sn, 8)
         == [sn / 0x100_0000_0000_0000 % 256, sn / 0x1_0000_0000_0000 % 256, sn / 0x100_0000_0000 % 256, sn / 0x1_0000_0000 % 256,
             sn / 0x100_0000 % 256, sn / 0x1_0000 % 256, sn / 0x100 % 256, sn % 256]
  {
    ShiftedBy(sn);
    ShiftedOctets(sn);
  }

  lemma ShiftedOctets(sn: nat)
    ensures BigEndian(sn, 8) == [Shifted(sn, 7) % 256, Shifted(sn, 6) % 256, Shifted(sn, 5) % 256, Shifted(sn, 4) % 256,
                                 Shifted(sn, 3) % 256, Shifted(sn, 2) % 256, Shifted(sn, 1) % 256, Shifted(sn, 0) % 256]
  {
    BigEndianAt(sn, 8, 0);
    BigEndianAt(sn, 8, 1);
    BigEndianAt(sn, 8, 2);
    BigEndianAt(sn, 8, 3);
    BigEndianAt(sn, 8, 4);
    BigEndianAt(sn, 8, 5);
    BigEndianAt(sn, 8, 6);
    BigEndianAt(sn, 8, 7);
  }

  lemma ShiftedBy(sn: nat)
    ensures Shifted(sn, 0) == sn && Shifted(sn, 1) == sn / 0x100 && Shifted(sn, 2) == sn / 0x1_0000
    ensures Shifted(sn, 3) == sn / 0x100_0000 && Shifted(sn, 4) == sn / 0x1_0000_0000
    ensures Shifted(sn, 5) == sn / 0x100_0000_0000 && Shifted(sn, 6) == sn / 0x1_0000_0000_0000
    ensures Shifted(sn, 7) == sn / 0x100_0000_0000_0000
  {
    ShiftedLast(sn, 0);
    ShiftedLast(sn, 1);
    ShiftedLast(sn, 2);
    ShiftedLast(sn, 3);
    ShiftedLast(sn, 4);
    ShiftedLast(sn, 5);
    ShiftedLast(sn, 6);
  }

  /** What the nonce is: every octet is the exclusive or of the iv's and of the number's, which stands
      in the last eight, the highest octet first, after zeros. */
  lemma NonceOctets(iv: bytes, sn: uint64)
    requires |iv| >= 8
    ensures var n := |iv|;
            var number := seq(n - 8, i => 0)
              + [sn / 0x100_0000_0000_0000 % 256, sn / 0x1_0000_0000_0000 % 256, sn / 0x100_0000_0000 % 256, sn / 0x1_0000_0000 % 256,
                 sn / 0x100_0000 % 256, sn / 0x1_0000 % 256, sn / 0x100 % 256, sn % 256];
            && |RecordNonce(iv, sn)| == n
            && forall k :: 0 <= k < n ==> RecordNonce(iv, sn)[k] == Xor(iv[k], number[k])
  {
    NumberOctets(sn);
    assert Zeros(|iv| - 8) == seq(|iv| - 8, i => 0);
  }

  /** Under the iv of zeros the nonce is the number itself. */
  lemma NonceOfZeros(n: nat, sn: uint64)
    requires n >= 8
    ensures RecordNonce(Zeros(n), sn) == Padded(sn, n) && FromBigEndian(RecordNonce(Zeros(n), sn)) == sn
  {
    var nonce := RecordNonce(Zeros(n), sn);
    forall k | 0 <= k < n ensures nonce[k] == Padded(sn, n)[k] {
      XorLaws(0, Padded(sn, n)[k]);
      XorZero(Padded(sn, n)[k]);
    }
    LeadingZeros(n - 8, BigEndian(sn, 8));
    assert Pow256(4) == 0x1_0000_0000 && Pow256(8) == 0x1_0000_0000_0000_0000;
    BigEndianInverse(sn, 8);
  }

  lemma {:induction false} LeadingZeros(n: nat, s: bytes)
    ensures FromBigEndian(Zeros(n) + s) == FromBigEndian(s)
    decreases n + |s|
  {
    if s == [] {
      assert Zeros(n) + [] == Zeros(n);
      if n > 0 {
        assert Zeros(n)[..n - 1] == Zeros(n - 1) && Zeros(n - 1) + [] == Zeros(n - 1);
        LeadingZeros(n - 1, []);
      }
    } else {
      assert (Zeros(n) + s)[..n + |s| - 1] == Zeros(n) + s[..|s| - 1];
      LeadingZeros(n, s[..|s| - 1]);
    }
  }
}
