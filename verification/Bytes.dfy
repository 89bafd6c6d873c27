/** Byte strings, little-endian integers and the few slicing facts the other modules share. */
module Bytes {

  type byte = bv8
  type bytes = seq<byte>

  /** One more than the largest `u64`. */
  const U64_LIMIT: nat := 0x1_0000_0000_0000_0000

  function Pow256(n: nat): nat {
    if n == 0 then 1 else 256 * Pow256(n - 1)
  }

  // A byte and its value, bit by bit.

  function Odd(n: nat): bool { n % 2 == 1 }
  function Half(n: nat): nat { n / 2 }
  function Join(low: bool, high: nat): nat { (if low then 1 else 0) + 2 * high }
  function Mask(b: bool, m: byte): byte { if b then m else 0 }
  function Bit(m: byte, k: byte): bool { m & k != 0 }

  function Pack(a: bool, b: bool, c: bool, d: bool, e: bool, f: bool, g: bool, h: bool): byte {
    Mask(a, 1) | Mask(b, 2) | Mask(c, 4) | Mask(d, 8) | Mask(e, 16) | Mask(f, 32) | Mask(g, 64) | Mask(h, 128)
  }

  function Packed(n: nat): byte {
    var n1 := Half(n);
    var n2 := Half(n1);
    var n3 := Half(n2);
    var n4 := Half(n3);
    var n5 := Half(n4);
    var n6 := Half(n5);
    Pack(Odd(n), Odd(n1), Odd(n2), Odd(n3), Odd(n4), Odd(n5), Odd(n6), Odd(Half(n6)))
  }

  /** The bits of `n` from the place of `m` upwards, as far as a byte goes. */
  function BitsFrom(n: nat, m: byte): byte
    decreases n
  {
    if n == 0 then 0 else Mask(Odd(n), m) | BitsFrom(Half(n), m << 1)
  }

  function ToByte(n: nat): byte {
    BitsFrom(n, 1)
  }

  function FromByte(m: byte): nat {
    var n6 := Join(Bit(m, 64), Join(Bit(m, 128), 0));
    var n4 := Join(Bit(m, 16), Join(Bit(m, 32), n6));
    var n2 := Join(Bit(m, 4), Join(Bit(m, 8), n4));
    Join(Bit(m, 1), Join(Bit(m, 2), n2))
  }

  lemma PackBits(a: bool, b: bool, c: bool, d: bool, e: bool, f: bool, g: bool, h: bool)
    ensures var m := Pack(a, b, c, d, e, f, g, h);
      && Bit(m, 1) == a && Bit(m, 2) == b && Bit(m, 4) == c && Bit(m, 8) == d
      && Bit(m, 16) == e && Bit(m, 32) == f && Bit(m, 64) == g && Bit(m, 128) == h
  {
  }

  lemma Repack(m: byte)
    ensures Pack(Bit(m, 1), Bit(m, 2), Bit(m, 4), Bit(m, 8), Bit(m, 16), Bit(m, 32), Bit(m, 64), Bit(m, 128)) == m
  {
  }

  lemma Rejoin(n: nat)
    ensures Join(Odd(n), Half(n)) == n
  {
  }

  lemma Unjoin()
    ensures forall low, high :: Odd(Join(low, high)) == low && Half(Join(low, high)) == high
  {
  }

  lemma HalfBelow(n: nat, k: nat)
    requires n < 2 * k
    ensures Half(n) < k
  {
  }

  lemma PackedRoundTrip(n: nat)
    requires n < 256
    ensures FromByte(Packed(n)) == n
  {
    var n1 := Half(n);
    var n2 := Half(n1);
    var n3 := Half(n2);
    var n4 := Half(n3);
    var n5 := Half(n4);
    var n6 := Half(n5);
    var n7 := Half(n6);
    hide Pack, Join, Odd, Half, Bit;
    HalfBelow(n, 128);
    HalfBelow(n1, 64);
    HalfBelow(n2, 32);
    HalfBelow(n3, 16);
    HalfBelow(n4, 8);
    HalfBelow(n5, 4);
    HalfBelow(n6, 2);
    HalfBelow(n7, 1);
    PackBits(Odd(n), Odd(n1), Odd(n2), Odd(n3), Odd(n4), Odd(n5), Odd(n6), Odd(n7));
    Rejoin(n);
    Rejoin(n1);
    Rejoin(n2);
    Rejoin(n3);
    Rejoin(n4);
    Rejoin(n5);
    Rejoin(n6);
    Rejoin(n7);
  }

  lemma RepackedRoundTrip(m: byte)
    ensures FromByte(m) < 256
    ensures Packed(FromByte(m)) == m
  {
    assert FromByte(m) < 256;
    Unjoin();
    Repack(m);
    hide Pack, Join, Odd, Half, Bit;
  }

  lemma NextBit(n: nat, m: byte)
    ensures BitsFrom(n, m) == Mask(Odd(n), m) | BitsFrom(Half(n), m << 1)
  {
  }

  lemma EightBits(n: nat)
    requires n < 256
    ensures ToByte(n) == Packed(n)
  {
    var n1 := Half(n);
    var n2 := Half(n1);
    var n3 := Half(n2);
    var n4 := Half(n3);
    var n5 := Half(n4);
    var n6 := Half(n5);
    var n7 := Half(n6);
    assert Half(n7) == 0 && BitsFrom(0, 0) == 0;
    NextBit(n, 1);
    NextBit(n1, 2);
    NextBit(n2, 4);
    NextBit(n3, 8);
    NextBit(n4, 16);
    NextBit(n5, 32);
    NextBit(n6, 64);
    NextBit(n7, 128);
    hide BitsFrom, Odd, Half, Mask;
  }

  lemma NatToByte(n: nat)
    requires n < 256
    ensures FromByte(ToByte(n)) == n
  {
    hide ToByte, FromByte, Packed;
    EightBits(n);
    PackedRoundTrip(n);
  }

  lemma ByteToNat(m: byte)
    ensures FromByte(m) < 256
    ensures ToByte(FromByte(m)) == m
  {
    hide ToByte, FromByte, Packed;
    RepackedRoundTrip(m);
    EightBits(FromByte(m));
  }

  /** A byte as the number it is. */
  lemma ByteValue(m: byte)
    ensures FromByte(m) == m as nat
  {
  }

  lemma NatValue(n: nat)
    requires n < 256
    ensures ToByte(n) as nat == n
  {
    hide ToByte, FromByte;
    NatToByte(n);
    ByteValue(ToByte(n));
  }

  /** The `i`th byte of `n`, least significant first. */
  function ByteAt(n: nat, i: nat): byte
    decreases i
  {
    if i == 0 then ToByte(n % 256) else ByteAt(n / 256, i - 1)
  }

  /** The low `width` bytes of `n`, least significant first: `to_le_bytes`, after an `as` truncation. */
  function ToLE(n: nat, width: nat): (s: bytes)
    ensures |s| == width
  {
    seq(width, i requires 0 <= i => ByteAt(n, i))
  }

  lemma LowByte(n: nat, width: nat)
    requires width > 0
    ensures ToLE(n, width) == [ToByte(n % 256)] + ToLE(n / 256, width - 1)
  {
    hide ToByte;
  }

  function FromLE(s: bytes): nat {
    if s == [] then 0 else FromByte(s[0]) + 256 * FromLE(s[1..])
  }

  lemma {:induction false} FromToLE(n: nat, width: nat)
    requires n < Pow256(width)
    ensures FromLE(ToLE(n, width)) == n
  {
    hide ToByte, FromByte, ToLE;
    if width > 0 {
      LowByte(n, width);
      FromToLE(n / 256, width - 1);
      NatToByte(n % 256);
      assert ToLE(n, width)[1..] == ToLE(n / 256, width - 1);
    }
  }

  lemma {:induction false} ToFromLE(s: bytes)
    ensures FromLE(s) < Pow256(|s|)
    ensures ToLE(FromLE(s), |s|) == s
  {
    hide ToByte, FromByte, ToLE;
    if s == [] {
      assert ToLE(0, 0) == [];
    } else {
      ToFromLE(s[1..]);
      ByteToNat(s[0]);
      LowByte(FromLE(s), |s|);
      var n, rest := FromLE(s), FromLE(s[1..]);
      assert n % 256 == FromByte(s[0]) && n / 256 == rest;
      assert s == [s[0]] + s[1..];
    }
  }

  /** The value of four bytes, and of the bytes after them, written out. */
  lemma LowFourValue(s: bytes)
    requires |s| >= 4
    ensures FromLE(s)
         == s[0] as nat + 0x100 * s[1] as nat + 0x1_0000 * s[2] as nat + 0x100_0000 * s[3] as nat
            + 0x1_0000_0000 * FromLE(s[4..])
  {
    hide FromByte;
    var s1 := s[1..];
    var s2 := s1[1..];
    var s3 := s2[1..];
    assert s3[1..] == s[4..] && s1[0] == s[1] && s2[0] == s[2] && s3[0] == s[3];
    ByteValue(s[0]);
    ByteValue(s[1]);
    ByteValue(s[2]);
    ByteValue(s[3]);
    assert FromLE(s3) == FromByte(s[3]) + 256 * FromLE(s[4..]);
    assert FromLE(s2) == FromByte(s[2]) + 256 * FromLE(s3);
    assert FromLE(s1) == FromByte(s[1]) + 256 * FromLE(s2);
  }

  lemma U64Value(s: bytes)
    requires |s| == 8
    ensures FromLE(s)
         == s[0] as nat + 0x100 * s[1] as nat + 0x1_0000 * s[2] as nat + 0x100_0000 * s[3] as nat
            + 0x1_0000_0000
              * (s[4] as nat + 0x100 * s[5] as nat + 0x1_0000 * s[6] as nat + 0x100_0000 * s[7] as nat)
  {
    hide FromLE;
    LowFourValue(s);
    LowFourValue(s[4..]);
    assert FromLE(s[4..][4..]) == 0 by {
      EmptyValue(s[4..][4..]);
    }
  }

  lemma EmptyValue(s: bytes)
    requires s == []
    ensures FromLE(s) == 0
  {
  }

  lemma Pow256Values()
    ensures Pow256(1) == 0x100
    ensures Pow256(4) == 0x1_0000_0000
    ensures Pow256(8) == U64_LIMIT
  {
    assert Pow256(2) == 0x1_0000;
    assert Pow256(3) == 0x100_0000;
    assert Pow256(5) == 0x100_0000_0000;
    assert Pow256(6) == 0x1_0000_0000_0000;
    assert Pow256(7) == 0x100_0000_0000_0000;
  }

  lemma U64RoundTrip(n: nat)
    requires n < U64_LIMIT
    ensures FromLE(ToLE(n, 8)) == n
  {
    Pow256Values();
    FromToLE(n, 8);
  }

  lemma U32RoundTrip(n: nat)
    requires n < 0x1_0000_0000
    ensures FromLE(ToLE(n, 4)) == n
  {
    Pow256Values();
    FromToLE(n, 4);
  }

  function Zeros(n: nat): (s: bytes)
    ensures |s| == n && forall i | 0 <= i < n :: s[i] == 0
  {
    seq(n, _ => 0)
  }

  /** `img` with `data` written over it from `off`; the image grows when the data runs past its end. */
  function Splice(img: bytes, off: nat, data: bytes): (r: bytes)
    requires off <= |img|
    ensures |r| == if off + |data| <= |img| then |img| else off + |data|
    ensures r[off..off + |data|] == data
    ensures forall p | 0 <= p < off :: r[p] == img[p]
    ensures forall p | off + |data| <= p < |img| :: r[p] == img[p]
  {
    img[..off] + data + (if off + |data| <= |img| then img[off + |data|..] else [])
  }

  /** `copy_from_slice` into part of a buffer. */
  method CopyInto(buf: array<byte>, at: nat, src: bytes)
    requires at + |src| <= buf.Length
    modifies buf
    ensures buf[..] == old(buf[..at]) + src + old(buf[at + |src|..])
  {
    for i := 0 to |src|
      invariant forall p | 0 <= p < buf.Length :: buf[p] == if at <= p < at + i then src[p - at] else old(buf[p])
    {
      buf[at + i] := src[i];
    }
  }
}
