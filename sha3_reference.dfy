/**
 * SHA-3 as FIPS 202 defines it, written independently of the hasher:
 * bit strings, the pad10*1 rule of section 5.1, the SPONGE[f, pad, r]
 * construction of section 4 (Algorithm 8) and the SHA3 domain suffix 01 of
 * section 6.1. Bytes and bits are related as in Appendix B.1: bit j of
 * byte i is bit 8i + j of the string, least significant bit first.
 */
module Sha3Reference {
  import opened Keccak
  import opened Sponge

  // ---------------------------------------------------------------------
  // Bits and bytes
  // ---------------------------------------------------------------------

  /** The 8 bits of a byte, least significant first. */
  function ByteBits(b: Byte): (bits: seq<bool>)
    ensures |bits| == 8
  {
    [b & 0x01 != 0, b & 0x02 != 0, b & 0x04 != 0, b & 0x08 != 0,
     b & 0x10 != 0, b & 0x20 != 0, b & 0x40 != 0, b & 0x80 != 0]
  }

  /** The byte whose bits, least significant first, are bits. */
  function BitsByte(bits: seq<bool>): Byte
    requires |bits| == 8
  {
    (if bits[0] then 0x01 else 0) | (if bits[1] then 0x02 else 0) |
    (if bits[2] then 0x04 else 0) | (if bits[3] then 0x08 else 0) |
    (if bits[4] then 0x10 else 0) | (if bits[5] then 0x20 else 0) |
    (if bits[6] then 0x40 else 0) | (if bits[7] then 0x80 else 0)
  }

  lemma {:induction false} ByteBitsRoundTrip(b: Byte)
    ensures BitsByte(ByteBits(b)) == b
  {
  }

  /** A byte string as a bit string. */
  function BytesToBits(bs: seq<Byte>): (bits: seq<bool>)
    ensures |bits| == 8 * |bs|
  {
    if bs == [] then [] else ByteBits(bs[0]) + BytesToBits(bs[1..])
  }

  /** A bit string of whole bytes as a byte string. */
  function BitsToBytes(bits: seq<bool>): (bs: seq<Byte>)
    requires |bits| % 8 == 0
    ensures 8 * |bs| == |bits|
  {
    if bits == [] then [] else [BitsByte(bits[..8])] + BitsToBytes(bits[8..])
  }

  /** Bytes to bits and back is the identity. */
  lemma {:induction false} BytesToBitsRoundTrip(bs: seq<Byte>)
    ensures BitsToBytes(BytesToBits(bs)) == bs
  {
    if bs != [] {
      var bits := BytesToBits(bs);
      assert bits[..8] == ByteBits(bs[0]) && bits[8..] == BytesToBits(bs[1..]);
      ByteBitsRoundTrip(bs[0]);
      BytesToBitsRoundTrip(bs[1..]);
      assert bs == [bs[0]] + bs[1..];
    }
  }

  /** Packing bits into bytes works byte by byte. */
  lemma {:induction false} BitsToBytesAppend(a: seq<bool>, b: seq<bool>)
    requires |a| % 8 == 0 && |b| % 8 == 0
    ensures BitsToBytes(a + b) == BitsToBytes(a) + BitsToBytes(b)
  {
    if a != [] {
      assert (a + b)[..8] == a[..8];
      assert (a + b)[8..] == a[8..] + b;
      BitsToBytesAppend(a[8..], b);
    } else {
      assert a + b == b;
    }
  }

  /** k zero bytes of zero bits. */
  lemma {:induction false} ZeroBitsToBytes(k: nat)
    ensures BitsToBytes(seq(8 * k, _ => false)) == seq(k, _ => 0 as Byte)
  {
    if k > 0 {
      var z := seq(8 * k, _ => false);
      assert z[..8] == [false, false, false, false, false, false, false, false];
      assert z[8..] == seq(8 * (k - 1), _ => false);
      ZeroBitsToBytes(k - 1);
      assert seq(k, _ => 0 as Byte) == [0 as Byte] + seq(k - 1, _ => 0 as Byte);
    }
  }

  // ---------------------------------------------------------------------
  // pad10*1 (FIPS 202 section 5.1)
  // ---------------------------------------------------------------------

  /**
   * The padding that makes a string of m bits a whole number of blocks of
   * x bits: a 1, j = (-m - 2) mod x zeros, and a 1.
   */
  function Pad10Star1(x: nat, m: nat): (p: seq<bool>)
    requires 0 < x
    ensures |p| >= 2 && p[0] && p[|p| - 1]
  {
    var j := (-(m as int) - 2) % (x as int);
    [true] + seq(j, _ => false) + [true]
  }

  /**
   * For SHA-3 with a rate of `rate` bytes and a message of L bytes, the
   * string M || 01 has 8L + 2 bits, and pad10*1 adds 8 (rate - L % rate) - 2
   * more, so that the padded message ends on a block boundary.
   */
  lemma {:induction false} Pad10Star1Length(L: nat, rate: nat)
    requires ValidRate(rate)
    ensures |Pad10Star1(8 * rate, 8 * L + 2)| == 8 * (rate - Rem(L, rate)) - 2
  {
    var p := Rem(L, rate);
    var q := RemSplit(L, rate);
    BlocksAreProduct(q, rate);
    assert L == q * rate + p;
    var n := -((8 * L + 2) as int) - 2;
    assert n == (-q - 1) * (8 * rate) + (8 * (rate - p) - 4);
    DivModUnique(n, 8 * rate, -q - 1, 8 * (rate - p) - 4);
  }

  /** Filling the last block of a message of L bytes ends on a block boundary. */
  lemma {:induction false} FillToBlock(L: nat, rate: nat)
    requires ValidRate(rate)
    ensures Rem(L + (rate - Rem(L, rate)), rate) == 0
  {
    var q := RemSplit(L, rate);
    RemOfBlocks(q + 1, rate, 0);
  }

  // ---------------------------------------------------------------------
  // SPONGE[f, pad10*1, r] (FIPS 202 section 4, Algorithm 8)
  // ---------------------------------------------------------------------

  /** The state before any block: 200 zero bytes. */
  function ZeroState(): Bytes
  {
    seq(STATE_BYTES, _ => 0 as Byte)
  }

  /** Absorbing: for each block P_i of rate bytes, S := f(S xor (P_i || 0^c)). */
  function SpongeAbsorb(s: Bytes, padded: seq<Byte>, rate: nat, f: Bytes -> Bytes): Bytes
    requires ValidRate(rate) && Rem(|padded|, rate) == 0
    decreases |padded|
  {
    if padded == [] then s
    else SpongeAbsorb(f(XorBytes(s, 0, padded[..rate])), padded[rate..], rate, f)
  }

  /** Squeezing: the first rate bytes of S, then of f(S), and so on, cut to size bytes. */
  function Squeeze(s: Bytes, rate: nat, size: nat, f: Bytes -> Bytes): (z: seq<Byte>)
    requires ValidRate(rate)
    ensures |z| == size
    decreases size
  {
    if size <= rate then s[..size] else s[..rate] + Squeeze(f(s), rate, size - rate, f)
  }

  /** The bits that follow the message M: the SHA-3 suffix 01, then pad10*1. */
  function Sha3Tail(L: nat, rate: nat): (t: seq<bool>)
    requires ValidRate(rate)
    ensures |t| == 8 * (rate - Rem(L, rate))
  {
    Pad10Star1Length(L, rate);
    [false, true] + Pad10Star1(8 * rate, 8 * L + 2)
  }

  /** The byte string of the padded message, M || 01 || pad10*1. */
  function Padded(input: seq<Byte>, rate: nat): (padded: seq<Byte>)
    requires ValidRate(rate)
    ensures Rem(|padded|, rate) == 0
  {
    var L := |input|;
    var tail := Sha3Tail(L, rate);
    FillToBlock(L, rate);
    BitsToBytes(BytesToBits(input) + tail)
  }

  /**
   * SHA3 with capacity 1600 - 8 rate bits and an output of size bytes:
   * KECCAK[c](M || 01, 8 size), with the permutation given as f.
   */
  function Sha3(input: seq<Byte>, rate: nat, size: nat, f: Bytes -> Bytes): (digest: seq<Byte>)
    requires ValidRate(rate)
    ensures |digest| == size
  {
    Squeeze(SpongeAbsorb(ZeroState(), Padded(input, rate), rate, f), rate, size, f)
  }

  // ---------------------------------------------------------------------
  // The padding as bytes
  // ---------------------------------------------------------------------

  /**
   * The bytes that 01 || pad10*1 adds after a message whose last block holds
   * p bytes: 0x06, zeros, 0x80; or the single byte 0x86 when one byte is left.
   */
  function PadBytes(p: nat, rate: nat): (pad: seq<Byte>)
    requires p < rate
    ensures |pad| == rate - p
  {
    if p + 1 == rate then [0x86] else [0x06] + seq(rate - p - 2, _ => 0 as Byte) + [0x80]
  }

  /** 01 || pad10*1, packed into bytes, is PadBytes. */
  lemma {:induction false} Sha3TailBytes(L: nat, rate: nat)
    requires ValidRate(rate)
    ensures BitsToBytes(Sha3Tail(L, rate)) == PadBytes(Rem(L, rate), rate)
  {
    var p := Rem(L, rate);
    var t := Sha3Tail(L, rate);
    Pad10Star1Length(L, rate);
    var j := 8 * (rate - p) - 4;
    assert t == [false, true, true] + seq(j, _ => false) + [true];
    if p + 1 == rate {
      assert t == ByteBits(0x86);
      ByteBitsRoundTrip(0x86);
    } else {
      var k := rate - p - 2;
      var head, zeros, last := ByteBits(0x06), seq(8 * k, _ => false), ByteBits(0x80);
      assert t == head + zeros + last;
      BitsToBytesAppend(head + zeros, last);
      BitsToBytesAppend(head, zeros);
      ByteBitsRoundTrip(0x06);
      ByteBitsRoundTrip(0x80);
      assert BitsToBytes(head) == [0x06];
      assert BitsToBytes(last) == [0x80];
      ZeroBitsToBytes(k);
    }
  }

  /** The padded message is the message followed by PadBytes. */
  lemma {:induction false} PaddedIsMessageThenPadBytes(input: seq<Byte>, rate: nat)
    requires ValidRate(rate)
    ensures Padded(input, rate) == input + PadBytes(Rem(|input|, rate), rate)
  {
    var tail := Sha3Tail(|input|, rate);
    BitsToBytesAppend(BytesToBits(input), tail);
    BytesToBitsRoundTrip(input);
    Sha3TailBytes(|input|, rate);
  }
}
