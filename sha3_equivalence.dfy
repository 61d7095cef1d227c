/**
 * The byte-at-a-time hasher of src/macros.rs computes SHA-3 as FIPS 202
 * defines it, for every permutation f, every rate and every output no longer
 * than one block.
 */
module Sha3Equivalence {
  import opened Keccak
  import opened Sponge
  import opened Sha3Reference

  /** XORing 0 into a byte leaves it alone. */
  lemma {:induction false} XorOctetZero(x: Byte)
    ensures XorOctet(x, 0) == x
  {
  }

  /** The two marks of `fixed_result` XOR the bytes PadBytes(position, rate) in at the cursor. */
  lemma {:induction false} PadIsPadBytes(sp: Sponge, rate: nat)
    requires ValidRate(rate) && sp.position < rate
    ensures Pad(sp, rate) == XorBytes(sp.bytes, sp.position, PadBytes(sp.position, rate))
  {
    var s, p := sp.bytes, sp.position;
    var pad := PadBytes(p, rate);
    var x := XorBytes(s, p, pad);
    PadEffect(sp, rate);
    forall j | 0 <= j < STATE_BYTES
      ensures Pad(sp, rate)[j] == x[j]
    {
      if p <= j < rate {
        assert x[j] == XorOctet(s[j], pad[j - p]);
        if j == p && p + 1 == rate {
          assert pad[0] == 0x86;
        } else if j == p {
          assert pad[0] == 0x06;
        } else if j == rate - 1 {
          assert pad[j - p] == 0x80;
        } else {
          assert pad[j - p] == 0;
          XorOctetZero(s[j]);
        }
      } else {
        assert x[j] == s[j];
      }
    }
  }

  /**
   * Absorbing whole blocks from cursor 0 is the block loop of Algorithm 8:
   * each block XORed into the first rate bytes, then f.
   */
  lemma {:induction false} AbsorbWholeBlocks(s: Bytes, padded: seq<Byte>, rate: nat, f: Bytes -> Bytes)
    requires ValidRate(rate) && Rem(|padded|, rate) == 0
    ensures Absorb(Sponge(s, 0), padded, rate, f) == Sponge(SpongeAbsorb(s, padded, rate, f), 0)
    decreases |padded|
  {
    if padded != [] {
      var block, rest := padded[..rate], padded[rate..];
      assert padded == block + rest;
      AbsorbAppend(Sponge(s, 0), block, rest, rate, f);
      AbsorbFullBlock(Sponge(s, 0), block, rate, f);
      AbsorbWholeBlocks(f(XorBytes(s, 0, block)), rest, rate, f);
    }
  }

  /** A fresh hasher starts from the zero state of the sponge. */
  lemma {:induction false} InitialIsZeroState()
    ensures Initial() == Sponge(ZeroState(), 0)
  {
    assert Initial().bytes == ZeroState();
  }

  /**
   * `process(input)` followed by `fixed_result` yields SHA3 of input with
   * capacity 1600 - 8 rate bits, whenever the digest fits in one block.
   */
  lemma {:induction false} HashIsSha3(input: seq<Byte>, rate: nat, size: nat, f: Bytes -> Bytes)
    requires ValidRate(rate) && size <= rate
    ensures Hash(input, rate, size, f) == Sha3(input, rate, size, f)
  {
    var sp := Absorb(Initial(), input, rate, f);
    var pad := PadBytes(sp.position, rate);
    AbsorbCursor(Initial(), input, rate, f);
    assert sp.position == Rem(|input|, rate);
    PaddedIsMessageThenPadBytes(input, rate);
    var padded := Padded(input, rate);
    assert padded == input + pad;
    AbsorbAppend(Initial(), input, pad, rate, f);
    AbsorbFullBlock(sp, pad, rate, f);
    PadIsPadBytes(sp, rate);
    InitialIsZeroState();
    AbsorbWholeBlocks(ZeroState(), padded, rate, f);
    assert f(Pad(sp, rate)) == SpongeAbsorb(ZeroState(), padded, rate, f);
  }
}
