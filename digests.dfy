/**
 * The hashers that `impl_hash!` is instantiated with in src/digests.rs, and
 * the end-to-end statement: a fresh hasher fed a message and finalized
 * returns SHA3 of the message.
 */
module Digests {
  import opened Keccak
  import opened Sponge
  import opened Sha3Reference
  import opened Sha3Equivalence
  import opened Hasher

  /** The two byte counts `impl_hash!` takes: `$ratebytes` and `$sizebytes`. */
  datatype Config = Config(rate: nat, size: nat)

  /** `impl_hash!(Sha3_256, U136, U32, 136, 32)`, the one live instance. */
  const SHA3_256: Config := Config(136, 32)
  /** The commented-out instances. */
  const SHA3_224: Config := Config(144, 28)
  const SHA3_384: Config := Config(104, 48)
  const SHA3_512: Config := Config(72, 64)

  /** The four configurations, by output length. */
  const CONFIGS: seq<Config> := [SHA3_224, SHA3_256, SHA3_384, SHA3_512]

  /** The capacities in bits that the sponge draft lists for the same four functions. */
  const CAPACITY_BITS: seq<nat> := [448, 512, 768, 1024]

  /** The output lengths in bits of the same four functions. */
  const OUTPUT_BITS: seq<nat> := [224, 256, 384, 512]

  /** The capacity of a configuration: the bits of the state that input never touches. */
  function CapacityBits(c: Config): int
  {
    1600 - 8 * c.rate
  }

  /**
   * Every configuration has a rate the hasher accepts, a digest that fits
   * in one block, the capacity the sponge draft lists, and a capacity twice
   * the output length, as SHA3-224 to SHA3-512 require.
   */
  lemma {:induction false} ConfigsAreSha3(i: nat)
    requires i < |CONFIGS|
    ensures ValidRate(CONFIGS[i].rate) && CONFIGS[i].size <= CONFIGS[i].rate
    ensures CapacityBits(CONFIGS[i]) == CAPACITY_BITS[i]
    ensures 8 * CONFIGS[i].size == OUTPUT_BITS[i]
    ensures CapacityBits(CONFIGS[i]) == 2 * OUTPUT_BITS[i]
  {
  }

  /**
   * `D::default()`, `process(input)` and `fixed_result()` in sequence: the
   * result is SHA3 of input with capacity 1600 - 8 rate bits and a digest of
   * size bytes.
   */
  method Digest(c: Config, input: seq<Byte>) returns (digest: array<Byte>)
    requires ValidRate(c.rate) && c.size <= c.rate
    ensures digest[..] == Sha3(input, c.rate, c.size, Permute)
  {
    var h := new Hasher(c.rate, c.size);
    h.Process(input);
    digest := h.FixedResult();
    HashIsSha3(input, c.rate, c.size, Permute);
  }

  /** `Sha3_256`: 32 bytes of SHA3-256 for every message. */
  method Sha3_256(input: seq<Byte>) returns (digest: array<Byte>)
    ensures |digest[..]| == 32
    ensures digest[..] == Sha3(input, 136, 32, Permute)
  {
    ConfigsAreSha3(1);
    digest := Digest(SHA3_256, input);
  }
}
