# dalek-keccak in Dafny

This project models the SHA-3 engine of dalek-keccak. It has two parts:
- **The permutation.** `src/reference.rs` defines the Keccak-f[1600] permutation. `State` holds 5 × 5 lanes of 64 bits, `keccakf` runs 24 rounds, and `round(rc)` runs θ, ρ/π, χ and ι in place.
- **The hasher.** `src/macros.rs` defines it through `impl_hash!`. It holds a `State` and a byte cursor `position`:
  - `process` XORs input bytes one at a time into the state and permutes whenever the cursor reaches the rate;
  - `fixed_result` XORs in the SHA-3 padding, permutes once and copies out the first `$sizebytes` bytes.

The model is organised as follows:

- `keccak.dfy` (module `Keccak`): the permutation as pure functions over `bv64` lanes.
  - Where the source hand-unrolls a step (the arrays `C`, `D` and `B`, the χ row), it is written exactly as the source has it.
  - It is also written as the closed-form rule of FIPS 202 section 3.2. Lemmas prove that the two agree and that ρ/π moves the lanes bijectively.
  - The module also defines the byte view of the state. Byte `i` is byte `i % 8` (little-endian) of lane number `i / 8`, and lanes are numbered row by row.
- `keccak_constants.dfy` (module `KeccakConstants`): the two tables at the top of `src/reference.rs`, derived from FIPS 202.
  - The ρ offsets are the walk of Algorithm 2: lane (1, 0) first, then (x, y) to (y, (2x + 3y) mod 5), with offset (t + 1)(t + 2)/2 mod 64 at step t.
  - The ι constants are the output of the rc shift register of Algorithms 5 and 6.
- `keccak_state.dfy` (class `KeccakState.State`): `round` and `keccakf` as methods over an array of rows, proved to compute the pure functions.
- `sponge.dfy` (module `Sponge`): the hasher as values.
  - It covers the absorb step of `process`, chunk invariance, the cursor arithmetic, the padding marks and the read-out.
  - Every function takes the permutation as a parameter `f`. The hasher is thus proved correct for any `f`, and `Keccak.Permute` is plugged in at the end.
- `sha3_reference.dfy` (module `Sha3Reference`): SHA-3 written independently from FIPS 202.
  - It works on bit strings: the `01` suffix, pad10*1 (section 5.1), the SPONGE construction (section 4, Algorithm 8) and the byte/bit conversion of Appendix B.1.
- `sha3_equivalence.dfy` (module `Sha3Equivalence`): the proof that the hasher's byte-at-a-time absorb followed by its two XORed padding marks computes that SHA-3 (`HashIsSha3`).
- `hasher.dfy` (class `Hasher.Hasher`): the struct of `impl_hash!`, with `process` and `fixed_result` as methods over a `KeccakState.State`. Each method is proved against the functions of `Sponge`.
  - The ghost field `perm` names the permutation that `state.keccakf()` applies to the byte view.
  - `Valid()` only knows that `perm` agrees with Keccak-f on every state (`IsKeccakF`). `PermuteIsKeccakF` shows that this pins it down to `Keccak.Permute` byte for byte, and the constructor sets it to `Permute`.
- `digests.dfy` (module `Digests`): the four `impl_hash!` configurations and the end-to-end method `Digest`.
  - `Digest` runs a fresh hasher, `process`, then `fixed_result`, and returns FIPS 202 SHA-3 of the message.

The ρ/π rule is stated the way the code indexes the state, `A[y][x]`: slot `B[(2x + 3y) % 5][y]` receives `A[y][x]` rotated by `ROTATION_CONSTANTS[y][x]`. FIPS 202 writes a lane as `A[x, y]`, with x first. Its lane (x, y) is therefore `A[y][x]` here, and the model follows the code's indexing throughout (src/reference.rs:100-108). `RhoPiRule` together with `PiIsInjective` and `PiIsSurjective` shows that the code's table is the permutation of FIPS 202 section 3.2.3.

The hasher configurations do not carry a domain-separation byte. `0x06` is written into `fixed_result` itself (src/macros.rs:68), and the model does the same.

## Model

| member | source | states |
|---|---|---|
| Keccak.Rot | src/reference.rs:3-9 | every ρ offset in the table is below 64, so each `rotate_left` is a legal 64-bit rotation |
| KeccakConstants.RotationConstantsAreRhoWalk | src/reference.rs:3-9 | the ρ table is what FIPS 202 Algorithm 2 computes: A[0][0] has offset 0, the lane visited at step t of the walk from (1, 0) has offset (t + 1)(t + 2)/2 mod 64, and the 24 steps visit every other lane |
| KeccakConstants.RoundConstantsAreLfsr | src/reference.rs:11-36 | entry ir of the ι table is RC for round ir as FIPS 202 Algorithm 6 builds it from the rc bits of Algorithm 5: bit 2^j - 1 is rc(j + 7 ir) for j = 0..6, every other bit 0 |
| Keccak.ColumnParitiesFollowRule | src/reference.rs:73-79 | the hand-written array C is the XOR of each column over all five rows |
| Keccak.ThetaEffectsFollowRule | src/reference.rs:81-87 | the hand-written array D, fed with C, is D[x] = C[(x + 4) % 5] ^ rotl(C[(x + 1) % 5], 1) for every x |
| Keccak.ThetaRule | src/reference.rs:73-97 | after θ every lane A[y][x] is old A[y][x] ^ D[x], with D[x] from the column parities as in FIPS 202 Algorithm 1 |
| Keccak.RhoPiSourcesFollowRule | src/reference.rs:102-108 | each of the 25 hand-written calls B_ij(x, y) that fill slot B[i][j] takes y = j and x = (3i + j) % 5 |
| Keccak.RhoPiRule | src/reference.rs:100-108 | B[(2x + 3y) % 5][y] = rotl(A[y][x], ROTATION_CONSTANTS[y][x]) for all x, y in 0..5 |
| Keccak.PiColumnOfRow | src/reference.rs:102-108 | the column that feeds a slot, computed from the slot that lane (x, y) lands on, is x again |
| Keccak.PiIsInjective | src/reference.rs:102-108 | no two lanes of A land on the same slot of B |
| Keccak.PiRowOfColumn | src/reference.rs:102-108 | the slot that a slot's feeding lane lands on is that slot again |
| Keccak.PiIsSurjective | src/reference.rs:102-108 | every slot of B receives a lane of A |
| Keccak.ChiRowRule | src/reference.rs:112-116 | the five hand-written χ lanes of a row are B[y][x] ^ (!B[y][(x + 1) % 5] & B[y][(x + 2) % 5]) |
| Keccak.ChiRule | src/reference.rs:111-117 | χ lane by lane follows that rule for every x and y |
| Keccak.ChiIsRowLocal | src/reference.rs:111-117 | row y after χ depends on row y of B alone |
| Keccak.IotaRule | src/reference.rs:120 | ι XORs rc into A[0][0] and leaves the other 24 lanes unchanged |
| Keccak.ApplyRemainingRounds | src/reference.rs:59-63 | after n rounds, running the remaining constants in order gives all rounds |
| Keccak.KeccakF1600UsesTableInOrder | src/reference.rs:59-63 | Keccak-f is exactly the 24 rounds, the i-th with ROUND_CONSTANTS[i], in table order |
| Keccak.ThetaOfZero | src/reference.rs:73-97 | θ maps the zero state to itself |
| Keccak.RhoPiOfZero | src/reference.rs:100-108 | ρ/π maps the zero state to itself |
| Keccak.ChiOfZero | src/reference.rs:111-117 | χ maps the zero state to itself |
| Keccak.FirstRoundOfZero | src/reference.rs:130-136 | the test's first round on the zero state leaves every lane zero except A[0][0] = 1 |
| Keccak.LaneBytes | src/macros.rs:51 | a lane is read as exactly eight bytes |
| Keccak.StateBytesOfLane | src/macros.rs:51 | bytes 8l .. 8l + 7 of the byte view are the little-endian bytes of lane number l |
| Keccak.StateBytesOfZero | src/macros.rs:40 | the zero state reads as 200 zero bytes |
| Keccak.LaneBytesRoundTrip | src/macros.rs:51 | unpacking a lane into bytes and packing them again gives the lane |
| Keccak.LaneOfRoundTrip | src/macros.rs:51 | packing eight bytes into a lane and unpacking it gives the bytes |
| Keccak.LaneSurvivesRoundTrip | src/macros.rs:51 | each lane is recovered after reading the state as bytes and packing it again |
| Keccak.StateBytesRoundTrip | src/macros.rs:51 | reading the state as 200 bytes and packing them again gives the state back |
| Keccak.FromBytesRoundTrip | src/macros.rs:51 | packing 200 bytes and reading them again gives the bytes back, so the byte view is a bijection |
| Keccak.PermuteStateBytes | src/macros.rs:55 | Keccak-f on the byte string is Keccak-f on the lanes, read as bytes |
| Keccak.XorByteAt | src/macros.rs:51 | `state[i] ^= b` changes byte i to byte i ^ b and leaves every other byte alone |
| Keccak.XorByteEffect | src/macros.rs:51 | the same for the whole 200-byte view at once |
| KeccakState.State.constructor | src/reference.rs:130 | a fresh state has all 25 lanes zero |
| KeccakState.State.ByteAt | src/macros.rs:75 | `state[i]` is byte i of the byte view |
| KeccakState.State.XorByte | src/macros.rs:51 | `state[i] ^= b` in place leaves the lanes that XorByte computes |
| KeccakState.State.XorRows | src/reference.rs:89-97 | the θ loop leaves every row A[y] replaced by A[y] ^ D lane by lane |
| KeccakState.State.ChiRows | src/reference.rs:111-117 | the χ loop leaves A equal to χ of B |
| KeccakState.State.Round | src/reference.rs:69-121 | `round(rc)` in place leaves ι(χ(ρπ(θ(A))), rc) of the state it found, a function of the old state and rc alone |
| KeccakState.State.KeccakF | src/reference.rs:59-63 | `keccakf` in place leaves Keccak-f[1600] of the state it found |
| Sponge.Initial | src/macros.rs:37-44 | the default hasher has all 200 state bytes zero and position 0 |
| Sponge.AbsorbByte | src/macros.rs:51-57 | one byte leaves the cursor below the rate; the cursor returns to 0 exactly when it reached the rate, and otherwise advances by one |
| Sponge.Absorb | src/macros.rs:50-58 | after `process` the cursor is below the rate |
| Sponge.AbsorbCount | src/macros.rs:50-58 | position + len(input) = (number of keccakf runs) × rate + new position |
| Sponge.AbsorbCursor | src/macros.rs:50-58 | the new position is (old position + len(input)) mod rate |
| Sponge.AbsorbDivMod | src/macros.rs:50-58 | the new position is (old position + len(input)) % rate and keccakf ran (old position + len(input)) / rate times |
| Sponge.AbsorbAppend | src/macros.rs:47-59 | chunk invariance: `process(a); process(b)` leaves the same state and position as `process(a ++ b)` |
| Sponge.AbsorbWithinBlock | src/macros.rs:50-53 | while the block is not full, `process` XORs the input into bytes position .. position + len - 1 and advances the cursor by len |
| Sponge.AbsorbKeepsCapacity | src/macros.rs:51-55 | outside keccakf, `process` never changes a state byte at offset rate or beyond |
| Sponge.AbsorbFullBlock | src/macros.rs:50-57 | filling a block XORs it in, runs keccakf exactly once and resets the cursor to 0 |
| Sponge.PadEffect | src/macros.rs:68-69 | `fixed_result` XORs 0x06 into byte position and 0x80 into byte rate - 1; when these coincide the byte receives 0x86; both bytes change, so the marks never cancel |
| Sponge.Finalize | src/macros.rs:65-79 | the digest has exactly size bytes |
| Sponge.Hash | src/macros.rs:37-79 | a fresh hasher, fed and finalized, yields size bytes |
| Sponge.HashChunked | src/macros.rs:47-79 | the digest does not depend on how the input is split over calls to `process` |
| Sha3Reference.Sha3TailBytes | src/macros.rs:68-69 | the FIPS 202 bits 01 ‖ pad10*1, packed into bytes, are 0x06, zeros and 0x80, or the single byte 0x86 |
| Sha3Reference.PaddedIsMessageThenPadBytes | src/macros.rs:68-69 | the FIPS 202 padded message is the message followed by those padding bytes |
| Sha3Equivalence.PadIsPadBytes | src/macros.rs:68-69 | the two padding XORs of `fixed_result` XOR exactly the FIPS 202 padding bytes into the state at the cursor |
| Sha3Equivalence.AbsorbWholeBlocks | src/macros.rs:50-58 | from cursor 0, byte-at-a-time absorption of whole blocks is the block loop of FIPS 202 Algorithm 8 |
| Sha3Equivalence.InitialIsZeroState | src/macros.rs:37-44 | the default hasher starts from the all-zero sponge state of FIPS 202 |
| Sha3Equivalence.HashIsSha3 | src/macros.rs:47-79 | `process(input)` then `fixed_result` returns FIPS 202 SHA3 of input with capacity 1600 - 8·rate bits, for every permutation f, rate and size <= rate |
| Hasher.PermuteIsKeccakF | src/macros.rs:55 | Permute agrees with keccakf on the byte view of every state, and every function that does equals Permute on every input |
| Hasher.Hasher.constructor | src/macros.rs:37-44 | `default()`: zero state, position 0, so the hasher is Sponge.Initial |
| Hasher.Hasher.XorAt | src/macros.rs:51 | `state[i] ^= b` in place changes byte i of the byte view by b and no other byte |
| Hasher.Hasher.KeccakF | src/macros.rs:55 | `state.keccakf()` in place leaves the byte view permuted by perm |
| Hasher.Hasher.ProcessByte | src/macros.rs:51-57 | one pass of the loop leaves the hasher at AbsorbByte of its old value and counts keccakf exactly when the cursor reached the rate |
| Hasher.Hasher.Process | src/macros.rs:47-59 | `process(input)` leaves the hasher at Absorb of its old value, with position = (old position + len) % rate and (old position + len) / rate runs of keccakf |
| Hasher.Hasher.PadAndPermute | src/macros.rs:68-70 | the padding XORs and one keccakf leave the bytes perm(Pad(old)) with the cursor unchanged |
| Hasher.Hasher.ReadOut | src/macros.rs:72-76 | the digest loop copies exactly the first size bytes of the state |
| Hasher.Hasher.FixedResult | src/macros.rs:65-79 | `fixed_result` returns Finalize of the hasher it consumed, runs keccakf exactly once, and leaves the hasher finished |
| Digests.ConfigsAreSha3 | src/digests.rs:70-73 | each of the four rate/size rows is a valid rate with the digest within one block; its capacity matches the capacity row for the same output size in src/digest.rs:140-143 and is twice the output length |
| Digests.Digest | src/macros.rs:32-79 | a fresh hasher, `process(input)` and `fixed_result()` return FIPS 202 SHA3 of input with the concrete Keccak-f |
| Digests.Sha3_256 | src/digests.rs:71 | `Sha3_256` returns 32 bytes, SHA3-256 of the input |

## Left out

- `Index`/`IndexMut` for `State` are not part of this model: `macros.rs` indexes the state by byte, but the code that does it is not shown. The model defines the byte view (`Keccak.ByteAt`) as little-endian lanes in row-major order.
- src/digest.rs is an abandoned draft that does not compile. Only its capacity rows (lines 140-143) are used, to cross-check the rates.
- The `fmt::Debug` impl and the `println!` dumps (src/reference.rs:41-56, 132-138) produce output only. The rounds-on-zero test is covered by its first round only (`FirstRoundOfZero`). Evaluating all 24 rounds on concrete values inside the verifier is not attempted.
- Known-answer digests are not modelled. This includes the comparison with the external `sha3` crate on 2000 bytes of 'A' (src/digests.rs:79-94). Instead, `HashIsSha3` and `Digests.Digest` prove equality with FIPS 202 SHA-3, as `Sha3Reference` writes it, for every input. Both tables that the permutation reads are derived from FIPS 202 rather than trusted: the ρ offsets by `RotationConstantsAreRhoWalk` and the round constants by `RoundConstantsAreLfsr`.
- The `digest` crate trait glue, `GenericArray`/typenum plumbing, `BlockInput`, `trace_macros!`, src/lib.rs and the benchmark harness are not modelled. They contain no logic of the core.
- `fixed_result` takes the hasher by value. The model keeps the object and marks it with the ghost flag `finished`; the methods that feed the hasher require it to be unset.
- `Default::default` builds the state with `keccak::State::default()` (src/macros.rs:40). That function is not part of this model, because `State` at src/reference.rs:38-39 only derives `Clone`. The model takes the default state to be all zero, which is also where the test starts (src/reference.rs:130).
- The digest's length is the typenum `$size` (src/macros.rs:63, 65, 72), while the copy loop runs over `$sizebytes` (line 74). The model has one `size` for both. This assumes the two agree, as they do in the one live instance, `U32` and `32` (src/digests.rs:71).
- `position` is a `usize` in the source and a `nat` here. It never exceeds the rate of at most 200, so no wrap-around is possible.
- Sha3Equivalence.HashIsSha3: proved only for size <= rate. For a larger `$sizebytes`, `fixed_result` would copy bytes beyond the rate from a single permuted state, which is not what SHA-3 squeezing does. No configuration has such a size (`Digests.ConfigsAreSha3`).
- The source performs `round`, `process` and `fixed_result` as single functions. The model splits them into helper methods: `XorRows` and `ChiRows` for the θ and χ loops, `XorAt` and `KeccakF` for single state updates, `ProcessByte` for one pass of the loop, and `PadAndPermute` and `ReadOut` for the two halves of `fixed_result`. The order of updates is the same.
