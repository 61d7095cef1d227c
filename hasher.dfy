/**
 * The hasher struct that `impl_hash!` in src/macros.rs generates: a Keccak
 * state, the cursor `position`, and the byte-at-a-time `process` and the
 * padding and read-out of `fixed_result`, each proved against module Sponge.
 */
module Hasher {
  import opened Keccak
  import opened KeccakState
  import opened Sponge

  /**
   * f is Keccak-f seen through the byte view: it maps the bytes of every
   * state to the bytes of that state after `keccakf`.
   */
  ghost predicate IsKeccakF(f: Bytes -> Bytes)
  {
    forall a: Matrix {:trigger KeccakF1600(a)} :: f(StateBytes(a)) == StateBytes(KeccakF1600(a))
  }

  /** Permute is Keccak-f on bytes, and it is the only such function. */
  lemma {:induction false} PermuteIsKeccakF(f: Bytes -> Bytes)
    ensures IsKeccakF(Permute)
    ensures IsKeccakF(f) ==> forall s: Bytes :: f(s) == Permute(s)
  {
    forall a: Matrix
      ensures Permute(StateBytes(a)) == StateBytes(KeccakF1600(a))
    {
      PermuteStateBytes(a);
    }
    if IsKeccakF(f) {
      forall s: Bytes
        ensures f(s) == Permute(s)
      {
        FromBytesRoundTrip(s);
        assert f(StateBytes(FromBytes(s))) == StateBytes(KeccakF1600(FromBytes(s)));
      }
    }
  }

  class Hasher {
    /** The Keccak state, updated in place. */
    const state: State
    /** The next byte of the state that input is XORed into. */
    var position: nat
    /** `$ratebytes`: the bytes of a block. */
    const rate: nat
    /** `$sizebytes`: the bytes of the digest. */
    const size: nat
    /**
     * The permutation `state.keccakf()` applies to the bytes of the state.
     * It is Permute (see the constructor); the contracts below only use
     * that it satisfies IsKeccakF.
     */
    ghost const perm: Bytes -> Bytes
    /** How many times Keccak-f has run on this state. */
    ghost var permutations: nat
    /** Set by `fixed_result`, which takes the hasher by value: after it the hasher is gone. */
    ghost var finished: bool

    ghost predicate Valid()
      reads this, state
    {
      state.Valid() && ValidRate(rate) && size <= STATE_BYTES && position < rate && IsKeccakF(perm)
    }

    /** The hasher as a value of module Sponge. */
    function Current(): Sponge
      reads this, state, state.A
      requires Valid()
    {
      Sponge(Bytes(), position)
    }

    /** `Default::default`: the all-zero state and the cursor at 0. */
    constructor (rate: nat, size: nat)
      requires ValidRate(rate) && size <= STATE_BYTES
      ensures Valid() && fresh(state) && fresh(state.A)
      ensures this.rate == rate && this.size == size && perm == Permute
      ensures Current() == Initial()
      ensures permutations == 0 && !finished
    {
      this.rate := rate;
      this.size := size;
      state := new State();
      position := 0;
      perm := Permute;
      permutations := 0;
      finished := false;
      new;
      StateBytesOfZero();
      PermuteIsKeccakF(Permute);
    }

    /** The bytes of the state. */
    function Bytes(): Bytes
      reads state, state.A
      requires state.Valid()
    {
      StateBytes(state.Contents())
    }

    /** `state[i] ^= b`, seen through the byte view. */
    method XorAt(i: nat, b: Byte)
      requires state.Valid() && i < STATE_BYTES
      modifies state.A
      ensures state.Valid()
      ensures Bytes() == old(Bytes())[i := XorOctet(old(Bytes())[i], b)]
    {
      ghost var a := state.Contents();
      state.XorByte(i, b);
      XorByteEffect(a, i, b);
    }

    /** `state.keccakf()`, seen through the byte view. */
    method KeccakF()
      requires state.Valid() && IsKeccakF(perm)
      modifies state.A
      ensures state.Valid()
      ensures Bytes() == perm(old(Bytes()))
    {
      ghost var a := state.Contents();
      state.KeccakF();
      assert state.Contents() == KeccakF1600(a);
    }

    /**
     * One pass of the `process` loop: b XORed into the state at the cursor,
     * which advances and, on reaching the rate, runs Keccak-f and returns to 0.
     */
    method ProcessByte(b: Byte)
      requires Valid() && !finished
      modifies this, state.A
      ensures Valid() && !finished
      ensures Current() == AbsorbByte(old(Current()), b, rate, perm)
      ensures permutations == old(permutations) + if old(position) + 1 >= rate then 1 else 0
    {
      ghost var before := Current();
      XorAt(position, b);
      ghost var xored := Bytes();
      position := position + 1;
      if position >= rate {
        KeccakF();
        position := 0;
        permutations := permutations + 1;
        assert Current() == Sponge(perm(xored), 0);
      } else {
        assert Current() == Sponge(xored, position);
      }
    }

    /** `process(input)`: the bytes of input absorbed first to last. */
    method Process(input: seq<Byte>)
      requires Valid() && !finished
      modifies this, state.A
      ensures Valid() && !finished
      ensures Current() == Absorb(old(Current()), input, rate, perm)
      ensures position == (old(position) + |input|) % rate
      ensures permutations == old(permutations) + (old(position) + |input|) / rate
    {
      ghost var start := Current();
      for i := 0 to |input|
        invariant Valid() && !finished
        invariant Current() == Absorb(start, input[..i], rate, perm)
        invariant permutations == old(permutations) + Permutations(start, input[..i], rate, perm)
      {
        assert input[..i + 1][..i] == input[..i];
        ProcessByte(input[i]);
      }
      assert input[..|input|] == input;
      AbsorbDivMod(start, input, rate, perm);
    }

    /** The padding of `fixed_result` and the Keccak-f after it. */
    method PadAndPermute()
      requires Valid() && !finished
      modifies this, state.A
      ensures Valid() && position == old(position) && !finished
      ensures Bytes() == perm(Pad(old(Current()), rate))
      ensures permutations == old(permutations) + 1
    {
      XorAt(position, 0x06);
      XorAt(rate - 1, 0x80);
      KeccakF();
      permutations := permutations + 1;
    }

    /**
     * `fixed_result`: 0x06 XORed in at the cursor and 0x80 at byte rate - 1,
     * Keccak-f, and the first size bytes of the state copied out.
     */
    method FixedResult() returns (digest: array<Byte>)
      requires Valid() && !finished
      modifies this, state.A
      ensures fresh(digest) && finished
      ensures digest[..] == Finalize(old(Current()), rate, size, perm)
      ensures permutations == old(permutations) + 1
    {
      PadAndPermute();
      finished := true;
      digest := ReadOut();
    }

    /** The digest loop of `fixed_result`: the first size bytes of the state. */
    method ReadOut() returns (digest: array<Byte>)
      requires state.Valid() && size <= STATE_BYTES
      ensures fresh(digest)
      ensures digest[..] == Bytes()[..size]
    {
      digest := new Byte[size];
      for i := 0 to size
        invariant digest[..i] == Bytes()[..i]
      {
        digest[i] := state.ByteAt(i);
      }
    }
  }
}
