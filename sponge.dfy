/**
 * The sponge of the `impl_hash!` hasher in src/macros.rs, as values over the
 * 200-byte view of the state: the byte-at-a-time absorb loop of `process`,
 * and the padding and read-out of `fixed_result`.
 */
module Sponge {
  import opened Keccak

  /** What the hasher holds: the state, as bytes, and the next byte to XOR into. */
  datatype Sponge = Sponge(bytes: Bytes, position: nat)

  /** A rate in bytes that the state can hold. */
  predicate ValidRate(rate: nat)
  {
    0 < rate <= STATE_BYTES
  }

  /** `Default::default`: the all-zero state with the cursor at byte 0. */
  function Initial(): (sp: Sponge)
    ensures sp.position == 0
    ensures forall i :: 0 <= i < STATE_BYTES ==> sp.bytes[i] == 0
  {
    Sponge(seq(STATE_BYTES, _ => 0), 0)
  }

  // ---------------------------------------------------------------------
  // Arithmetic on the cursor
  // ---------------------------------------------------------------------

  /** k whole blocks of rate bytes: k * rate, counted up one block at a time. */
  function Blocks(k: nat, rate: nat): nat
  {
    if k == 0 then 0 else Blocks(k - 1, rate) + rate
  }

  /**
   * n % d, counted by taking off one block of d at a time; kept apart from
   * Dafny's `%` so that proofs about the sponge stay linear.
   */
  function Rem(n: nat, d: nat): (r: nat)
    requires 0 < d
    ensures r < d
    decreases n
  {
    if n < d then n else Rem(n - d, d)
  }

  /** k blocks of d bytes plus r < d bytes leave remainder r. */
  lemma {:induction false} RemOfBlocks(k: nat, d: nat, r: nat)
    requires 0 < d && r < d
    ensures Rem(Blocks(k, d) + r, d) == r
  {
    if k > 0 {
      RemOfBlocks(k - 1, d, r);
    }
  }

  /** Every n is some number of blocks of d plus Rem(n, d). */
  lemma {:induction false} RemSplit(n: nat, d: nat) returns (q: nat)
    requires 0 < d
    ensures n == Blocks(q, d) + Rem(n, d)
    decreases n
  {
    if n < d {
      q := 0;
    } else {
      var q0 := RemSplit(n - d, d);
      q := q0 + 1;
    }
  }

  /** Blocks is multiplication. */
  lemma {:induction false} BlocksAreProduct(k: nat, rate: nat)
    ensures Blocks(k, rate) == k * rate
  {
    if k > 0 {
      BlocksAreProduct(k - 1, rate);
      assert k * rate == (k - 1) * rate + rate;
    }
  }

  /** Quotient and remainder are the only ones: n = q * d + r with 0 <= r < d fixes both. */
  lemma {:induction false} DivModUnique(n: int, d: int, q: int, r: int)
    requires 0 < d && 0 <= r < d && n == q * d + r
    ensures n / d == q && n % d == r
  {
    var q0, r0 := n / d, n % d;
    assert n == q0 * d + r0;
    assert (q0 - q) * d == q0 * d - q * d;
    if q0 > q {
      MulAtLeast(q0 - q, d);
    } else if q0 < q {
      MulAtLeast(q - q0, d);
    }
  }

  lemma {:induction false} MulAtLeast(k: int, d: int)
    requires k >= 1 && d > 0
    ensures k * d >= d
  {
  }

  // ---------------------------------------------------------------------
  // process
  // ---------------------------------------------------------------------

  /**
   * One pass of the `process` loop: XOR b into byte `position`, advance the
   * cursor, and when it reaches `rate` run Keccak-f and return it to 0.
   */
  function AbsorbByte(sp: Sponge, b: Byte, rate: nat, f: Bytes -> Bytes): (r: Sponge)
    requires ValidRate(rate) && sp.position < rate
    ensures r.position < rate
    ensures r.position == 0 <==> sp.position + 1 == rate
    ensures r.position != 0 ==> r.position == sp.position + 1
  {
    var bytes := sp.bytes[sp.position := XorOctet(sp.bytes[sp.position], b)];
    if sp.position + 1 >= rate then Sponge(f(bytes), 0) else Sponge(bytes, sp.position + 1)
  }

  /** `process(input)`: the bytes of input absorbed one after another, first to last. */
  function Absorb(sp: Sponge, input: seq<Byte>, rate: nat, f: Bytes -> Bytes): (r: Sponge)
    requires ValidRate(rate) && sp.position < rate
    ensures r.position < rate
    decreases |input|
  {
    if input == [] then sp
    else AbsorbByte(Absorb(sp, input[..|input| - 1], rate, f), input[|input| - 1], rate, f)
  }

  /** How many times `process(input)` runs Keccak-f. */
  function Permutations(sp: Sponge, input: seq<Byte>, rate: nat, f: Bytes -> Bytes): nat
    requires ValidRate(rate) && sp.position < rate
    decreases |input|
  {
    if input == [] then 0
    else
      var init := input[..|input| - 1];
      Permutations(sp, init, rate, f) + if Absorb(sp, init, rate, f).position + 1 >= rate then 1 else 0
  }

  /** After `process(input)` the cursor is (position + |input|) % rate. */
  lemma {:induction false} AbsorbCursor(sp: Sponge, input: seq<Byte>, rate: nat, f: Bytes -> Bytes)
    requires ValidRate(rate) && sp.position < rate
    ensures Absorb(sp, input, rate, f).position == Rem(sp.position + |input|, rate)
  {
    AbsorbCount(sp, input, rate, f);
    RemOfBlocks(Permutations(sp, input, rate, f), rate, Absorb(sp, input, rate, f).position);
  }

  /**
   * The bytes seen so far fill one block of rate bytes per run of Keccak-f,
   * plus the cursor: position + |input| = permutations * rate + new position
   * with the new position below rate, so Keccak-f ran (position + |input|) / rate times.
   */
  lemma {:induction false} AbsorbCount(sp: Sponge, input: seq<Byte>, rate: nat, f: Bytes -> Bytes)
    requires ValidRate(rate) && sp.position < rate
    ensures sp.position + |input| == Blocks(Permutations(sp, input, rate, f), rate) + Absorb(sp, input, rate, f).position
    decreases |input|
  {
    if input != [] {
      var init := input[..|input| - 1];
      AbsorbCount(sp, init, rate, f);
      var mid := Absorb(sp, init, rate, f);
      assert Absorb(sp, input, rate, f) == AbsorbByte(mid, input[|input| - 1], rate, f);
    }
  }

  /** n = k blocks of d plus r < d: k is n / d and r is n % d. */
  lemma {:induction false} BlocksDivMod(n: nat, k: nat, r: nat, d: nat)
    requires 0 < d && r < d && n == Blocks(k, d) + r
    ensures n / d == k && n % d == r
  {
    BlocksAreProduct(k, d);
    DivModUnique(n, d, k, r);
  }

  /**
   * `process(input)` leaves the cursor at (position + |input|) % rate after
   * running Keccak-f (position + |input|) / rate times.
   */
  lemma {:induction false} AbsorbDivMod(sp: Sponge, input: seq<Byte>, rate: nat, f: Bytes -> Bytes)
    requires ValidRate(rate) && sp.position < rate
    ensures Absorb(sp, input, rate, f).position == (sp.position + |input|) % rate
    ensures Permutations(sp, input, rate, f) == (sp.position + |input|) / rate
  {
    var n, k, r := sp.position + |input|, Permutations(sp, input, rate, f), Absorb(sp, input, rate, f).position;
    AbsorbCount(sp, input, rate, f);
    assert n == Blocks(k, rate) + r;
    BlocksDivMod(n, k, r, rate);
  }

  /** Chunk invariance: `process(a); process(b)` has the effect of `process(a + b)`. */
  lemma {:induction false} AbsorbAppend(sp: Sponge, a: seq<Byte>, b: seq<Byte>, rate: nat, f: Bytes -> Bytes)
    requires ValidRate(rate) && sp.position < rate
    ensures Absorb(Absorb(sp, a, rate, f), b, rate, f) == Absorb(sp, a + b, rate, f)
    decreases |b|
  {
    if b == [] {
      assert a + b == a;
    } else {
      var init := b[..|b| - 1];
      AbsorbAppend(sp, a, init, rate, f);
      assert (a + b)[..|a + b| - 1] == a + init;
    }
  }

  // ---------------------------------------------------------------------
  // Absorbing within one block
  // ---------------------------------------------------------------------

  /** The bytes bs XORed into s from byte `start` on; every other byte kept. */
  function XorBytes(s: Bytes, start: nat, bs: seq<Byte>): Bytes
    requires start + |bs| <= STATE_BYTES
  {
    seq(STATE_BYTES, j requires 0 <= j < STATE_BYTES =>
      if start <= j < start + |bs| then XorOctet(s[j], bs[j - start]) else s[j])
  }

  /** Until the cursor reaches the rate, `process` only XORs the input into bytes position .. position + |input| - 1. */
  lemma {:induction false} AbsorbWithinBlock(sp: Sponge, input: seq<Byte>, rate: nat, f: Bytes -> Bytes)
    requires ValidRate(rate) && sp.position + |input| < rate
    ensures Absorb(sp, input, rate, f) == Sponge(XorBytes(sp.bytes, sp.position, input), sp.position + |input|)
    decreases |input|
  {
    if input != [] {
      var n := |input| - 1;
      var init := input[..n];
      AbsorbWithinBlock(sp, init, rate, f);
      var t := XorBytes(sp.bytes, sp.position, init);
      assert Absorb(sp, input, rate, f) == AbsorbByte(Sponge(t, sp.position + n), input[n], rate, f);
      XorBytesSnoc(sp.bytes, sp.position, input);
    }
  }

  /** XORing one more byte after the others. */
  lemma {:induction false} XorBytesSnoc(s: Bytes, start: nat, bs: seq<Byte>)
    requires start + |bs| <= STATE_BYTES && bs != []
    ensures var n := |bs| - 1; var t := XorBytes(s, start, bs[..n]);
      XorBytes(s, start, bs) == t[start + n := XorOctet(t[start + n], bs[n])]
  {
  }

  /** Outside Keccak-f, `process` leaves the capacity bytes rate .. 199 alone. */
  lemma {:induction false} AbsorbKeepsCapacity(sp: Sponge, input: seq<Byte>, rate: nat, f: Bytes -> Bytes)
    requires ValidRate(rate) && sp.position + |input| < rate
    ensures Absorb(sp, input, rate, f).bytes[rate..] == sp.bytes[rate..]
  {
    AbsorbWithinBlock(sp, input, rate, f);
  }

  /** Filling the block up to the rate XORs the bytes in, runs Keccak-f once and returns the cursor to 0. */
  lemma {:induction false} AbsorbFullBlock(sp: Sponge, input: seq<Byte>, rate: nat, f: Bytes -> Bytes)
    requires ValidRate(rate) && sp.position < rate && sp.position + |input| == rate
    ensures Absorb(sp, input, rate, f) == Sponge(f(XorBytes(sp.bytes, sp.position, input)), 0)
  {
    var n := |input| - 1;
    var init := input[..n];
    AbsorbWithinBlock(sp, init, rate, f);
    XorBytesSnoc(sp.bytes, sp.position, input);
    var mid := Absorb(sp, init, rate, f);
    var filled := XorBytes(sp.bytes, sp.position, input);
    var t := XorBytes(sp.bytes, sp.position, init);
    assert mid.bytes == t && mid.position == sp.position + n;
    assert filled == t[sp.position + n := XorOctet(t[sp.position + n], input[n])];
    assert mid.position + 1 == rate;
    assert AbsorbByte(mid, input[n], rate, f) == Sponge(f(filled), 0);
    assert Absorb(sp, input, rate, f) == AbsorbByte(mid, input[n], rate, f);
  }

  // ---------------------------------------------------------------------
  // fixed_result
  // ---------------------------------------------------------------------

  /** The two padding marks of `fixed_result`: 0x06 into byte `position`, then 0x80 into byte rate - 1. */
  function Pad(sp: Sponge, rate: nat): Bytes
    requires ValidRate(rate) && sp.position < rate
  {
    var s := sp.bytes[sp.position := XorOctet(sp.bytes[sp.position], 0x06)];
    s[rate - 1 := XorOctet(s[rate - 1], 0x80)]
  }

  /**
   * Padding changes byte `position` and byte rate - 1 and no other; when they
   * are the same byte it receives 0x86, so the two marks never cancel.
   */
  lemma {:induction false} PadEffect(sp: Sponge, rate: nat)
    requires ValidRate(rate) && sp.position < rate
    ensures var s, p := sp.bytes, sp.position;
      Pad(sp, rate) ==
        if p == rate - 1 then s[p := XorOctet(s[p], 0x86)]
        else s[p := XorOctet(s[p], 0x06)][rate - 1 := XorOctet(s[rate - 1], 0x80)]
    ensures Pad(sp, rate)[sp.position] != sp.bytes[sp.position]
    ensures Pad(sp, rate)[rate - 1] != sp.bytes[rate - 1]
  {
    var s, p := sp.bytes, sp.position;
    if p == rate - 1 {
      assert XorOctet(XorOctet(s[p], 0x06), 0x80) == XorOctet(s[p], 0x86);
    }
  }

  /** The first size bytes of the state after padding and one more Keccak-f. */
  function Finalize(sp: Sponge, rate: nat, size: nat, f: Bytes -> Bytes): (digest: seq<Byte>)
    requires ValidRate(rate) && sp.position < rate && size <= STATE_BYTES
    ensures |digest| == size
  {
    f(Pad(sp, rate))[..size]
  }

  /** A fresh hasher fed input and then finalized. */
  function Hash(input: seq<Byte>, rate: nat, size: nat, f: Bytes -> Bytes): (digest: seq<Byte>)
    requires ValidRate(rate) && size <= STATE_BYTES
    ensures |digest| == size
  {
    Finalize(Absorb(Initial(), input, rate, f), rate, size, f)
  }

  /** The digest does not depend on how the input was split over calls to `process`. */
  lemma {:induction false} HashChunked(a: seq<Byte>, b: seq<Byte>, rate: nat, size: nat, f: Bytes -> Bytes)
    requires ValidRate(rate) && size <= STATE_BYTES
    ensures Finalize(Absorb(Absorb(Initial(), a, rate, f), b, rate, f), rate, size, f) == Hash(a + b, rate, size, f)
  {
    AbsorbAppend(Initial(), a, b, rate, f);
  }
}
