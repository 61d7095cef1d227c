/**
 * The Keccak-f[1600] permutation of src/reference.rs as pure functions.
 *
 * The source keeps the state as `[[u64; 5]; 5]` indexed `A[y][x]`; here it is
 * a sequence of five rows of five lanes, indexed the same way.  Each step is
 * given twice where the source hand-unrolls it: once exactly as written (the
 * explicit arrays C, D and B) and once as the closed-form rule of FIPS 202
 * section 3.2, with a lemma that the two agree.  Both rules read the ρ
 * offsets and ι constants from the two tables the source writes out; module
 * KeccakConstants derives those tables from FIPS 202 Algorithms 2, 5 and 6.
 * The byte view that the sponge uses (FIPS 202 section 3.1.2 and Appendix
 * B.1) closes the module.
 */
module Keccak {

  type Lane = bv64
  type Byte = bv8

  /** One row A[y] of the state: five lanes, x = 0 .. 4. */
  type Row = r: seq<Lane> | |r| == 5 witness [0, 0, 0, 0, 0]

  const ZERO_ROW: Row := [0, 0, 0, 0, 0]

  /** The state array: five rows, y = 0 .. 4. */
  type Matrix = m: seq<Row> | |m| == 5 witness [ZERO_ROW, ZERO_ROW, ZERO_ROW, ZERO_ROW, ZERO_ROW]

  /** The all-zero state. */
  const ZERO: Matrix := [ZERO_ROW, ZERO_ROW, ZERO_ROW, ZERO_ROW, ZERO_ROW]

  /** ρ offsets, indexed [y][x] like the state (FIPS 202 Table 2; see KeccakConstants.RotationConstantsAreRhoWalk). */
  const ROTATION_CONSTANTS: seq<seq<nat>> := [
    [ 0,  1, 62, 28, 27],
    [36, 44,  6, 55, 20],
    [ 3, 10, 43, 25, 39],
    [41, 45, 15, 21,  8],
    [18,  2, 61, 56, 14]
  ]

  /** ι constants, one per round, in the order the rounds use them (see KeccakConstants.RoundConstantsAreLfsr). */
  const ROUND_CONSTANTS: seq<Lane> := [
    0x0000000000000001,
    0x0000000000008082,
    0x800000000000808A,
    0x8000000080008000,
    0x000000000000808B,
    0x0000000080000001,
    0x8000000080008081,
    0x8000000000008009,
    0x000000000000008A,
    0x0000000000000088,
    0x0000000080008009,
    0x000000008000000A,
    0x000000008000808B,
    0x800000000000008B,
    0x8000000000008089,
    0x8000000000008003,
    0x8000000000008002,
    0x8000000000000080,
    0x000000000000800A,
    0x800000008000000A,
    0x8000000080008081,
    0x8000000000008080,
    0x0000000080000001,
    0x8000000080008008
  ]

  const ROUNDS: nat := 24

  /** The ρ offset of lane A[y][x]; every entry is a legal 64-bit rotation. */
  function Rot(x: nat, y: nat): (r: nat)
    requires x < 5 && y < 5
    ensures r < 64
  {
    ROTATION_CONSTANTS[y][x]
  }

  /** x + 1 modulo 5, on a coordinate. */
  function Next(x: nat): (r: nat)
    requires x < 5
    ensures r < 5
  {
    if x == 4 then 0 else x + 1
  }

  /** x - 1 modulo 5, on a coordinate. */
  function Prev(x: nat): (r: nat)
    requires x < 5
    ensures r < 5
  {
    if x == 0 then 4 else x - 1
  }

  lemma {:induction false} NeighboursAreModular(x: nat)
    requires x < 5
    ensures Next(x) == (x + 1) % 5 && Next(Next(x)) == (x + 2) % 5 && Prev(x) == (x + 4) % 5
  {
  }

  // ---------------------------------------------------------------------
  // Operations on single lanes
  // ---------------------------------------------------------------------

  /** p ^ q, as a named step so that proofs can treat it as a unit. */
  function XorLane(p: Lane, q: Lane): Lane
  {
    p ^ q
  }

  /** The same for one byte. */
  function XorOctet(p: Byte, q: Byte): Byte
  {
    p ^ q
  }

  function Xor5(p: Lane, q: Lane, r: Lane, s: Lane, t: Lane): Lane
  {
    p ^ q ^ r ^ s ^ t
  }

  /** An entry of D from the parities of the columns to its left and right. */
  function Mix(left: Lane, right: Lane): Lane
  {
    left ^ right.RotateLeft(1)
  }

  /** One lane of χ from the lane and its two right-hand neighbours. */
  function ChiLane(b0: Lane, b1: Lane, b2: Lane): Lane
  {
    XorLane(b0, !b1 & b2)
  }

  /** A row XORed lane by lane with d, as the θ loop writes the new row. */
  function XorRow(r: Row, d: Row): Row
  {
    [XorLane(r[0], d[0]), XorLane(r[1], d[1]), XorLane(r[2], d[2]), XorLane(r[3], d[3]), XorLane(r[4], d[4])]
  }

  // ---------------------------------------------------------------------
  // θ
  // ---------------------------------------------------------------------

  /** The array C as the source writes it: one XOR of five lanes per column. */
  function ColumnParities(a: Matrix): Row
  {
    [ Xor5(a[0][0], a[1][0], a[2][0], a[3][0], a[4][0]),
      Xor5(a[0][1], a[1][1], a[2][1], a[3][1], a[4][1]),
      Xor5(a[0][2], a[1][2], a[2][2], a[3][2], a[4][2]),
      Xor5(a[0][3], a[1][3], a[2][3], a[3][3], a[4][3]),
      Xor5(a[0][4], a[1][4], a[2][4], a[3][4], a[4][4]) ]
  }

  /** The array D as the source writes it, from C. */
  function ThetaEffects(c: Row): Row
  {
    [ Mix(c[4], c[1]),
      Mix(c[0], c[2]),
      Mix(c[1], c[3]),
      Mix(c[2], c[4]),
      Mix(c[3], c[0]) ]
  }

  /** C[x]: the XOR of column x over all five rows (FIPS 202 Algorithm 1, step 1). */
  function Parity(a: Matrix, x: nat): Lane
    requires x < 5
  {
    Xor5(a[0][x], a[1][x], a[2][x], a[3][x], a[4][x])
  }

  /** D[x] = C[(x + 4) % 5] ^ rotl(C[(x + 1) % 5], 1) (FIPS 202 Algorithm 1, step 2). */
  function Effect(a: Matrix, x: nat): Lane
    requires x < 5
  {
    Mix(Parity(a, Prev(x)), Parity(a, Next(x)))
  }

  function Parities(a: Matrix): Row
  {
    seq(5, x requires 0 <= x < 5 => Parity(a, x))
  }

  function Effects(a: Matrix): Row
  {
    seq(5, x requires 0 <= x < 5 => Effect(a, x))
  }

  /** θ: every lane A[y][x] is XORed with D[x] (FIPS 202 section 3.2.1). */
  function Theta(a: Matrix): Matrix
  {
    seq(5, y requires 0 <= y < 5 => XorRow(a[y], Effects(a)))
  }

  /** The hand-unrolled array C computes the column parities. */
  lemma {:induction false} ColumnParitiesFollowRule(a: Matrix)
    ensures ColumnParities(a) == Parities(a)
  {
    assert ColumnParities(a) == [Parity(a, 0), Parity(a, 1), Parity(a, 2), Parity(a, 3), Parity(a, 4)];
  }

  /** The hand-unrolled array D, fed with C, computes D[x] for every column x. */
  lemma {:induction false} ThetaEffectsFollowRule(a: Matrix)
    ensures ThetaEffects(ColumnParities(a)) == Effects(a)
  {
    ColumnParitiesFollowRule(a);
    var c := Parities(a);
    assert ThetaEffects(c) == [Effect(a, 0), Effect(a, 1), Effect(a, 2), Effect(a, 3), Effect(a, 4)];
  }

  /**
   * θ lane by lane, with the indices of FIPS 202 Algorithm 1: A[y][x] is XORed
   * with D[x] = Mix(C[(x + 4) % 5], C[(x + 1) % 5]) = C[(x + 4) % 5] ^ rotl(C[(x + 1) % 5], 1),
   * C[x] being the parity of column x.
   */
  lemma {:induction false} ThetaRule(a: Matrix, x: nat, y: nat)
    requires x < 5 && y < 5
    ensures Theta(a)[y][x] == XorLane(a[y][x], Mix(Parity(a, (x + 4) % 5), Parity(a, (x + 1) % 5)))
  {
    NeighboursAreModular(x);
    assert x == 0 || x == 1 || x == 2 || x == 3 || x == 4;
  }

  // ---------------------------------------------------------------------
  // ρ and π, fused
  // ---------------------------------------------------------------------

  /** The closure B_ij of the source: lane A[y][x] rotated by its ρ offset. */
  function Bij(a: Matrix, x: nat, y: nat): Lane
    requires x < 5 && y < 5
  {
    a[y][x].RotateLeft(Rot(x, y))
  }

  /** The arguments (x, y) of the 25 calls B_ij(x, y) that fill B, row by row, as written. */
  const RHO_PI_SOURCES: seq<seq<(nat, nat)>> := [
    [(0, 0), (1, 1), (2, 2), (3, 3), (4, 4)],
    [(3, 0), (4, 1), (0, 2), (1, 3), (2, 4)],
    [(1, 0), (2, 1), (3, 2), (4, 3), (0, 4)],
    [(4, 0), (0, 1), (1, 2), (2, 3), (3, 4)],
    [(2, 0), (3, 1), (4, 2), (0, 3), (1, 4)]
  ]

  /** The matrix B of the source: slot B[i][j] holds B_ij(RHO_PI_SOURCES[i][j]). */
  function RhoPi(a: Matrix): Matrix
  {
    seq(5, i requires 0 <= i < 5 =>
      seq(5, j requires 0 <= j < 5 => Bij(a, RHO_PI_SOURCES[i][j].0, RHO_PI_SOURCES[i][j].1)))
  }

  /** The row of B that lane A[y][x] moves to (FIPS 202 section 3.2.3); its column is y. */
  function PiRow(x: nat, y: nat): (i: nat)
    requires x < 5 && y < 5
    ensures i < 5
  {
    (2 * x + 3 * y) % 5
  }

  /** The column of A that feeds slot B[i][j]: the inverse of PiRow for column y = j. */
  function PiColumn(i: nat, j: nat): (x: nat)
    requires i < 5 && j < 5
    ensures x < 5
  {
    (3 * i + j) % 5
  }

  /** n % 5 is the r of any n = 5q + r with 0 <= r < 5. */
  lemma {:induction false} ModFiveOf(n: int, q: int, r: int)
    requires n == 5 * q + r && 0 <= r < 5
    ensures n % 5 == r
  {
  }

  /** PiColumn undoes PiRow: no two lanes of A land on the same slot of B. */
  lemma {:induction false} PiIsInjective()
    ensures forall x, y :: 0 <= x < 5 && 0 <= y < 5 ==> PiColumn(PiRow(x, y), y) == x
  {
    forall x, y | 0 <= x < 5 && 0 <= y < 5
      ensures PiColumn(PiRow(x, y), y) == x
    {
      PiColumnOfRow(x, y);
    }
  }

  lemma {:induction false} PiColumnOfRow(x: nat, y: nat)
    requires x < 5 && y < 5
    ensures PiColumn(PiRow(x, y), y) == x
  {
    var i := PiRow(x, y);
    var q := (2 * x + 3 * y) / 5;
    assert 2 * x + 3 * y == 5 * q + i;
    ModFiveOf(3 * i + y, x + 2 * y - 3 * q, x);
  }

  /** PiRow undoes PiColumn: every slot of B receives some lane of A. */
  lemma {:induction false} PiIsSurjective()
    ensures forall i, j :: 0 <= i < 5 && 0 <= j < 5 ==> PiRow(PiColumn(i, j), j) == i
  {
    forall i, j | 0 <= i < 5 && 0 <= j < 5
      ensures PiRow(PiColumn(i, j), j) == i
    {
      PiRowOfColumn(i, j);
    }
  }

  lemma {:induction false} PiRowOfColumn(i: nat, j: nat)
    requires i < 5 && j < 5
    ensures PiRow(PiColumn(i, j), j) == i
  {
    var x := PiColumn(i, j);
    var q := (3 * i + j) / 5;
    assert 3 * i + j == 5 * q + x;
    ModFiveOf(2 * x + 3 * j, i + j - 2 * q, i);
  }

  /** Each hand-written slot B[i][j] calls B_ij on the lane that π sends there. */
  lemma {:induction false} RhoPiSourcesFollowRule()
    ensures forall i, j :: 0 <= i < 5 && 0 <= j < 5 ==> RHO_PI_SOURCES[i][j] == (PiColumn(i, j), j)
  {
    forall i, j | 0 <= i < 5 && 0 <= j < 5
      ensures RHO_PI_SOURCES[i][j] == (PiColumn(i, j), j)
    {
      assert i == 0 || i == 1 || i == 2 || i == 3 || i == 4;
      assert j == 0 || j == 1 || j == 2 || j == 3 || j == 4;
    }
  }

  /** B[(2x + 3y) % 5][y] = rotl(A[y][x], ROTATION_CONSTANTS[y][x]) for every lane. */
  lemma {:induction false} RhoPiRule(a: Matrix)
    ensures forall x, y :: 0 <= x < 5 && 0 <= y < 5 ==> RhoPi(a)[PiRow(x, y)][y] == Bij(a, x, y)
  {
    RhoPiSourcesFollowRule();
    PiIsInjective();
  }

  // ---------------------------------------------------------------------
  // χ and ι
  // ---------------------------------------------------------------------

  /** χ on one row, the five lanes as the source writes them. */
  function ChiRow(b: Row): Row
  {
    [ ChiLane(b[0], b[1], b[2]),
      ChiLane(b[1], b[2], b[3]),
      ChiLane(b[2], b[3], b[4]),
      ChiLane(b[3], b[4], b[0]),
      ChiLane(b[4], b[0], b[1]) ]
  }

  /** χ (FIPS 202 section 3.2.4): each row is transformed on its own. */
  function Chi(b: Matrix): Matrix
  {
    seq(5, y requires 0 <= y < 5 => ChiRow(b[y]))
  }

  /** ι (FIPS 202 section 3.2.5): XOR the round constant into lane A[0][0]. */
  function Iota(a: Matrix, rc: Lane): Matrix
  {
    a[0 := a[0][0 := XorLane(a[0][0], rc)]]
  }

  /** χ lane by lane: B[y][x] ^ (!B[y][(x + 1) % 5] & B[y][(x + 2) % 5]). */
  lemma {:induction false} ChiRule(b: Matrix, x: nat, y: nat)
    requires x < 5 && y < 5
    ensures Chi(b)[y][x] == ChiLane(b[y][x], b[y][(x + 1) % 5], b[y][(x + 2) % 5])
  {
    ChiRowRule(b[y], x);
  }

  lemma {:induction false} ChiRowRule(r: Row, x: nat)
    requires x < 5
    ensures ChiRow(r)[x] == ChiLane(r[x], r[(x + 1) % 5], r[(x + 2) % 5])
  {
    if x == 0 {
      assert (x + 1) % 5 == 1 && (x + 2) % 5 == 2;
    } else if x == 1 {
      assert (x + 1) % 5 == 2 && (x + 2) % 5 == 3;
    } else if x == 2 {
      assert (x + 1) % 5 == 3 && (x + 2) % 5 == 4;
    } else if x == 3 {
      assert (x + 1) % 5 == 4 && (x + 2) % 5 == 0;
    } else {
      assert (x + 1) % 5 == 0 && (x + 2) % 5 == 1;
    }
  }

  /** χ mixes only within a row: row y of the result depends on row y of B alone. */
  lemma {:induction false} ChiIsRowLocal(b: Matrix, b': Matrix, y: nat)
    requires y < 5 && b[y] == b'[y]
    ensures Chi(b)[y] == Chi(b')[y]
  {
  }

  /** ι changes lane A[0][0], by rc, and keeps the other 24 lanes. */
  lemma {:induction false} IotaRule(a: Matrix, rc: Lane, x: nat, y: nat)
    requires x < 5 && y < 5
    ensures Iota(a, rc)[y][x] == if x == 0 && y == 0 then XorLane(a[0][0], rc) else a[y][x]
  {
  }

  /** One round, Rnd(A, rc) = ι(χ(π(ρ(θ(A)))), rc), a function of its inputs alone. */
  function Rnd(a: Matrix, rc: Lane): Matrix
  {
    Iota(Chi(RhoPi(Theta(a))), rc)
  }

  /** The first n rounds driven by the constants rcs, round i using rcs[i]. */
  function RoundsWith(a: Matrix, rcs: seq<Lane>, n: nat): Matrix
    requires n <= |rcs|
  {
    if n == 0 then a else Rnd(RoundsWith(a, rcs, n - 1), rcs[n - 1])
  }

  /** The first n rounds of Keccak-f, round i using ROUND_CONSTANTS[i] (FIPS 202 Algorithm 7). */
  function Rounds(a: Matrix, n: nat): Matrix
    requires n <= ROUNDS
  {
    RoundsWith(a, ROUND_CONSTANTS, n)
  }

  /** Keccak-f[1600]: all 24 rounds. */
  function KeccakF1600(a: Matrix): Matrix
  {
    Rounds(a, ROUNDS)
  }

  /** The rounds of `for rc in ROUND_CONSTANTS { round(rc) }`: rcs applied first to last. */
  function ApplyRounds(a: Matrix, rcs: seq<Lane>): Matrix
    decreases |rcs|
  {
    if rcs == [] then a else ApplyRounds(Rnd(a, rcs[0]), rcs[1..])
  }

  /** After the first n rounds, applying rcs[n..] in order gives all |rcs| rounds. */
  lemma {:induction false} ApplyRemainingRounds(a: Matrix, rcs: seq<Lane>, n: nat)
    requires n <= |rcs|
    ensures ApplyRounds(RoundsWith(a, rcs, n), rcs[n..]) == RoundsWith(a, rcs, |rcs|)
    decreases |rcs| - n
  {
    if n == |rcs| {
      assert rcs[n..] == [];
    } else {
      var r := RoundsWith(a, rcs, n);
      var r' := Rnd(r, rcs[n]);
      assert rcs[n..][0] == rcs[n] && rcs[n..][1..] == rcs[n + 1..];
      assert ApplyRounds(r, rcs[n..]) == ApplyRounds(r', rcs[n + 1..]);
      assert RoundsWith(a, rcs, n + 1) == r';
      ApplyRemainingRounds(a, rcs, n + 1);
    }
  }

  /** Keccak-f runs exactly the 24 rounds of the table, in table order. */
  lemma {:induction false} KeccakF1600UsesTableInOrder(a: Matrix)
    ensures KeccakF1600(a) == ApplyRounds(a, ROUND_CONSTANTS)
  {
    ApplyRemainingRounds(a, ROUND_CONSTANTS, 0);
  }

  lemma {:induction false} ThetaOfZero()
    ensures Theta(ZERO) == ZERO
  {
    assert Parity(ZERO, 0) == 0;
    assert Effects(ZERO) == ZERO_ROW by {
      assert Mix(0, 0) == 0;
    }
    assert XorRow(ZERO_ROW, ZERO_ROW) == ZERO_ROW by {
      assert XorLane(0, 0) == 0;
    }
  }

  lemma {:induction false} RhoPiOfZero()
    ensures RhoPi(ZERO) == ZERO
  {
    forall i | 0 <= i < 5
      ensures RhoPi(ZERO)[i] == ZERO_ROW
    {
      forall j | 0 <= j < 5
        ensures RhoPi(ZERO)[i][j] == 0
      {
        var src := RHO_PI_SOURCES[i][j];
        BijOfZero(src.0, src.1);
      }
    }
  }

  lemma {:induction false} BijOfZero(x: nat, y: nat)
    requires x < 5 && y < 5
    ensures Bij(ZERO, x, y) == 0
  {
    assert ZERO[y][x] == 0;
  }

  lemma {:induction false} ChiOfZero()
    ensures Chi(ZERO) == ZERO
  {
    assert ChiRow(ZERO_ROW) == ZERO_ROW;
  }

  /**
   * The first round on the all-zero state leaves every lane zero except
   * A[0][0], which becomes 1: θ, ρπ and χ map zero to zero.
   */
  lemma {:induction false} FirstRoundOfZero()
    ensures Rnd(ZERO, ROUND_CONSTANTS[0]) == ZERO[0 := ZERO_ROW[0 := 1]]
  {
    ThetaOfZero();
    RhoPiOfZero();
    ChiOfZero();
  }

  // ---------------------------------------------------------------------
  // The byte view: byte i is byte i % 8 (little-endian) of lane number i / 8,
  // lanes numbered row by row, so lane number l is A[l / 5][l % 5].
  // ---------------------------------------------------------------------

  const STATE_BYTES: nat := 200

  /** The eight bytes of a lane, least significant first. */
  function LaneBytes(l: Lane): (bs: seq<Byte>)
    ensures |bs| == 8
  {
    [ (l & 0xFF) as Byte,
      ((l >> 8) & 0xFF) as Byte,
      ((l >> 16) & 0xFF) as Byte,
      ((l >> 24) & 0xFF) as Byte,
      ((l >> 32) & 0xFF) as Byte,
      ((l >> 40) & 0xFF) as Byte,
      ((l >> 48) & 0xFF) as Byte,
      ((l >> 56) & 0xFF) as Byte ]
  }

  /** The lane whose little-endian bytes are bs. */
  function LaneOf(bs: seq<Byte>): Lane
    requires |bs| == 8
  {
    (bs[0] as Lane) | ((bs[1] as Lane) << 8) | ((bs[2] as Lane) << 16) | ((bs[3] as Lane) << 24) |
    ((bs[4] as Lane) << 32) | ((bs[5] as Lane) << 40) | ((bs[6] as Lane) << 48) | ((bs[7] as Lane) << 56)
  }

  /** Lane number l of the state, counting row by row. */
  function LaneAt(a: Matrix, l: nat): Lane
    requires l < 25
  {
    a[l / 5][l % 5]
  }

  /** Byte i of the state. */
  function ByteAt(a: Matrix, i: nat): Byte
    requires i < STATE_BYTES
  {
    LaneBytes(LaneAt(a, i / 8))[i % 8]
  }

  /** A state as a string of 200 bytes. */
  type Bytes = s: seq<Byte> | |s| == STATE_BYTES witness seq(STATE_BYTES, _ => 0 as Byte)

  /** The whole state as 200 bytes. */
  function StateBytes(a: Matrix): Bytes
  {
    seq(STATE_BYTES, i requires 0 <= i < STATE_BYTES => ByteAt(a, i))
  }

  /** The state whose bytes are s: lane number l is packed from bytes 8l .. 8l + 7. */
  function FromBytes(s: Bytes): Matrix
  {
    seq(5, y requires 0 <= y < 5 =>
      seq(5, x requires 0 <= x < 5 => LaneOf(s[8 * (5 * y + x) .. 8 * (5 * y + x) + 8])))
  }

  /** The eight bytes of lane number l in the byte view are the bytes of that lane. */
  lemma {:induction false} StateBytesOfLane(a: Matrix, l: nat)
    requires l < 25
    ensures StateBytes(a)[8 * l .. 8 * l + 8] == LaneBytes(LaneAt(a, l))
  {
    forall k | 0 <= k < 8
      ensures StateBytes(a)[8 * l + k] == LaneBytes(LaneAt(a, l))[k]
    {
      assert (8 * l + k) / 8 == l && (8 * l + k) % 8 == k;
    }
  }

  /** The all-zero state is 200 zero bytes. */
  lemma {:induction false} StateBytesOfZero()
    ensures StateBytes(ZERO) == seq(STATE_BYTES, _ => 0 as Byte)
  {
    assert LaneBytes(0) == [0, 0, 0, 0, 0, 0, 0, 0];
    forall i | 0 <= i < STATE_BYTES
      ensures StateBytes(ZERO)[i] == 0
    {
      assert LaneAt(ZERO, i / 8) == 0;
    }
  }

  /** Lane (x, y) survives reading the state as bytes and packing them again. */
  lemma {:induction false} LaneSurvivesRoundTrip(a: Matrix, x: nat, y: nat)
    requires x < 5 && y < 5
    ensures FromBytes(StateBytes(a))[y][x] == a[y][x]
  {
    var l := 5 * y + x;
    var s := StateBytes(a);
    assert FromBytes(s)[y][x] == LaneOf(s[8 * l .. 8 * l + 8]);
    assert l / 5 == y && l % 5 == x;
    StateBytesOfLane(a, l);
    LaneBytesRoundTrip(a[y][x]);
  }

  /** Reading a state as bytes and packing the bytes again gives the state back. */
  lemma {:induction false} StateBytesRoundTrip(a: Matrix)
    ensures FromBytes(StateBytes(a)) == a
  {
    forall y | 0 <= y < 5
      ensures FromBytes(StateBytes(a))[y] == a[y]
    {
      forall x | 0 <= x < 5
        ensures FromBytes(StateBytes(a))[y][x] == a[y][x]
      {
        LaneSurvivesRoundTrip(a, x, y);
      }
    }
  }

  /** Packing 200 bytes into a state and reading it as bytes gives the bytes back. */
  lemma {:induction false} FromBytesRoundTrip(s: Bytes)
    ensures StateBytes(FromBytes(s)) == s
  {
    forall i | 0 <= i < STATE_BYTES
      ensures StateBytes(FromBytes(s))[i] == s[i]
    {
      var l := i / 8;
      var bs := s[8 * l .. 8 * l + 8];
      assert LaneAt(FromBytes(s), l) == LaneOf(bs);
      LaneOfRoundTrip(bs);
    }
  }

  /** Keccak-f[1600] on the byte string (FIPS 202 sections 3.1.2 and 3.1.3 convert between the two). */
  function Permute(s: Bytes): Bytes
  {
    StateBytes(KeccakF1600(FromBytes(s)))
  }

  /** On the byte view of a state, Permute is Keccak-f of that state. */
  lemma {:induction false} PermuteStateBytes(a: Matrix)
    ensures Permute(StateBytes(a)) == StateBytes(KeccakF1600(a))
  {
    StateBytesRoundTrip(a);
  }

  /** The state with lane number l replaced by v. */
  function SetLane(a: Matrix, l: nat, v: Lane): Matrix
    requires l < 25
  {
    a[l / 5 := a[l / 5][l % 5 := v]]
  }

  /** `state[i] ^= b` on the byte view. */
  function XorByte(a: Matrix, i: nat, b: Byte): Matrix
    requires i < STATE_BYTES
  {
    var l, k := i / 8, i % 8;
    var bs := LaneBytes(LaneAt(a, l));
    SetLane(a, l, LaneOf(bs[k := XorOctet(bs[k], b)]))
  }

  /** Unpacking a lane into bytes and packing them again gives the lane back. */
  lemma {:induction false} LaneBytesRoundTrip(l: Lane)
    ensures LaneOf(LaneBytes(l)) == l
  {
  }

  /** Packing eight bytes into a lane and unpacking it gives the bytes back. */
  lemma {:induction false} LaneOfRoundTrip(bs: seq<Byte>)
    requires |bs| == 8
    ensures LaneBytes(LaneOf(bs)) == bs
  {
  }

  /** XorByte changes byte i by b and leaves every other byte alone. */
  lemma {:induction false} XorByteAt(a: Matrix, i: nat, b: Byte, j: nat)
    requires i < STATE_BYTES && j < STATE_BYTES
    ensures ByteAt(XorByte(a, i, b), j) == if j == i then XorOctet(ByteAt(a, i), b) else ByteAt(a, j)
  {
    var l := i / 8;
    var bs := LaneBytes(LaneAt(a, l));
    var bs' := bs[i % 8 := XorOctet(bs[i % 8], b)];
    var a' := XorByte(a, i, b);
    assert a' == SetLane(a, l, LaneOf(bs'));
    SetLaneAt(a, l, LaneOf(bs'), j / 8);
    if j / 8 == l {
      LaneOfRoundTrip(bs');
      SameLaneBytes(i, j);
      assert LaneBytes(LaneAt(a', j / 8)) == bs';
      assert ByteAt(a', j) == bs'[j % 8];
    } else {
      assert LaneAt(a', j / 8) == LaneAt(a, j / 8);
    }
  }

  /** Two byte positions in the same lane differ exactly when their offsets do. */
  lemma {:induction false} SameLaneBytes(i: nat, j: nat)
    requires i / 8 == j / 8
    ensures i == j <==> i % 8 == j % 8
  {
  }

  /** The byte-level meaning of XorByte: one byte of the 200 changes. */
  lemma {:induction false} XorByteEffect(a: Matrix, i: nat, b: Byte)
    requires i < STATE_BYTES
    ensures StateBytes(XorByte(a, i, b)) == StateBytes(a)[i := XorOctet(StateBytes(a)[i], b)]
  {
    forall j | 0 <= j < STATE_BYTES
      ensures StateBytes(XorByte(a, i, b))[j] == StateBytes(a)[i := XorOctet(StateBytes(a)[i], b)][j]
    {
      XorByteAt(a, i, b, j);
    }
  }

  /** Lane number m after SetLane(a, l, v). */
  lemma {:induction false} SetLaneAt(a: Matrix, l: nat, v: Lane, m: nat)
    requires l < 25 && m < 25
    ensures LaneAt(SetLane(a, l, v), m) == if m == l then v else LaneAt(a, m)
  {
  }
}
