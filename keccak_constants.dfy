/**
 * Where the two tables at the top of src/reference.rs come from.  The ρ
 * offsets are the walk of FIPS 202 Algorithm 2 (section 3.2.2), and the ι
 * constants are the output of the rc shift register of Algorithms 5 and 6
 * (section 3.2.5).  Both are defined here from those algorithms and proved
 * equal to the tables that Keccak uses.
 */
module KeccakConstants {
  import opened Keccak

  // ---------------------------------------------------------------------
  // ρ offsets (FIPS 202 section 3.2.2, Algorithm 2)
  // ---------------------------------------------------------------------

  /**
   * The lane (x, y) that step t of the ρ walk visits: (1, 0) first, then
   * (x, y) moves to (y, (2x + 3y) mod 5).
   */
  function RhoWalk(t: nat): (p: (nat, nat))
    ensures p.0 < 5 && p.1 < 5
  {
    if t == 0 then (1, 0)
    else
      var q := RhoWalk(t - 1);
      (q.1, (2 * q.0 + 3 * q.1) % 5)
  }

  /** The offset Algorithm 2 gives the lane of step t: (t + 1)(t + 2)/2 mod 64. */
  function RhoOffset(t: nat): nat
  {
    ((t + 1) * (t + 2) / 2) % 64
  }

  /** The 24 lanes of the walk, each from the one before it. */
  lemma {:induction false} RhoWalkLanes()
    ensures RhoWalk(0) == (1, 0) && RhoWalk(1) == (0, 2) && RhoWalk(2) == (2, 1) && RhoWalk(3) == (1, 2)
    ensures RhoWalk(4) == (2, 3) && RhoWalk(5) == (3, 3) && RhoWalk(6) == (3, 0) && RhoWalk(7) == (0, 1)
    ensures RhoWalk(8) == (1, 3) && RhoWalk(9) == (3, 1) && RhoWalk(10) == (1, 4) && RhoWalk(11) == (4, 4)
    ensures RhoWalk(12) == (4, 0) && RhoWalk(13) == (0, 3) && RhoWalk(14) == (3, 4) && RhoWalk(15) == (4, 3)
    ensures RhoWalk(16) == (3, 2) && RhoWalk(17) == (2, 2) && RhoWalk(18) == (2, 0) && RhoWalk(19) == (0, 4)
    ensures RhoWalk(20) == (4, 2) && RhoWalk(21) == (2, 4) && RhoWalk(22) == (4, 1) && RhoWalk(23) == (1, 1)
  {
  }

  /** The lane of step t of the walk is rotated by the offset Algorithm 2 gives step t. */
  lemma {:induction false} RhoOffsetAlongWalk(t: nat)
    requires t < 24
    ensures Rot(RhoWalk(t).0, RhoWalk(t).1) == RhoOffset(t)
  {
    RhoWalkLanes();
    if t == 0 {} else if t == 1 {} else if t == 2 {} else if t == 3 {}
    else if t == 4 {} else if t == 5 {} else if t == 6 {} else if t == 7 {}
    else if t == 8 {} else if t == 9 {} else if t == 10 {} else if t == 11 {}
    else if t == 12 {} else if t == 13 {} else if t == 14 {} else if t == 15 {}
    else if t == 16 {} else if t == 17 {} else if t == 18 {} else if t == 19 {}
    else if t == 20 {} else if t == 21 {} else if t == 22 {} else {}
  }

  /** Some step among the first 24 of the walk visits lane (x, y). */
  predicate Visited(x: nat, y: nat)
  {
    exists t: nat :: t < 24 && RhoWalk(t) == (x, y)
  }

  /** The walk reaches every lane other than A[0][0]. */
  lemma {:induction false} RhoWalkReaches(x: nat, y: nat)
    requires x < 5 && y < 5 && !(x == 0 && y == 0)
    ensures Visited(x, y)
  {
    RhoWalkLanes();
    if y == 0 {
      if x == 1 { assert RhoWalk(0) == (x, y); }
      else if x == 2 { assert RhoWalk(18) == (x, y); }
      else if x == 3 { assert RhoWalk(6) == (x, y); }
      else { assert RhoWalk(12) == (x, y); }
    } else if y == 1 {
      if x == 0 { assert RhoWalk(7) == (x, y); }
      else if x == 1 { assert RhoWalk(23) == (x, y); }
      else if x == 2 { assert RhoWalk(2) == (x, y); }
      else if x == 3 { assert RhoWalk(9) == (x, y); }
      else { assert RhoWalk(22) == (x, y); }
    } else if y == 2 {
      if x == 0 { assert RhoWalk(1) == (x, y); }
      else if x == 1 { assert RhoWalk(3) == (x, y); }
      else if x == 2 { assert RhoWalk(17) == (x, y); }
      else if x == 3 { assert RhoWalk(16) == (x, y); }
      else { assert RhoWalk(20) == (x, y); }
    } else if y == 3 {
      if x == 0 { assert RhoWalk(13) == (x, y); }
      else if x == 1 { assert RhoWalk(8) == (x, y); }
      else if x == 2 { assert RhoWalk(4) == (x, y); }
      else if x == 3 { assert RhoWalk(5) == (x, y); }
      else { assert RhoWalk(15) == (x, y); }
    } else {
      if x == 0 { assert RhoWalk(19) == (x, y); }
      else if x == 1 { assert RhoWalk(10) == (x, y); }
      else if x == 2 { assert RhoWalk(21) == (x, y); }
      else if x == 3 { assert RhoWalk(14) == (x, y); }
      else { assert RhoWalk(11) == (x, y); }
    }
  }

  /**
   * ROTATION_CONSTANTS is the table Algorithm 2 computes: lane A[0][0] is not
   * rotated, the lane of step t is rotated by (t + 1)(t + 2)/2 mod 64, and
   * the 24 steps reach every other lane.  FIPS 202 writes lane (x, y) as
   * A[x, y]; here it is A[y][x], so its offset is Rot(x, y).
   */
  lemma {:induction false} RotationConstantsAreRhoWalk()
    ensures Rot(0, 0) == 0
    ensures forall t: nat :: t < 24 ==> Rot(RhoWalk(t).0, RhoWalk(t).1) == RhoOffset(t)
    ensures forall x: nat, y: nat :: x < 5 && y < 5 && !(x == 0 && y == 0) ==> Visited(x, y)
  {
    assert ROTATION_CONSTANTS[0] == [0, 1, 62, 28, 27];
    forall t: nat | t < 24
      ensures Rot(RhoWalk(t).0, RhoWalk(t).1) == RhoOffset(t)
    {
      RhoOffsetAlongWalk(t);
    }
    forall x: nat, y: nat | x < 5 && y < 5 && !(x == 0 && y == 0)
      ensures Visited(x, y)
    {
      RhoWalkReaches(x, y);
    }
  }

  // ---------------------------------------------------------------------
  // ι constants (FIPS 202 section 3.2.5, Algorithms 5 and 6)
  // ---------------------------------------------------------------------

  /**
   * One step of the rc register of Algorithm 5, with bit i of the byte
   * holding R[i]: R = 0 || R moves R[i] to R[i + 1] and R[7] to R[8]; R[0],
   * R[4], R[5] and R[6] are then XORed with R[8] (the mask 0x71); R is cut
   * back to 8 bits.
   */
  function LfsrStep(r: bv8): bv8
  {
    if r & 0x80 == 0 then r << 1 else (r << 1) ^ 0x71
  }

  /** The register after t steps from R = 10000000, that is from R[0] = 1 alone. */
  function Lfsr(t: nat): bv8
  {
    if t == 0 then 1 else LfsrStep(Lfsr(t - 1))
  }

  /** rc(t) of Algorithm 5: R[0] after t mod 255 steps. */
  predicate Rc(t: nat)
  {
    Lfsr(t % 255) & 1 == 1
  }

  /** The lane whose bit 2^j - 1 is b_j for j = 0 .. 6 (bits 0, 1, 3, 7, 15, 31, 63) and whose other bits are 0. */
  function RcLane(b0: bool, b1: bool, b2: bool, b3: bool, b4: bool, b5: bool, b6: bool): Lane
  {
    (if b0 then 0x1 else 0) | (if b1 then 0x2 else 0) | (if b2 then 0x8 else 0) | (if b3 then 0x80 else 0)
      | (if b4 then 0x8000 else 0) | (if b5 then 0x8000_0000 else 0) | (if b6 then 0x8000_0000_0000_0000 else 0)
  }

  /** RC for round ir as Algorithm 6 builds it: bit 2^j - 1 is rc(j + 7 ir) for j = 0 .. 6. */
  function RoundConstant(ir: nat): Lane
  {
    RcLane(Rc(7 * ir), Rc(7 * ir + 1), Rc(7 * ir + 2), Rc(7 * ir + 3), Rc(7 * ir + 4), Rc(7 * ir + 5), Rc(7 * ir + 6))
  }

  /** The RC lane of a round whose register starts at r: R[0] of r and of the six registers after it. */
  function RoundBits(r: bv8): Lane
  {
    var r1 := LfsrStep(r);
    var r2 := LfsrStep(r1);
    var r3 := LfsrStep(r2);
    var r4 := LfsrStep(r3);
    var r5 := LfsrStep(r4);
    var r6 := LfsrStep(r5);
    RcLane(r & 1 == 1, r1 & 1 == 1, r2 & 1 == 1, r3 & 1 == 1, r4 & 1 == 1, r5 & 1 == 1, r6 & 1 == 1)
  }

  /** The register a round hands on to the next: seven steps on from r. */
  function NextRound(r: bv8): bv8
  {
    LfsrStep(LfsrStep(LfsrStep(LfsrStep(LfsrStep(LfsrStep(LfsrStep(r)))))))
  }

  /** Step t + 1 of the register is one step on from step t. */
  lemma {:induction false} LfsrNext(t: nat)
    ensures Lfsr(t + 1) == LfsrStep(Lfsr(t))
  {
  }

  /** Below 255 steps rc(t) reads the register at step t itself. */
  lemma {:induction false} RcBeforeWrap(t: nat)
    requires t < 255
    ensures Rc(t) == (Lfsr(t) & 1 == 1)
  {
  }

  /** Before rc wraps modulo 255, rc(t + k) is R[0] of the register k steps after step t. */
  lemma {:induction false} RcAhead(t: nat)
    requires t + 6 < 255
    ensures Rc(t) == (Lfsr(t) & 1 == 1)
    ensures Rc(t + 1) == (LfsrStep(Lfsr(t)) & 1 == 1)
    ensures Rc(t + 2) == (LfsrStep(LfsrStep(Lfsr(t))) & 1 == 1)
    ensures Rc(t + 3) == (LfsrStep(LfsrStep(LfsrStep(Lfsr(t)))) & 1 == 1)
    ensures Rc(t + 4) == (LfsrStep(LfsrStep(LfsrStep(LfsrStep(Lfsr(t))))) & 1 == 1)
    ensures Rc(t + 5) == (LfsrStep(LfsrStep(LfsrStep(LfsrStep(LfsrStep(Lfsr(t)))))) & 1 == 1)
    ensures Rc(t + 6) == (LfsrStep(LfsrStep(LfsrStep(LfsrStep(LfsrStep(LfsrStep(Lfsr(t))))))) & 1 == 1)
  {
    LfsrNext(t);
    LfsrNext(t + 1);
    LfsrNext(t + 2);
    LfsrNext(t + 3);
    LfsrNext(t + 4);
    LfsrNext(t + 5);
    RcBeforeWrap(t);
    RcBeforeWrap(t + 1);
    RcBeforeWrap(t + 2);
    RcBeforeWrap(t + 3);
    RcBeforeWrap(t + 4);
    RcBeforeWrap(t + 5);
    RcBeforeWrap(t + 6);
  }

  /** The RC lane built from rc(t) .. rc(t + 6) is RoundBits of the register at step t. */
  lemma {:induction false} RcLaneAhead(t: nat)
    requires t + 6 < 255
    ensures RcLane(Rc(t), Rc(t + 1), Rc(t + 2), Rc(t + 3), Rc(t + 4), Rc(t + 5), Rc(t + 6)) == RoundBits(Lfsr(t))
  {
    RcAhead(t);
  }

  /** Seven steps on from step t is what NextRound computes. */
  lemma {:induction false} LfsrSeven(t: nat)
    ensures Lfsr(t + 7) == NextRound(Lfsr(t))
  {
    LfsrNext(t);
    LfsrNext(t + 1);
    LfsrNext(t + 2);
    LfsrNext(t + 3);
    LfsrNext(t + 4);
    LfsrNext(t + 5);
    LfsrNext(t + 6);
  }

  /**
   * In each of the 24 rounds rc does not yet wrap modulo 255, so round ir
   * reads the register from step 7 ir on and hands on the one at step 7 ir + 7.
   */
  lemma {:induction false} LfsrRound(ir: nat)
    requires ir < 24
    ensures RoundConstant(ir) == RoundBits(Lfsr(7 * ir))
    ensures Lfsr(7 * ir + 7) == NextRound(Lfsr(7 * ir))
  {
    RcLaneAhead(7 * ir);
    LfsrSeven(7 * ir);
  }

  /**
   * The register at the start of round ir, written out for ir = 0 .. 23;
   * the last case is the register after round 23.
   */
  function RegisterAt(ir: nat): bv8
  {
    match ir
      case 0 => 0x01
      case 1 => 0x80
      case 2 => 0xd8
      case 3 => 0x1a
      case 4 => 0xdf
      case 5 => 0x09
      case 6 => 0x35
      case 7 => 0x4f
      case 8 => 0xca
      case 9 => 0x70
      case 10 => 0x41
      case 11 => 0xec
      case 12 => 0xd5
      case 13 => 0xcd
      case 14 => 0x63
      case 15 => 0xab
      case 16 => 0xaa
      case 17 => 0x2a
      case 18 => 0xf2
      case 19 => 0xe8
      case 20 => 0x37
      case 21 => 0x3e
      case 22 => 0x0b
      case 23 => 0x44
      case _ => 0x8e
  }

  /** Each entry of RegisterAt is NextRound of the one before it. */
  lemma {:induction false} RegisterChain(ir: nat)
    requires ir < 24
    ensures NextRound(RegisterAt(ir)) == RegisterAt(ir + 1)
  {
    if ir == 0 {} else if ir == 1 {} else if ir == 2 {} else if ir == 3 {}
    else if ir == 4 {} else if ir == 5 {} else if ir == 6 {} else if ir == 7 {}
    else if ir == 8 {} else if ir == 9 {} else if ir == 10 {} else if ir == 11 {}
    else if ir == 12 {} else if ir == 13 {} else if ir == 14 {} else if ir == 15 {}
    else if ir == 16 {} else if ir == 17 {} else if ir == 18 {} else if ir == 19 {}
    else if ir == 20 {} else if ir == 21 {} else if ir == 22 {} else {}
  }

  /** Each entry of RegisterAt yields the matching entry of ROUND_CONSTANTS. */
  lemma {:induction false} RoundBitsTable(ir: nat)
    requires ir < 24
    ensures RoundBits(RegisterAt(ir)) == ROUND_CONSTANTS[ir]
  {
    if ir == 0 {} else if ir == 1 {} else if ir == 2 {} else if ir == 3 {}
    else if ir == 4 {} else if ir == 5 {} else if ir == 6 {} else if ir == 7 {}
    else if ir == 8 {} else if ir == 9 {} else if ir == 10 {} else if ir == 11 {}
    else if ir == 12 {} else if ir == 13 {} else if ir == 14 {} else if ir == 15 {}
    else if ir == 16 {} else if ir == 17 {} else if ir == 18 {} else if ir == 19 {}
    else if ir == 20 {} else if ir == 21 {} else if ir == 22 {} else {}
  }

  /** RegisterAt(ir) is the register after 7 ir steps, the one round ir starts from. */
  lemma {:induction false} LfsrAtRound(ir: nat)
    requires ir <= 24
    ensures Lfsr(7 * ir) == RegisterAt(ir)
  {
    if ir > 0 {
      LfsrAtRound(ir - 1);
      LfsrSeven(7 * (ir - 1));
      RegisterChain(ir - 1);
      assert 7 * (ir - 1) + 7 == 7 * ir;
    }
  }

  /**
   * ROUND_CONSTANTS is the table Algorithm 6 computes: entry ir is RC for
   * round ir, built from rc(7 ir) .. rc(7 ir + 6).
   */
  lemma {:induction false} RoundConstantsAreLfsr()
    ensures forall ir: nat :: ir < ROUNDS ==> ROUND_CONSTANTS[ir] == RoundConstant(ir)
  {
    forall ir: nat | ir < ROUNDS
      ensures ROUND_CONSTANTS[ir] == RoundConstant(ir)
    {
      LfsrAtRound(ir);
      LfsrRound(ir);
      RoundBitsTable(ir);
    }
  }
}
