/**
 * `State` of src/reference.rs: the 5 x 5 lanes that `round` and `keccakf`
 * update in place.  Each method is proved to leave the state equal to the
 * pure function of module Keccak applied to the state it found.
 */
module KeccakState {
  import opened Keccak

  class State {
    /** The rows A[0] .. A[4]; row y holds the lanes A[y][0] .. A[y][4]. */
    const A: array<Row>

    ghost predicate Valid()
      reads this
    {
      A.Length == 5
    }

    /** The lanes as a value. */
    function Contents(): Matrix
      reads this, A
      requires Valid()
    {
      A[..]
    }

    /** A fresh state: all 25 lanes zero. */
    constructor ()
      ensures Valid() && fresh(A)
      ensures Contents() == ZERO
    {
      A := new Row[5](_ => ZERO_ROW);
      new;
      assert A[..] == ZERO;
    }

    /** Byte i of the state, in the byte view of module Keccak. */
    function ByteAt(i: nat): (b: Byte)
      reads this, A
      requires Valid() && i < STATE_BYTES
      ensures b == StateBytes(Contents())[i]
    {
      var l := i / 8;
      LaneBytes(A[l / 5][l % 5])[i % 8]
    }

    /** `state[i] ^= b`: byte i of the state is XORed with b. */
    method XorByte(i: nat, b: Byte)
      requires Valid() && i < STATE_BYTES
      modifies A
      ensures Contents() == Keccak.XorByte(old(Contents()), i, b)
    {
      var l := i / 8;
      var bs := LaneBytes(A[l / 5][l % 5]);
      A[l / 5] := A[l / 5][l % 5 := LaneOf(bs[i % 8 := XorOctet(bs[i % 8], b)])];
    }

    /** One round with constant rc, in place: θ, then ρ and π, then χ, then ι. */
    method Round(rc: Lane)
      requires Valid()
      modifies A
      ensures Contents() == Rnd(old(Contents()), rc)
    {
      ghost var a := Contents();

      // θ
      var C := ColumnParities(Contents());
      var D := ThetaEffects(C);
      ThetaEffectsFollowRule(a);
      XorRows(D);
      assert Contents() == Theta(a);

      // ρ and π
      var B := RhoPi(Contents());

      // χ
      ChiRows(B);
      ghost var b := Contents();
      assert b == Chi(RhoPi(Theta(a)));

      // ι
      A[0] := A[0][0 := XorLane(A[0][0], rc)];
      assert Contents() == Iota(b, rc);
    }

    /** The θ loop: every row A[y] becomes A[y] ^ D, lane by lane. */
    method XorRows(D: Row)
      requires Valid()
      modifies A
      ensures Contents() == seq(5, y requires 0 <= y < 5 => XorRow(old(Contents())[y], D))
    {
      for y := 0 to 5
        invariant forall k :: 0 <= k < y ==> A[k] == XorRow(old(A[k]), D)
        invariant forall k :: y <= k < 5 ==> A[k] == old(A[k])
      {
        A[y] := XorRow(A[y], D);
      }
    }

    /** The χ loop: row y of A is rewritten, lane by lane, from row y of B. */
    method ChiRows(B: Matrix)
      requires Valid()
      modifies A
      ensures Contents() == Chi(B)
    {
      for y := 0 to 5
        invariant forall k :: 0 <= k < y ==> A[k] == ChiRow(B[k])
      {
        A[y] := A[y][0 := ChiLane(B[y][0], B[y][1], B[y][2])];
        A[y] := A[y][1 := ChiLane(B[y][1], B[y][2], B[y][3])];
        A[y] := A[y][2 := ChiLane(B[y][2], B[y][3], B[y][4])];
        A[y] := A[y][3 := ChiLane(B[y][3], B[y][4], B[y][0])];
        A[y] := A[y][4 := ChiLane(B[y][4], B[y][0], B[y][1])];
        assert A[y] == ChiRow(B[y]);
      }
    }

    /** `keccakf`: the rounds of ROUND_CONSTANTS, in order. */
    method KeccakF()
      requires Valid()
      modifies A
      ensures Contents() == KeccakF1600(old(Contents()))
    {
      for i := 0 to ROUNDS
        invariant Contents() == Rounds(old(Contents()), i)
      {
        Round(ROUND_CONSTANTS[i]);
      }
    }
  }
}
