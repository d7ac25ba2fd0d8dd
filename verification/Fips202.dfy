/**
 The Keccak-f[1600] permutation, the sponge construction and the SHA-3 functions at the level of bits,
 as defined in FIPS 202. The state array A[x, y, z] is a sequence of 25 lanes, lane 5y + x holding the bits
 A[x, y, 0 .. 63], so that concatenating the lanes gives the state string of section 3.1.2.
 */
module Fips202 {

  type Bits = seq<bool>

  type Lane = l: Bits | |l| == 64 witness seq(64, _ => false)

  type State = s: seq<Lane> | |s| == 25 witness seq(25, _ => seq(64, _ => false))

  function At(A: State, x: nat, y: nat, z: nat): bool
    requires x < 5 && y < 5 && z < 64
  {
    A[5 * y + x][z]
  }

  function Tabulate(f: (nat, nat, nat) --> bool): (A: State)
    requires forall x: nat, y: nat, z: nat :: x < 5 && y < 5 && z < 64 ==> f.requires(x, y, z)
    ensures forall x: nat, y: nat, z: nat :: x < 5 && y < 5 && z < 64 ==> At(A, x, y, z) == f(x, y, z)
  {
    var A := seq(25, i requires 0 <= i < 25 => seq(64, z requires 0 <= z < 64 => f(i % 5, i / 5, z)));
    A
  }

  // Section 3.2.1

  function ParityC(A: State, x: nat, z: nat): bool
    requires x < 5 && z < 64
  {
    ((((At(A, x, 0, z) != At(A, x, 1, z)) != At(A, x, 2, z)) != At(A, x, 3, z)) != At(A, x, 4, z))
  }

  function ParityD(A: State, x: nat, z: nat): bool
    requires x < 5 && z < 64
  {
    ParityC(A, (x + 4) % 5, z) != ParityC(A, (x + 1) % 5, (z + 63) % 64)
  }

  function Theta(A: State): State {
    Tabulate((x: nat, y: nat, z: nat) requires x < 5 && y < 5 && z < 64 => At(A, x, y, z) != ParityD(A, x, z))
  }

  // Section 3.2.2

  /** How far rho rotates lane (x, y): Table 2, reduced modulo the lane size. */
  function Offset(x: nat, y: nat): (d: nat)
    requires x < 5 && y < 5
    ensures d < 64
  {
    match 5 * y + x
    case 0 => 0
    case 1 => 1
    case 2 => 62
    case 3 => 28
    case 4 => 27
    case 5 => 36
    case 6 => 44
    case 7 => 6
    case 8 => 55
    case 9 => 20
    case 10 => 3
    case 11 => 10
    case 12 => 43
    case 13 => 25
    case 14 => 39
    case 15 => 41
    case 16 => 45
    case 17 => 15
    case 18 => 21
    case 19 => 8
    case 20 => 18
    case 21 => 2
    case 22 => 61
    case 23 => 56
    case _ => 14
  }

  /** The walk of Algorithm 2: from (1, 0), step to (y, 2x + 3y). */
  function Walk(t: nat): (nat, nat) {
    if t == 0 then (1, 0) else var (x, y) := Walk(t - 1); (y, (2 * x + 3 * y) % 5)
  }

  function WalkTable(t: nat): (nat, nat) {
    match t
    case 0 => (1, 0)
    case 1 => (0, 2)
    case 2 => (2, 1)
    case 3 => (1, 2)
    case 4 => (2, 3)
    case 5 => (3, 3)
    case 6 => (3, 0)
    case 7 => (0, 1)
    case 8 => (1, 3)
    case 9 => (3, 1)
    case 10 => (1, 4)
    case 11 => (4, 4)
    case 12 => (4, 0)
    case 13 => (0, 3)
    case 14 => (3, 4)
    case 15 => (4, 3)
    case 16 => (3, 2)
    case 17 => (2, 2)
    case 18 => (2, 0)
    case 19 => (0, 4)
    case 20 => (4, 2)
    case 21 => (2, 4)
    case 22 => (4, 1)
    case _ => (1, 1)
  }

  lemma WalkTableStep(t: nat)
    requires t < 23
    ensures var (x, y) := WalkTable(t); WalkTable(t + 1) == (y, (2 * x + 3 * y) % 5)
  {
  }

  lemma WalkTableStart()
    ensures WalkTable(0) == (1, 0)
  {
  }

  lemma {:induction false} WalkIsTable(t: nat)
    requires t < 24
    ensures Walk(t) == WalkTable(t)
  {
    WalkTableStart();
    hide WalkTable;
    if t > 0 {
      WalkIsTable(t - 1);
      WalkTableStep(t - 1);
    }
  }

  lemma EarlyOffsets(t: nat)
    requires t < 12
    ensures WalkTable(t).0 < 5 && WalkTable(t).1 < 5
    ensures Offset(WalkTable(t).0, WalkTable(t).1) == ((t + 1) * (t + 2) / 2) % 64
  {
  }

  lemma LateOffsets(t: nat)
    requires 12 <= t < 24
    ensures WalkTable(t).0 < 5 && WalkTable(t).1 < 5
    ensures Offset(WalkTable(t).0, WalkTable(t).1) == ((t + 1) * (t + 2) / 2) % 64
  {
  }

  /** The table is what Algorithm 2 computes: step t of the walk meets a lane rotated by (t + 1)(t + 2) / 2. */
  lemma OffsetsFollowWalk(t: nat)
    requires t < 24
    ensures Walk(t).0 < 5 && Walk(t).1 < 5
    ensures Offset(Walk(t).0, Walk(t).1) == ((t + 1) * (t + 2) / 2) % 64
  {
    WalkIsTable(t);
    hide Walk, WalkTable, Offset;
    if t < 12 {
      EarlyOffsets(t);
    } else {
      LateOffsets(t);
    }
  }

  function Rho(A: State): State {
    Tabulate((x: nat, y: nat, z: nat) requires x < 5 && y < 5 && z < 64 => At(A, x, y, (z + 64 - Offset(x, y)) % 64))
  }

  // Section 3.2.3

  function Pi(A: State): State {
    Tabulate((x: nat, y: nat, z: nat) requires x < 5 && y < 5 && z < 64 => At(A, (x + 3 * y) % 5, x, z))
  }

  // Section 3.2.4

  function Chi(A: State): State {
    Tabulate((x: nat, y: nat, z: nat) requires x < 5 && y < 5 && z < 64 =>
      At(A, x, y, z) != (!At(A, (x + 1) % 5, y, z) && At(A, (x + 2) % 5, y, z)))
  }

  // Section 3.2.5

  /** The register R[0 .. 7] of the round-constant generator. */
  datatype Register = Register(r0: bool, r1: bool, r2: bool, r3: bool, r4: bool, r5: bool, r6: bool, r7: bool)

  /** Prepend a zero, fold the bit pushed out into positions 0, 4, 5 and 6, keep eight bits. */
  function Shift(R: Register): Register {
    var out := R.r7;
    Register(out, R.r0, R.r1, R.r2, R.r3 != out, R.r4 != out, R.r5 != out, R.r6)
  }

  function RegisterAfter(t: nat): Register {
    if t == 0 then Register(true, false, false, false, false, false, false, false) else Shift(RegisterAfter(t - 1))
  }

  function RcBit(t: nat): bool {
    if t % 255 == 0 then true else RegisterAfter(t % 255).r0
  }

  /** Bit z of the round constant: only positions 2^j - 1 can be set. */
  function RoundConstantBit(ir: nat, z: nat): bool {
    if z == 0 then RcBit(7 * ir)
    else if z == 1 then RcBit(7 * ir + 1)
    else if z == 3 then RcBit(7 * ir + 2)
    else if z == 7 then RcBit(7 * ir + 3)
    else if z == 15 then RcBit(7 * ir + 4)
    else if z == 31 then RcBit(7 * ir + 5)
    else if z == 63 then RcBit(7 * ir + 6)
    else false
  }

  function Iota(A: State, ir: nat): State {
    Tabulate((x: nat, y: nat, z: nat) requires x < 5 && y < 5 && z < 64 =>
      if x == 0 && y == 0 then At(A, x, y, z) != RoundConstantBit(ir, z) else At(A, x, y, z))
  }

  // Section 3.3

  function Rnd(A: State, ir: nat): State {
    Iota(Chi(Pi(Rho(Theta(A)))), ir)
  }

  function Rounds(A: State, n: nat): State {
    if n == 0 then A else Rnd(Rounds(A, n - 1), n - 1)
  }

  function KeccakF(A: State): State {
    Rounds(A, 24)
  }
}
