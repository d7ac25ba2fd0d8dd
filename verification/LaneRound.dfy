/**
 One Keccak round computed on whole 64-bit lanes, the way the hash engine of shell.c computes it, and
 the proof that this is the bit-level round of FIPS 202.
 */
module LaneRound {
  import opened Fips202

  // The operators of the engine on u64, bit z being the one worth 2^z.

  function Xor(a: Lane, b: Lane): Lane {
    seq(64, z requires 0 <= z < 64 => a[z] != b[z])
  }

  function And(a: Lane, b: Lane): Lane {
    seq(64, z requires 0 <= z < 64 => a[z] && b[z])
  }

  function Or(a: Lane, b: Lane): Lane {
    seq(64, z requires 0 <= z < 64 => a[z] || b[z])
  }

  function Not(a: Lane): Lane {
    seq(64, z requires 0 <= z < 64 => !a[z])
  }

  function ShiftLeft(a: Lane, n: nat): Lane {
    seq(64, z requires 0 <= z < 64 => z >= n && a[z - n])
  }

  function ShiftRight(a: Lane, n: nat): Lane {
    seq(64, z requires 0 <= z < 64 => z + n < 64 && a[z + n])
  }

  /** ROL64(a, x): (a << x) | (a >> (64 - x)). */
  function Rol(a: Lane, n: nat): Lane
    requires 0 < n < 64
  {
    Or(ShiftLeft(a, n), ShiftRight(a, 64 - n))
  }

  lemma RolBit(a: Lane, n: nat, z: nat)
    requires 0 < n < 64 && z < 64
    ensures Rol(a, n)[z] == a[(z + 64 - n) % 64]
  {
  }

  // One round on lanes, indexed like the bit-level state.

  /** a ^ b ^ c ^ d ^ e. */
  function Xor5(a: Lane, b: Lane, c: Lane, d: Lane, e: Lane): Lane {
    Xor(Xor(Xor(Xor(a, b), c), d), e)
  }

  function ColumnC(L: State, x: nat): Lane
    requires x < 5
  {
    Xor5(L[x], L[5 + x], L[10 + x], L[15 + x], L[20 + x])
  }

  /** a ^ ROL64(b, 1). */
  function XorRol(a: Lane, b: Lane): Lane {
    Xor(a, Rol(b, 1))
  }

  function ColumnD(L: State, x: nat): Lane
    requires x < 5
  {
    XorRol(ColumnC(L, (x + 4) % 5), ColumnC(L, (x + 1) % 5))
  }

  /** The lane that theta, rho and pi bring to position (x, y). */
  function MovedB(L: State, x: nat, y: nat): Lane
    requires x < 5 && y < 5
  {
    var u := (x + 3 * y) % 5;
    Rotated(Xor(L[5 * x + u], ColumnD(L, u)), Offset(u, x))
  }

  function MixedLane(L: State, rc: Lane, i: nat): Lane
    requires i < 25
  {
    var x, y := i % 5, i / 5;
    var r := Xor(MovedB(L, x, y), And(Not(MovedB(L, (x + 1) % 5, y)), MovedB(L, (x + 2) % 5, y)));
    if i == 0 then Xor(r, rc) else r
  }

  function LaneRnd(L: State, rc: Lane): State {
    seq(25, i requires 0 <= i < 25 => MixedLane(L, rc, i))
  }

  lemma ColumnCBit(L: State, x: nat, z: nat)
    requires x < 5 && z < 64
    ensures ColumnC(L, x)[z] == ParityC(L, x, z)
  {
  }

  lemma ColumnDBit(L: State, x: nat, z: nat)
    requires x < 5 && z < 64
    ensures ColumnD(L, x)[z] == ParityD(L, x, z)
  {
    hide ColumnC, ParityC, Rol;
    ColumnCBit(L, (x + 4) % 5, z);
    RolBit(ColumnC(L, (x + 1) % 5), 1, z);
    ColumnCBit(L, (x + 1) % 5, (z + 63) % 64);
  }

  lemma ThetaAt(A: State, x: nat, y: nat, z: nat)
    requires x < 5 && y < 5 && z < 64
    ensures At(Theta(A), x, y, z) == (At(A, x, y, z) != ParityD(A, x, z))
  {
  }

  lemma RhoAt(A: State, x: nat, y: nat, z: nat)
    requires x < 5 && y < 5 && z < 64
    ensures At(Rho(A), x, y, z) == At(A, x, y, (z + 64 - Offset(x, y)) % 64)
  {
    hide Offset;
  }

  lemma PiAt(A: State, x: nat, y: nat, z: nat)
    requires x < 5 && y < 5 && z < 64
    ensures At(Pi(A), x, y, z) == At(A, (x + 3 * y) % 5, x, z)
  {
  }

  lemma ChiAt(A: State, x: nat, y: nat, z: nat)
    requires x < 5 && y < 5 && z < 64
    ensures At(Chi(A), x, y, z) == (At(A, x, y, z) != (!At(A, (x + 1) % 5, y, z) && At(A, (x + 2) % 5, y, z)))
  {
  }

  lemma IotaAt(A: State, ir: nat, x: nat, y: nat, z: nat)
    requires x < 5 && y < 5 && z < 64
    ensures At(Iota(A, ir), x, y, z) == (At(A, x, y, z) != (x == 0 && y == 0 && RoundConstantBit(ir, z)))
  {
  }

  /** A lane rotated by d, or left alone when d is zero. */
  function Rotated(t: Lane, d: nat): Lane
    requires d < 64
  {
    if d == 0 then t else Rol(t, d)
  }

  lemma RotatedBit(t: Lane, d: nat, z: nat)
    requires d < 64 && z < 64
    ensures Rotated(t, d)[z] == t[(z + 64 - d) % 64]
  {
    if d > 0 {
      RolBit(t, d, z);
    }
  }

  lemma SummedBit(L: State, u: nat, v: nat, w: nat)
    requires u < 5 && v < 5 && w < 64
    ensures Xor(L[5 * v + u], ColumnD(L, u))[w] == At(Theta(L), u, v, w)
  {
    hide ColumnD, ParityD, Theta;
    ColumnDBit(L, u, w);
    ThetaAt(L, u, v, w);
  }

  lemma MovedBit(L: State, x: nat, y: nat, z: nat)
    requires x < 5 && y < 5 && z < 64
    ensures MovedB(L, x, y)[z] == At(Pi(Rho(Theta(L))), x, y, z)
  {
    hide ColumnD, Rotated, Offset, Pi, Rho, Theta, At, Xor;
    var u := (x + 3 * y) % 5;
    var d := Offset(u, x);
    PiAt(Rho(Theta(L)), x, y, z);
    RhoAt(Theta(L), u, x, z);
    SummedBit(L, u, x, (z + 64 - d) % 64);
    RotatedBit(Xor(L[5 * x + u], ColumnD(L, u)), d, z);
  }

  lemma MixedBit(L: State, rc: Lane, ir: nat, x: nat, y: nat, z: nat)
    requires x < 5 && y < 5 && z < 64 && rc[z] == RoundConstantBit(ir, z)
    ensures MixedLane(L, rc, 5 * y + x)[z] == At(Rnd(L, ir), x, y, z)
  {
    hide MovedB, RoundConstantBit, Pi, Rho, Theta, Chi, Iota, At;
    var P := Pi(Rho(Theta(L)));
    MovedBit(L, x, y, z);
    MovedBit(L, (x + 1) % 5, y, z);
    MovedBit(L, (x + 2) % 5, y, z);
    ChiAt(P, x, y, z);
    IotaAt(Chi(P), ir, x, y, z);
    assert (5 * y + x) % 5 == x && (5 * y + x) / 5 == y;
  }

  /** The round on lanes is the round on bits, for the round constant with the right bits. */
  lemma LaneRoundIsRnd(L: State, rc: Lane, ir: nat)
    requires forall z :: 0 <= z < 64 ==> rc[z] == RoundConstantBit(ir, z)
    ensures LaneRnd(L, rc) == Rnd(L, ir)
  {
    hide MixedLane, RoundConstantBit, Rnd;
    var R, N := LaneRnd(L, rc), Rnd(L, ir);
    forall i | 0 <= i < 25 ensures R[i] == N[i] {
      var x, y := i % 5, i / 5;
      assert i == 5 * y + x;
      forall z | 0 <= z < 64 ensures R[i][z] == N[i][z] {
        MixedBit(L, rc, ir, x, y, z);
        assert At(N, x, y, z) == N[i][z];
      }
    }
  }
}
