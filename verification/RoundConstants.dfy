/** The table of round constants in shell.c, and the proof that it is what FIPS 202 generates. */
module RoundConstants {
  import opened Fips202

  /** The table of 64-bit constants. */
  function RC(i: nat): nat
    requires i < 24
  {
    match i
    case 0 => 0x0000000000000001
    case 1 => 0x0000000000008082
    case 2 => 0x800000000000808a
    case 3 => 0x8000000080008000
    case 4 => 0x000000000000808b
    case 5 => 0x0000000080000001
    case 6 => 0x8000000080008081
    case 7 => 0x8000000000008009
    case 8 => 0x000000000000008a
    case 9 => 0x0000000000000088
    case 10 => 0x0000000080008009
    case 11 => 0x000000008000000a
    case 12 => 0x000000008000808b
    case 13 => 0x800000000000008b
    case 14 => 0x8000000000008089
    case 15 => 0x8000000000008003
    case 16 => 0x8000000000008002
    case 17 => 0x8000000000000080
    case 18 => 0x000000000000800a
    case 19 => 0x800000008000000a
    case 20 => 0x8000000080008081
    case 21 => 0x8000000000008080
    case 22 => 0x0000000080000001
    case _ => 0x8000000080008008
  }

  /** Bit z of a word, bit 0 being the least significant. */
  function BitOf(n: nat, z: nat): bool {
    if z == 0 then n % 2 == 1 else BitOf(n / 2, z - 1)
  }

  function Word(n: nat): Lane {
    seq(64, z requires 0 <= z < 64 => BitOf(n, z))
  }

  function Pow2(g: nat): nat {
    if g == 0 then 1 else 2 * Pow2(g - 1)
  }

  function Unit(b: bool): nat {
    if b then 1 else 0
  }

  lemma {:induction false} ShiftedBit(m: nat, g: nat, z: nat)
    ensures BitOf(Pow2(g) * m, z) == (z >= g && BitOf(m, z - g))
    decreases g
  {
    if g > 0 {
      assert Pow2(g) * m == 2 * (Pow2(g - 1) * m);
      if z > 0 {
        ShiftedBit(m, g - 1, z - 1);
      }
    } else {
      assert Pow2(g) * m == m;
    }
  }

  /** The bits of b + 2^g * m: b at position 0, those of m from position g on. */
  lemma PeelBit(b: bool, g: nat, m: nat, z: nat)
    requires g > 0
    ensures BitOf(Unit(b) + Pow2(g) * m, z) == if z == 0 then b else z >= g && BitOf(m, z - g)
  {
    assert Pow2(g) * m == 2 * (Pow2(g - 1) * m);
    if z > 0 {
      ShiftedBit(m, g - 1, z - 1);
    }
  }

  lemma UnitBit(b: bool, z: nat)
    ensures BitOf(Unit(b), z) == (z == 0 && b)
  {
    PeelBit(b, 1, 0, z);
    ZeroBit(if z == 0 then 0 else z - 1);
  }

  lemma {:induction false} ZeroBit(z: nat)
    ensures !BitOf(0, z)
  {
    if z > 0 {
      ZeroBit(z - 1);
    }
  }

  /** The word with these bits at positions 0, 1, 3, 7, 15, 31 and 63. */
  function Compose(b0: bool, b1: bool, b3: bool, b7: bool, b15: bool, b31: bool, b63: bool): nat {
    var high := Unit(b15) + 65536 * (Unit(b31) + 0x100000000 * Unit(b63));
    Unit(b0) + 2 * (Unit(b1) + 4 * (Unit(b3) + 16 * (Unit(b7) + 256 * high)))
  }

  lemma Powers()
    ensures Pow2(1) == 2 && Pow2(2) == 4 && Pow2(4) == 16 && Pow2(8) == 256
    ensures Pow2(16) == 65536 && Pow2(32) == 0x100000000
  {
    assert Pow2(8) == 256;
    assert Pow2(16) == 65536;
    assert Pow2(24) == 0x1000000;
  }

  lemma HighBit(b15: bool, b31: bool, b63: bool, z: nat)
    ensures BitOf(Unit(b15) + 65536 * (Unit(b31) + 0x100000000 * Unit(b63)), z)
         == (if z == 0 then b15 else if z == 16 then b31 else z == 48 && b63)
  {
    hide Pow2, BitOf, Unit;
    Powers();
    PeelBit(b15, 16, Unit(b31) + 0x100000000 * Unit(b63), z);
    if z >= 16 { PeelBit(b31, 32, Unit(b63), z - 16); }
    if z >= 48 { UnitBit(b63, z - 48); }
  }

  lemma MiddleBit(b3: bool, b7: bool, b15: bool, b31: bool, b63: bool, z: nat)
    ensures BitOf(Unit(b3) + 16 * (Unit(b7) + 256 * (Unit(b15) + 65536 * (Unit(b31) + 0x100000000 * Unit(b63)))), z)
         == (if z == 0 then b3 else if z == 4 then b7 else if z == 12 then b15
             else if z == 28 then b31 else z == 60 && b63)
  {
    hide Pow2, BitOf, Unit;
    Powers();
    var m15 := Unit(b15) + 65536 * (Unit(b31) + 0x100000000 * Unit(b63));
    PeelBit(b3, 4, Unit(b7) + 256 * m15, z);
    if z >= 4 { PeelBit(b7, 8, m15, z - 4); }
    if z >= 12 { HighBit(b15, b31, b63, z - 12); }
  }

  lemma ComposedBit(b0: bool, b1: bool, b3: bool, b7: bool, b15: bool, b31: bool, b63: bool, z: nat)
    ensures BitOf(Compose(b0, b1, b3, b7, b15, b31, b63), z)
         == (if z == 0 then b0 else if z == 1 then b1 else if z == 3 then b3 else if z == 7 then b7
             else if z == 15 then b15 else if z == 31 then b31 else z == 63 && b63)
  {
    hide Pow2, BitOf, Unit;
    var m3 := Unit(b3) + 16 * (Unit(b7) + 256 * (Unit(b15) + 65536 * (Unit(b31) + 0x100000000 * Unit(b63))));
    assert Compose(b0, b1, b3, b7, b15, b31, b63) == Unit(b0) + 2 * (Unit(b1) + 4 * m3);
    hide Compose;
    LowBits(b0, b1, m3, z);
    if z >= 3 { MiddleBit(b3, b7, b15, b31, b63, z - 3); }
  }

  lemma LowBits(b0: bool, b1: bool, m3: nat, z: nat)
    ensures BitOf(Unit(b0) + 2 * (Unit(b1) + 4 * m3), z)
         == if z == 0 then b0 else if z == 1 then b1 else z >= 3 && BitOf(m3, z - 3)
  {
    hide Pow2, BitOf, Unit;
    Powers();
    PeelBit(b0, 1, Unit(b1) + 4 * m3, z);
    if z >= 1 { PeelBit(b1, 2, m3, z - 1); }
  }

  /** Seven steps of the generator in closed form. */
  function Seven(R: Register): Register {
    Register(
      (R.r1 != R.r3) != R.r4,
      (R.r2 != R.r4) != R.r5,
      (R.r3 != R.r5) != R.r6,
      (R.r4 != R.r6) != R.r7,
      (((R.r1 != R.r3) != R.r4) != R.r5) != R.r7,
      (((R.r1 != R.r2) != R.r3) != R.r5) != R.r6,
      ((R.r1 != R.r2) != R.r6) != R.r7,
      ((R.r0 != R.r2) != R.r3) != R.r7)
  }

  /** The constant assembled from the seven bits register R yields. */
  function Yield(R: Register): nat {
    Compose(R.r0, R.r7, R.r6, R.r5 != R.r7, (R.r4 != R.r6) != R.r7, (R.r3 != R.r5) != R.r6, (R.r2 != R.r4) != R.r5)
  }

  lemma SevenSteps(t: nat)
    ensures var R := RegisterAfter(t);
      && RegisterAfter(t + 7) == Seven(R)
      && Yield(R) == Compose(R.r0, RegisterAfter(t + 1).r0, RegisterAfter(t + 2).r0, RegisterAfter(t + 3).r0,
                             RegisterAfter(t + 4).r0, RegisterAfter(t + 5).r0, RegisterAfter(t + 6).r0)
  {
    hide Compose;
    ThreeSteps(t);
    ThreeSteps(t + 3);
    SevenIsThreeTwice(RegisterAfter(t));
    assert RegisterAfter(t + 7) == Shift(RegisterAfter(t + 6));
    hide RegisterAfter, Shift, Seven;
  }

  /** Three steps of the generator in closed form. */
  function Three(R: Register): Register {
    Register(R.r5 != R.r7, R.r6, R.r7, R.r0, (R.r1 != R.r5) != R.r7, ((R.r2 != R.r6) != R.r5) != R.r7,
             (R.r3 != R.r6) != R.r5, (R.r4 != R.r7) != R.r6)
  }

  lemma ThreeSteps(t: nat)
    ensures var R := RegisterAfter(t);
      RegisterAfter(t + 1).r0 == R.r7 && RegisterAfter(t + 2).r0 == R.r6 && RegisterAfter(t + 3) == Three(R)
  {
    var R1, R2 := RegisterAfter(t + 1), RegisterAfter(t + 2);
    assert R1 == Shift(RegisterAfter(t)) && R2 == Shift(R1) && RegisterAfter(t + 3) == Shift(R2);
  }

  lemma SevenIsThreeTwice(R: Register)
    ensures Seven(R) == Shift(Three(Three(R)))
  {
    SevenFront(R);
    SevenMiddle(R);
    SevenBack(R);
    hide Seven, Shift, Three;
  }

  lemma SevenFront(R: Register)
    ensures var S, T := Seven(R), Shift(Three(Three(R)));
      S.r0 == T.r0 && S.r1 == T.r1 && S.r2 == T.r2 && S.r3 == T.r3
  {
  }

  lemma SevenMiddle(R: Register)
    ensures var S, T := Seven(R), Shift(Three(Three(R))); S.r4 == T.r4 && S.r5 == T.r5
  {
  }

  lemma SevenBack(R: Register)
    ensures var S, T := Seven(R), Shift(Three(Three(R))); S.r6 == T.r6 && S.r7 == T.r7
  {
    var B := Three(R);
    assert Shift(Three(B)).r6 == ((B.r2 != B.r5) != B.r4);
    assert Shift(Three(B)).r7 == ((B.r3 != B.r6) != B.r5);
    hide Shift;
  }

  /** The register at the start of each of the 24 rounds. */
  function RegisterAt(ir: nat): Register
    requires ir < 24
  {
    match ir
    case 0 => Register(true, false, false, false, false, false, false, false)
    case 1 => Register(false, false, false, false, false, false, false, true)
    case 2 => Register(false, false, false, true, true, false, true, true)
    case 3 => Register(false, true, false, true, true, false, false, false)
    case 4 => Register(true, true, true, true, true, false, true, true)
    case 5 => Register(true, false, false, true, false, false, false, false)
    case 6 => Register(true, false, true, false, true, true, false, false)
    case 7 => Register(true, true, true, true, false, false, true, false)
    case 8 => Register(false, true, false, true, false, false, true, true)
    case 9 => Register(false, false, false, false, true, true, true, false)
    case 10 => Register(true, false, false, false, false, false, true, false)
    case 11 => Register(false, false, true, true, false, true, true, true)
    case 12 => Register(true, false, true, false, true, false, true, true)
    case 13 => Register(true, false, true, true, false, false, true, true)
    case 14 => Register(true, true, false, false, false, true, true, false)
    case 15 => Register(true, true, false, true, false, true, false, true)
    case 16 => Register(false, true, false, true, false, true, false, true)
    case 17 => Register(false, true, false, true, false, true, false, false)
    case 18 => Register(false, true, false, false, true, true, true, true)
    case 19 => Register(false, false, false, true, false, true, true, true)
    case 20 => Register(true, true, true, false, true, true, false, false)
    case 21 => Register(false, true, true, true, true, true, false, false)
    case 22 => Register(true, true, false, true, false, false, false, false)
    case _ => Register(false, false, true, false, false, false, true, false)
  }

  lemma TableRow(ir: nat)
    requires ir < 24
    ensures Yield(RegisterAt(ir)) == RC(ir)
    ensures ir < 23 ==> Seven(RegisterAt(ir)) == RegisterAt(ir + 1)
  {
  }

  lemma {:induction false} RegistersGenerated(ir: nat)
    requires ir < 24
    ensures RegisterAfter(7 * ir) == RegisterAt(ir)
  {
    hide Seven, Yield, RC;
    if ir > 0 {
      RegistersGenerated(ir - 1);
      SevenSteps(7 * (ir - 1));
      TableRow(ir - 1);
    }
  }

  lemma FirstRegister()
    ensures RegisterAfter(0).r0
  {
  }

  lemma RcBitIs(t: nat)
    requires t < 255
    ensures RcBit(t) == RegisterAfter(t).r0
  {
    FirstRegister();
    hide RegisterAfter;
    assert t % 255 == t;
  }

  lemma TableComposed(ir: nat)
    requires ir < 24
    ensures RC(ir) == Compose(RcBit(7 * ir), RcBit(7 * ir + 1), RcBit(7 * ir + 2), RcBit(7 * ir + 3),
                              RcBit(7 * ir + 4), RcBit(7 * ir + 5), RcBit(7 * ir + 6))
  {
    hide RegisterAfter, RegisterAt, RC, Compose, Yield, RcBit, Seven;
    RegistersGenerated(ir);
    TableRow(ir);
    SevenSteps(7 * ir);
    RcBitIs(7 * ir);
    RcBitIs(7 * ir + 1);
    RcBitIs(7 * ir + 2);
    RcBitIs(7 * ir + 3);
    RcBitIs(7 * ir + 4);
    RcBitIs(7 * ir + 5);
    RcBitIs(7 * ir + 6);
  }

  /** Every constant of the table has exactly the bits FIPS 202 generates for its round. */
  lemma TableIsGenerated(ir: nat, z: nat)
    requires ir < 24 && z < 64
    ensures Word(RC(ir))[z] == RoundConstantBit(ir, z)
  {
    hide RC, Compose, BitOf, RcBit;
    TableComposed(ir);
    ComposedBit(RcBit(7 * ir), RcBit(7 * ir + 1), RcBit(7 * ir + 2), RcBit(7 * ir + 3),
                RcBit(7 * ir + 4), RcBit(7 * ir + 5), RcBit(7 * ir + 6), z);
  }
}
