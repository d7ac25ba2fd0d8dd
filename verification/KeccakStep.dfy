/**
 The Keccak step of shell.c: 24 rounds in place, unrolled four at a time. Results are written back into
 the lanes they were computed from, so after each round lane (x, y) of the state sits in another slot;
 after four rounds every lane is home again.
 */
module KeccakStep {
  import opened Fips202
  import opened LaneRound
  import opened RoundConstants

  /** The row of column x in which lane (x, y) of the state sits after k unrolled rounds. */
  function Row(k: nat, x: nat, y: nat): (row: nat)
    requires x < 5 && y < 5
    ensures row < 5
  {
    match k
    case 1 => Mod5(x + 2 * y)
    case 2 => Mod5(3 * x + 4 * y)
    case 3 => Mod5(2 * x + 3 * y)
    case _ => y
  }

  function Mod5(n: nat): (r: nat)
    ensures r < 5
  {
    n % 5
  }

  lemma SameRemainder(a: int, b: int, q: int)
    requires a == b + 5 * q
    ensures a % 5 == b % 5
  {
  }

  /** Relabelling row r = (x + 2y) mod 5 once, twice and three times more. */
  lemma Relabelled(x: nat, y: nat)
    ensures var r := Mod5(x + 2 * y);
      Mod5(x + 2 * r) == Mod5(3 * x + 4 * y) && Mod5(3 * x + 4 * r) == Mod5(2 * x + 3 * y)
      && Mod5(2 * x + 3 * r) == Mod5(y)
  {
    var q, r := (x + 2 * y) / 5, (x + 2 * y) % 5;
    SameRemainder(x + 2 * r, 3 * x + 4 * y, -2 * q);
    SameRemainder(3 * x + 4 * r, 2 * x + 3 * y, x + y - 4 * q);
    SameRemainder(2 * x + 3 * r, y, x + y - 3 * q);
  }

  lemma SmallRow(y: nat)
    requires y < 5
    ensures Mod5(y) == y
  {
  }

  /** Every round relabels the same way, row x + 2y of column x for lane (x, y), and four rounds undo it. */
  lemma RowsCompose(k: nat, x: nat, y: nat)
    requires k < 4 && x < 5 && y < 5
    ensures Row(k + 1, x, y) == Row(k, x, Row(1, x, y))
    ensures Row(4, x, y) == Row(0, x, y) == y
  {
    hide Mod5;
    Relabelled(x, y);
    SmallRow(y);
  }

  /** Row y of the state L is held in its slots after k unrolled rounds. */
  ghost predicate ShowsRow(s: seq<Lane>, k: nat, L: State, y: nat)
    requires |s| == 25 && y < 5
  {
    && L[5 * y] == s[5 * Row(k, 0, y)] && L[5 * y + 1] == s[5 * Row(k, 1, y) + 1]
    && L[5 * y + 2] == s[5 * Row(k, 2, y) + 2] && L[5 * y + 3] == s[5 * Row(k, 3, y) + 3]
    && L[5 * y + 4] == s[5 * Row(k, 4, y) + 4]
  }

  /** The slots hold the state L after k unrolled rounds. */
  ghost predicate Shows(s: seq<Lane>, k: nat, L: State)
    requires |s| == 25
  {
    ShowsRow(s, k, L, 0) && ShowsRow(s, k, L, 1) && ShowsRow(s, k, L, 2) && ShowsRow(s, k, L, 3) && ShowsRow(s, k, L, 4)
  }

  lemma Slots0(s: seq<Lane>, L: State)
    requires |s| == 25
    ensures Shows(s, 0, L) <==>
      && L[0] == s[0] && L[1] == s[1] && L[2] == s[2] && L[3] == s[3] && L[4] == s[4]
      && L[5] == s[5] && L[6] == s[6] && L[7] == s[7] && L[8] == s[8] && L[9] == s[9]
      && L[10] == s[10] && L[11] == s[11] && L[12] == s[12] && L[13] == s[13] && L[14] == s[14]
      && L[15] == s[15] && L[16] == s[16] && L[17] == s[17] && L[18] == s[18] && L[19] == s[19]
      && L[20] == s[20] && L[21] == s[21] && L[22] == s[22] && L[23] == s[23] && L[24] == s[24]
  {
  }

  lemma Slots1(s: seq<Lane>, L: State)
    requires |s| == 25
    ensures Shows(s, 1, L) <==>
      && L[0] == s[0] && L[1] == s[6] && L[2] == s[12] && L[3] == s[18] && L[4] == s[24]
      && L[5] == s[10] && L[6] == s[16] && L[7] == s[22] && L[8] == s[3] && L[9] == s[9]
      && L[10] == s[20] && L[11] == s[1] && L[12] == s[7] && L[13] == s[13] && L[14] == s[19]
      && L[15] == s[5] && L[16] == s[11] && L[17] == s[17] && L[18] == s[23] && L[19] == s[4]
      && L[20] == s[15] && L[21] == s[21] && L[22] == s[2] && L[23] == s[8] && L[24] == s[14]
  {
  }

  lemma Slots2(s: seq<Lane>, L: State)
    requires |s| == 25
    ensures Shows(s, 2, L) <==>
      && L[0] == s[0] && L[1] == s[16] && L[2] == s[7] && L[3] == s[23] && L[4] == s[14]
      && L[5] == s[20] && L[6] == s[11] && L[7] == s[2] && L[8] == s[18] && L[9] == s[9]
      && L[10] == s[15] && L[11] == s[6] && L[12] == s[22] && L[13] == s[13] && L[14] == s[4]
      && L[15] == s[10] && L[16] == s[1] && L[17] == s[17] && L[18] == s[8] && L[19] == s[24]
      && L[20] == s[5] && L[21] == s[21] && L[22] == s[12] && L[23] == s[3] && L[24] == s[19]
  {
  }

  lemma Slots3(s: seq<Lane>, L: State)
    requires |s| == 25
    ensures Shows(s, 3, L) <==>
      && L[0] == s[0] && L[1] == s[11] && L[2] == s[22] && L[3] == s[8] && L[4] == s[19]
      && L[5] == s[15] && L[6] == s[1] && L[7] == s[12] && L[8] == s[23] && L[9] == s[9]
      && L[10] == s[5] && L[11] == s[16] && L[12] == s[2] && L[13] == s[13] && L[14] == s[24]
      && L[15] == s[20] && L[16] == s[6] && L[17] == s[17] && L[18] == s[3] && L[19] == s[14]
      && L[20] == s[10] && L[21] == s[21] && L[22] == s[7] && L[23] == s[18] && L[24] == s[4]
  {
  }

  lemma Slots4(s: seq<Lane>, L: State)
    requires |s| == 25
    ensures Shows(s, 4, L) <==>
      && L[0] == s[0] && L[1] == s[1] && L[2] == s[2] && L[3] == s[3] && L[4] == s[4]
      && L[5] == s[5] && L[6] == s[6] && L[7] == s[7] && L[8] == s[8] && L[9] == s[9]
      && L[10] == s[10] && L[11] == s[11] && L[12] == s[12] && L[13] == s[13] && L[14] == s[14]
      && L[15] == s[15] && L[16] == s[16] && L[17] == s[17] && L[18] == s[18] && L[19] == s[19]
      && L[20] == s[20] && L[21] == s[21] && L[22] == s[22] && L[23] == s[23] && L[24] == s[24]
  {
  }

  /** Lane (x, y) of the next state before the round constant. */
  function Mixed(L: State, x: nat, y: nat): Lane
    requires x < 5 && y < 5
  {
    Xor(MovedB(L, x, y), And(Not(MovedB(L, (x + 1) % 5, y)), MovedB(L, (x + 2) % 5, y)))
  }

  lemma MixedRows(L: State, rc: Lane)
    ensures var N := LaneRnd(L, rc);
      && N[0] == Xor(Mixed(L, 0, 0), rc)
      && N[1] == Mixed(L, 1, 0) && N[2] == Mixed(L, 2, 0) && N[3] == Mixed(L, 3, 0) && N[4] == Mixed(L, 4, 0)
      && N[5] == Mixed(L, 0, 1) && N[6] == Mixed(L, 1, 1) && N[7] == Mixed(L, 2, 1)
      && N[8] == Mixed(L, 3, 1) && N[9] == Mixed(L, 4, 1)
      && N[10] == Mixed(L, 0, 2) && N[11] == Mixed(L, 1, 2) && N[12] == Mixed(L, 2, 2)
      && N[13] == Mixed(L, 3, 2) && N[14] == Mixed(L, 4, 2)
      && N[15] == Mixed(L, 0, 3) && N[16] == Mixed(L, 1, 3) && N[17] == Mixed(L, 2, 3)
      && N[18] == Mixed(L, 3, 3) && N[19] == Mixed(L, 4, 3)
      && N[20] == Mixed(L, 0, 4) && N[21] == Mixed(L, 1, 4) && N[22] == Mixed(L, 2, 4)
      && N[23] == Mixed(L, 3, 4) && N[24] == Mixed(L, 4, 4)
  {
    hide Xor, And, Not, MovedB;
  }

  lemma ColumnsAre(L: State)
    ensures ColumnC(L, 0) == Xor5(L[0], L[5], L[10], L[15], L[20])
    ensures ColumnC(L, 1) == Xor5(L[1], L[6], L[11], L[16], L[21])
    ensures ColumnC(L, 2) == Xor5(L[2], L[7], L[12], L[17], L[22])
    ensures ColumnC(L, 3) == Xor5(L[3], L[8], L[13], L[18], L[23])
    ensures ColumnC(L, 4) == Xor5(L[4], L[9], L[14], L[19], L[24])
    ensures ColumnD(L, 0) == XorRol(ColumnC(L, 4), ColumnC(L, 1))
    ensures ColumnD(L, 1) == XorRol(ColumnC(L, 0), ColumnC(L, 2))
    ensures ColumnD(L, 2) == XorRol(ColumnC(L, 1), ColumnC(L, 3))
    ensures ColumnD(L, 3) == XorRol(ColumnC(L, 2), ColumnC(L, 4))
    ensures ColumnD(L, 4) == XorRol(ColumnC(L, 3), ColumnC(L, 0))
  {
  }

  lemma Brought0(L: State)
    ensures MovedB(L, 0, 0) == Xor(L[0], ColumnD(L, 0))
    ensures MovedB(L, 1, 0) == Rol(Xor(L[6], ColumnD(L, 1)), 44)
    ensures MovedB(L, 2, 0) == Rol(Xor(L[12], ColumnD(L, 2)), 43)
    ensures MovedB(L, 3, 0) == Rol(Xor(L[18], ColumnD(L, 3)), 21)
    ensures MovedB(L, 4, 0) == Rol(Xor(L[24], ColumnD(L, 4)), 14)
  {
    hide Xor, Rol, ColumnD;
  }

  lemma Brought1(L: State)
    ensures MovedB(L, 0, 1) == Rol(Xor(L[3], ColumnD(L, 3)), 28)
    ensures MovedB(L, 1, 1) == Rol(Xor(L[9], ColumnD(L, 4)), 20)
    ensures MovedB(L, 2, 1) == Rol(Xor(L[10], ColumnD(L, 0)), 3)
    ensures MovedB(L, 3, 1) == Rol(Xor(L[16], ColumnD(L, 1)), 45)
    ensures MovedB(L, 4, 1) == Rol(Xor(L[22], ColumnD(L, 2)), 61)
  {
    hide Xor, Rol, ColumnD;
  }

  lemma Brought2(L: State)
    ensures MovedB(L, 0, 2) == Rol(Xor(L[1], ColumnD(L, 1)), 1)
    ensures MovedB(L, 1, 2) == Rol(Xor(L[7], ColumnD(L, 2)), 6)
    ensures MovedB(L, 2, 2) == Rol(Xor(L[13], ColumnD(L, 3)), 25)
    ensures MovedB(L, 3, 2) == Rol(Xor(L[19], ColumnD(L, 4)), 8)
    ensures MovedB(L, 4, 2) == Rol(Xor(L[20], ColumnD(L, 0)), 18)
  {
  }

  lemma Brought3(L: State)
    ensures MovedB(L, 0, 3) == Rol(Xor(L[4], ColumnD(L, 4)), 27)
    ensures MovedB(L, 1, 3) == Rol(Xor(L[5], ColumnD(L, 0)), 36)
    ensures MovedB(L, 2, 3) == Rol(Xor(L[11], ColumnD(L, 1)), 10)
    ensures MovedB(L, 3, 3) == Rol(Xor(L[17], ColumnD(L, 2)), 15)
    ensures MovedB(L, 4, 3) == Rol(Xor(L[23], ColumnD(L, 3)), 56)
  {
    hide Xor, Rol, ColumnD;
  }

  lemma Brought4(L: State)
    ensures MovedB(L, 0, 4) == Rol(Xor(L[2], ColumnD(L, 2)), 62)
    ensures MovedB(L, 1, 4) == Rol(Xor(L[8], ColumnD(L, 3)), 55)
    ensures MovedB(L, 2, 4) == Rol(Xor(L[14], ColumnD(L, 4)), 39)
    ensures MovedB(L, 3, 4) == Rol(Xor(L[15], ColumnD(L, 0)), 41)
    ensures MovedB(L, 4, 4) == Rol(Xor(L[21], ColumnD(L, 1)), 2)
  {
    hide Xor, Rol, ColumnD;
  }

  /** Five different slots. */
  ghost predicate Apart(i0: nat, i1: nat, i2: nat, i3: nat, i4: nat) {
    && i0 < 25 && i1 < 25 && i2 < 25 && i3 < 25 && i4 < 25
    && i0 != i1 && i0 != i2 && i0 != i3 && i0 != i4 && i1 != i2 && i1 != i3 && i1 != i4
    && i2 != i3 && i2 != i4 && i3 != i4
  }

  /** The slots after five of them are written. */
  ghost function Stored(s: State, i0: nat, i1: nat, i2: nat, i3: nat, i4: nat,
                        v0: Lane, v1: Lane, v2: Lane, v3: Lane, v4: Lane): (t: State)
    requires Apart(i0, i1, i2, i3, i4)
    ensures t[i0] == v0 && t[i1] == v1 && t[i2] == v2 && t[i3] == v3 && t[i4] == v4
    ensures forall j | 0 <= j < 25 && j != i0 && j != i1 && j != i2 && j != i3 && j != i4 :: t[j] == s[j]
  {
    s[i0 := v0][i1 := v1][i2 := v2][i3 := v3][i4 := v4]
  }

  /** The block of row 0: rotate the five lanes brought to it and mix them, in column order. */
  method Plane0(a: array<Lane>, i0: nat, i1: nat, i2: nat, i3: nat, i4: nat,
                 D0: Lane, D1: Lane, D2: Lane, D3: Lane, D4: Lane, rc: Lane, ghost L: State)
    requires a.Length == 25 && Apart(i0, i1, i2, i3, i4)
    requires a[..][i0] == L[0] && a[..][i1] == L[6] && a[..][i2] == L[12] && a[..][i3] == L[18] && a[..][i4] == L[24]
    requires D0 == ColumnD(L, 0) && D1 == ColumnD(L, 1) && D2 == ColumnD(L, 2)
    requires D3 == ColumnD(L, 3) && D4 == ColumnD(L, 4)
    modifies a
    ensures a[..] == Stored(old(a[..]), i0, i1, i2, i3, i4,
      Xor(Mixed(L, 0, 0), rc), Mixed(L, 1, 0), Mixed(L, 2, 0), Mixed(L, 3, 0), Mixed(L, 4, 0))
  {
    Brought0(L);
    hide Xor, And, Not, Rol, ColumnD, MovedB;
    var B0 := Xor(a[i0], D0);
    var B1 := Rol(Xor(a[i1], D1), 44);
    var B2 := Rol(Xor(a[i2], D2), 43);
    var B3 := Rol(Xor(a[i3], D3), 21);
    var B4 := Rol(Xor(a[i4], D4), 14);
    a[i0] := Xor(B0, And(Not(B1), B2));
    a[i0] := Xor(a[i0], rc);
    a[i1] := Xor(B1, And(Not(B2), B3));
    a[i2] := Xor(B2, And(Not(B3), B4));
    a[i3] := Xor(B3, And(Not(B4), B0));
    a[i4] := Xor(B4, And(Not(B0), B1));
  }

  /** The block of row 1: rotate the five lanes brought to it and mix them, in column order. */
  method Plane1(a: array<Lane>, i0: nat, i1: nat, i2: nat, i3: nat, i4: nat,
                 D0: Lane, D1: Lane, D2: Lane, D3: Lane, D4: Lane, ghost L: State)
    requires a.Length == 25 && Apart(i0, i1, i2, i3, i4)
    requires a[..][i0] == L[10] && a[..][i1] == L[16] && a[..][i2] == L[22] && a[..][i3] == L[3] && a[..][i4] == L[9]
    requires D0 == ColumnD(L, 0) && D1 == ColumnD(L, 1) && D2 == ColumnD(L, 2)
    requires D3 == ColumnD(L, 3) && D4 == ColumnD(L, 4)
    modifies a
    ensures a[..] == Stored(old(a[..]), i0, i1, i2, i3, i4,
      Mixed(L, 0, 1), Mixed(L, 1, 1), Mixed(L, 2, 1), Mixed(L, 3, 1), Mixed(L, 4, 1))
  {
    Brought1(L);
    hide Xor, And, Not, Rol, ColumnD, MovedB;
    var B2 := Rol(Xor(a[i0], D0), 3);
    var B3 := Rol(Xor(a[i1], D1), 45);
    var B4 := Rol(Xor(a[i2], D2), 61);
    var B0 := Rol(Xor(a[i3], D3), 28);
    var B1 := Rol(Xor(a[i4], D4), 20);
    a[i0] := Xor(B0, And(Not(B1), B2));
    a[i1] := Xor(B1, And(Not(B2), B3));
    a[i2] := Xor(B2, And(Not(B3), B4));
    a[i3] := Xor(B3, And(Not(B4), B0));
    a[i4] := Xor(B4, And(Not(B0), B1));
  }

  /** The block of row 2: rotate the five lanes brought to it and mix them, in column order. */
  method Plane2(a: array<Lane>, i0: nat, i1: nat, i2: nat, i3: nat, i4: nat,
                 D0: Lane, D1: Lane, D2: Lane, D3: Lane, D4: Lane, ghost L: State)
    requires a.Length == 25 && Apart(i0, i1, i2, i3, i4)
    requires a[..][i0] == L[20] && a[..][i1] == L[1] && a[..][i2] == L[7] && a[..][i3] == L[13] && a[..][i4] == L[19]
    requires D0 == ColumnD(L, 0) && D1 == ColumnD(L, 1) && D2 == ColumnD(L, 2)
    requires D3 == ColumnD(L, 3) && D4 == ColumnD(L, 4)
    modifies a
    ensures a[..] == Stored(old(a[..]), i0, i1, i2, i3, i4,
      Mixed(L, 0, 2), Mixed(L, 1, 2), Mixed(L, 2, 2), Mixed(L, 3, 2), Mixed(L, 4, 2))
  {
    Brought2(L);
    hide Xor, And, Not, Rol, ColumnD, MovedB;
    var B4 := Rol(Xor(a[i0], D0), 18);
    var B0 := Rol(Xor(a[i1], D1), 1);
    var B1 := Rol(Xor(a[i2], D2), 6);
    var B2 := Rol(Xor(a[i3], D3), 25);
    var B3 := Rol(Xor(a[i4], D4), 8);
    a[i0] := Xor(B0, And(Not(B1), B2));
    a[i1] := Xor(B1, And(Not(B2), B3));
    a[i2] := Xor(B2, And(Not(B3), B4));
    a[i3] := Xor(B3, And(Not(B4), B0));
    a[i4] := Xor(B4, And(Not(B0), B1));
  }

  /** The block of row 3: rotate the five lanes brought to it and mix them, in column order. */
  method Plane3(a: array<Lane>, i0: nat, i1: nat, i2: nat, i3: nat, i4: nat,
                 D0: Lane, D1: Lane, D2: Lane, D3: Lane, D4: Lane, ghost L: State)
    requires a.Length == 25 && Apart(i0, i1, i2, i3, i4)
    requires a[..][i0] == L[5] && a[..][i1] == L[11] && a[..][i2] == L[17] && a[..][i3] == L[23] && a[..][i4] == L[4]
    requires D0 == ColumnD(L, 0) && D1 == ColumnD(L, 1) && D2 == ColumnD(L, 2)
    requires D3 == ColumnD(L, 3) && D4 == ColumnD(L, 4)
    modifies a
    ensures a[..] == Stored(old(a[..]), i0, i1, i2, i3, i4,
      Mixed(L, 0, 3), Mixed(L, 1, 3), Mixed(L, 2, 3), Mixed(L, 3, 3), Mixed(L, 4, 3))
  {
    Brought3(L);
    hide Xor, And, Not, Rol, ColumnD, MovedB;
    var B1 := Rol(Xor(a[i0], D0), 36);
    var B2 := Rol(Xor(a[i1], D1), 10);
    var B3 := Rol(Xor(a[i2], D2), 15);
    var B4 := Rol(Xor(a[i3], D3), 56);
    var B0 := Rol(Xor(a[i4], D4), 27);
    a[i0] := Xor(B0, And(Not(B1), B2));
    a[i1] := Xor(B1, And(Not(B2), B3));
    a[i2] := Xor(B2, And(Not(B3), B4));
    a[i3] := Xor(B3, And(Not(B4), B0));
    a[i4] := Xor(B4, And(Not(B0), B1));
  }

  /** The block of row 4: rotate the five lanes brought to it and mix them, in column order. */
  method Plane4(a: array<Lane>, i0: nat, i1: nat, i2: nat, i3: nat, i4: nat,
                 D0: Lane, D1: Lane, D2: Lane, D3: Lane, D4: Lane, ghost L: State)
    requires a.Length == 25 && Apart(i0, i1, i2, i3, i4)
    requires a[..][i0] == L[15] && a[..][i1] == L[21] && a[..][i2] == L[2] && a[..][i3] == L[8] && a[..][i4] == L[14]
    requires D0 == ColumnD(L, 0) && D1 == ColumnD(L, 1) && D2 == ColumnD(L, 2)
    requires D3 == ColumnD(L, 3) && D4 == ColumnD(L, 4)
    modifies a
    ensures a[..] == Stored(old(a[..]), i0, i1, i2, i3, i4,
      Mixed(L, 0, 4), Mixed(L, 1, 4), Mixed(L, 2, 4), Mixed(L, 3, 4), Mixed(L, 4, 4))
  {
    Brought4(L);
    hide Xor, And, Not, Rol, ColumnD, MovedB;
    var B3 := Rol(Xor(a[i0], D0), 41);
    var B4 := Rol(Xor(a[i1], D1), 2);
    var B0 := Rol(Xor(a[i2], D2), 62);
    var B1 := Rol(Xor(a[i3], D3), 55);
    var B2 := Rol(Xor(a[i4], D4), 39);
    a[i0] := Xor(B0, And(Not(B1), B2));
    a[i1] := Xor(B1, And(Not(B2), B3));
    a[i2] := Xor(B2, And(Not(B3), B4));
    a[i3] := Xor(B3, And(Not(B4), B0));
    a[i4] := Xor(B4, And(Not(B0), B1));
  }

  /** Column sums of unrolled round 0, lanes taken from their slots. */
  method Columns0(a: array<Lane>, ghost L: State) returns (D0: Lane, D1: Lane, D2: Lane, D3: Lane, D4: Lane)
    requires a.Length == 25 && Shows(a[..], 0, L)
    ensures D0 == ColumnD(L, 0) && D1 == ColumnD(L, 1) && D2 == ColumnD(L, 2)
    ensures D3 == ColumnD(L, 3) && D4 == ColumnD(L, 4)
  {
    Slots0(a[..], L);
    ColumnsAre(L);
    hide Xor5, XorRol, Shows, ColumnC, ColumnD;
    var C0 := Xor5(a[0], a[5], a[10], a[15], a[20]);
    var C1 := Xor5(a[1], a[6], a[11], a[16], a[21]);
    var C2 := Xor5(a[2], a[7], a[12], a[17], a[22]);
    var C3 := Xor5(a[3], a[8], a[13], a[18], a[23]);
    var C4 := Xor5(a[4], a[9], a[14], a[19], a[24]);
    D0 := XorRol(C4, C1);
    D1 := XorRol(C0, C2);
    D2 := XorRol(C1, C3);
    D3 := XorRol(C2, C4);
    D4 := XorRol(C3, C0);
  }

  method Round0(a: array<Lane>, rc: Lane, ghost L: State)
    requires a.Length == 25 && Shows(a[..], 0, L)
    modifies a
    ensures Shows(a[..], 1, LaneRnd(L, rc))
  {
    Slots0(a[..], L);
    hide Stored, Xor, ColumnD, Mixed, LaneRnd, Shows;
    var D0, D1, D2, D3, D4 := Columns0(a, L);
    Plane0(a, 0, 6, 12, 18, 24, D0, D1, D2, D3, D4, rc, L);
    Plane1(a, 10, 16, 22, 3, 9, D0, D1, D2, D3, D4, L);
    Plane2(a, 20, 1, 7, 13, 19, D0, D1, D2, D3, D4, L);
    Plane3(a, 5, 11, 17, 23, 4, D0, D1, D2, D3, D4, L);
    Plane4(a, 15, 21, 2, 8, 14, D0, D1, D2, D3, D4, L);
    MixedRows(L, rc);
    Slots1(a[..], LaneRnd(L, rc));
  }

  /** Column sums of unrolled round 1, lanes taken from their slots. */
  method Columns1(a: array<Lane>, ghost L: State) returns (D0: Lane, D1: Lane, D2: Lane, D3: Lane, D4: Lane)
    requires a.Length == 25 && Shows(a[..], 1, L)
    ensures D0 == ColumnD(L, 0) && D1 == ColumnD(L, 1) && D2 == ColumnD(L, 2)
    ensures D3 == ColumnD(L, 3) && D4 == ColumnD(L, 4)
  {
    Slots1(a[..], L);
    ColumnsAre(L);
    hide Xor5, XorRol, Shows, ColumnC, ColumnD;
    var C0 := Xor5(a[0], a[10], a[20], a[5], a[15]);
    var C1 := Xor5(a[6], a[16], a[1], a[11], a[21]);
    var C2 := Xor5(a[12], a[22], a[7], a[17], a[2]);
    var C3 := Xor5(a[18], a[3], a[13], a[23], a[8]);
    var C4 := Xor5(a[24], a[9], a[19], a[4], a[14]);
    D0 := XorRol(C4, C1);
    D1 := XorRol(C0, C2);
    D2 := XorRol(C1, C3);
    D3 := XorRol(C2, C4);
    D4 := XorRol(C3, C0);
  }

  method Round1(a: array<Lane>, rc: Lane, ghost L: State)
    requires a.Length == 25 && Shows(a[..], 1, L)
    modifies a
    ensures Shows(a[..], 2, LaneRnd(L, rc))
  {
    Slots1(a[..], L);
    hide Stored, Xor, ColumnD, Mixed, LaneRnd, Shows;
    var D0, D1, D2, D3, D4 := Columns1(a, L);
    Plane0(a, 0, 16, 7, 23, 14, D0, D1, D2, D3, D4, rc, L);
    Plane1(a, 20, 11, 2, 18, 9, D0, D1, D2, D3, D4, L);
    Plane2(a, 15, 6, 22, 13, 4, D0, D1, D2, D3, D4, L);
    Plane3(a, 10, 1, 17, 8, 24, D0, D1, D2, D3, D4, L);
    Plane4(a, 5, 21, 12, 3, 19, D0, D1, D2, D3, D4, L);
    MixedRows(L, rc);
    Slots2(a[..], LaneRnd(L, rc));
  }

  /** Column sums of unrolled round 2, lanes taken from their slots. */
  method Columns2(a: array<Lane>, ghost L: State) returns (D0: Lane, D1: Lane, D2: Lane, D3: Lane, D4: Lane)
    requires a.Length == 25 && Shows(a[..], 2, L)
    ensures D0 == ColumnD(L, 0) && D1 == ColumnD(L, 1) && D2 == ColumnD(L, 2)
    ensures D3 == ColumnD(L, 3) && D4 == ColumnD(L, 4)
  {
    Slots2(a[..], L);
    ColumnsAre(L);
    hide Xor5, XorRol, Shows, ColumnC, ColumnD;
    var C0 := Xor5(a[0], a[20], a[15], a[10], a[5]);
    var C1 := Xor5(a[16], a[11], a[6], a[1], a[21]);
    var C2 := Xor5(a[7], a[2], a[22], a[17], a[12]);
    var C3 := Xor5(a[23], a[18], a[13], a[8], a[3]);
    var C4 := Xor5(a[14], a[9], a[4], a[24], a[19]);
    D0 := XorRol(C4, C1);
    D1 := XorRol(C0, C2);
    D2 := XorRol(C1, C3);
    D3 := XorRol(C2, C4);
    D4 := XorRol(C3, C0);
  }

  method Round2(a: array<Lane>, rc: Lane, ghost L: State)
    requires a.Length == 25 && Shows(a[..], 2, L)
    modifies a
    ensures Shows(a[..], 3, LaneRnd(L, rc))
  {
    Slots2(a[..], L);
    hide Stored, Xor, ColumnD, Mixed, LaneRnd, Shows;
    var D0, D1, D2, D3, D4 := Columns2(a, L);
    Plane0(a, 0, 11, 22, 8, 19, D0, D1, D2, D3, D4, rc, L);
    Plane1(a, 15, 1, 12, 23, 9, D0, D1, D2, D3, D4, L);
    Plane2(a, 5, 16, 2, 13, 24, D0, D1, D2, D3, D4, L);
    Plane3(a, 20, 6, 17, 3, 14, D0, D1, D2, D3, D4, L);
    Plane4(a, 10, 21, 7, 18, 4, D0, D1, D2, D3, D4, L);
    MixedRows(L, rc);
    Slots3(a[..], LaneRnd(L, rc));
  }

  /** Column sums of unrolled round 3, lanes taken from their slots. */
  method Columns3(a: array<Lane>, ghost L: State) returns (D0: Lane, D1: Lane, D2: Lane, D3: Lane, D4: Lane)
    requires a.Length == 25 && Shows(a[..], 3, L)
    ensures D0 == ColumnD(L, 0) && D1 == ColumnD(L, 1) && D2 == ColumnD(L, 2)
    ensures D3 == ColumnD(L, 3) && D4 == ColumnD(L, 4)
  {
    Slots3(a[..], L);
    ColumnsAre(L);
    hide Xor5, XorRol, Shows, ColumnC, ColumnD;
    var C0 := Xor5(a[0], a[15], a[5], a[20], a[10]);
    var C1 := Xor5(a[11], a[1], a[16], a[6], a[21]);
    var C2 := Xor5(a[22], a[12], a[2], a[17], a[7]);
    var C3 := Xor5(a[8], a[23], a[13], a[3], a[18]);
    var C4 := Xor5(a[19], a[9], a[24], a[14], a[4]);
    D0 := XorRol(C4, C1);
    D1 := XorRol(C0, C2);
    D2 := XorRol(C1, C3);
    D3 := XorRol(C2, C4);
    D4 := XorRol(C3, C0);
  }

  method Round3(a: array<Lane>, rc: Lane, ghost L: State)
    requires a.Length == 25 && Shows(a[..], 3, L)
    modifies a
    ensures Shows(a[..], 4, LaneRnd(L, rc))
  {
    Slots3(a[..], L);
    hide Stored, Xor, ColumnD, Mixed, LaneRnd, Shows;
    var D0, D1, D2, D3, D4 := Columns3(a, L);
    Plane0(a, 0, 1, 2, 3, 4, D0, D1, D2, D3, D4, rc, L);
    Plane1(a, 5, 6, 7, 8, 9, D0, D1, D2, D3, D4, L);
    Plane2(a, 10, 11, 12, 13, 14, D0, D1, D2, D3, D4, L);
    Plane3(a, 15, 16, 17, 18, 19, D0, D1, D2, D3, D4, L);
    Plane4(a, 20, 21, 22, 23, 24, D0, D1, D2, D3, D4, L);
    MixedRows(L, rc);
    Slots4(a[..], LaneRnd(L, rc));
  }

  /** The rounds of one application, run lane-wise with the constants of the table. */
  function LaneRounds(L: State, n: nat): State
    requires n <= 24
  {
    if n == 0 then L else LaneRnd(LaneRounds(L, n - 1), Word(RC(n - 1)))
  }

  lemma LaneRoundsNext(L: State, n: nat)
    requires n < 24
    ensures LaneRounds(L, n + 1) == LaneRnd(LaneRounds(L, n), Word(RC(n)))
  {
  }

  lemma NextRoundIsRnd(L: State, k: nat)
    requires k < 24
    ensures LaneRnd(L, Word(RC(k))) == Rnd(L, k)
  {
    hide LaneRnd, Rnd, Word, RC, RoundConstantBit;
    forall z | 0 <= z < 64 ensures Word(RC(k))[z] == RoundConstantBit(k, z) {
      TableIsGenerated(k, z);
    }
    LaneRoundIsRnd(L, Word(RC(k)), k);
  }

  lemma {:induction false} LaneRoundsAreRounds(L: State, n: nat)
    requires n <= 24
    ensures LaneRounds(L, n) == Rounds(L, n)
  {
    hide LaneRnd, Rnd, Word, RC;
    if n > 0 {
      LaneRoundsAreRounds(L, n - 1);
      NextRoundIsRnd(Rounds(L, n - 1), n - 1);
    }
  }

  /** Four unrolled rounds, from and to lanes in their own slots. */
  method FourRounds(a: array<Lane>, i: nat, ghost L: State)
    requires i + 4 <= 24 && a.Length == 25 && a[..] == LaneRounds(L, i)
    modifies a
    ensures a[..] == LaneRounds(L, i + 4)
  {
    hide LaneRnd, Shows, Word, RC, LaneRounds;
    HomeSlots(a[..], a[..]);
    LaneRoundsNext(L, i);
    LaneRoundsNext(L, i + 1);
    LaneRoundsNext(L, i + 2);
    LaneRoundsNext(L, i + 3);
    Round0(a, Word(RC(i)), a[..]);
    Round1(a, Word(RC(i + 1)), LaneRounds(L, i + 1));
    Round2(a, Word(RC(i + 2)), LaneRounds(L, i + 2));
    Round3(a, Word(RC(i + 3)), LaneRounds(L, i + 3));
    HomeAgain(a[..], LaneRounds(L, i + 4));
    HomeSlots(a[..], LaneRounds(L, i + 4));
  }

  /** KeccakF1600Step: 24 rounds in place, four to an iteration. */
  method KeccakF1600Step(a: array<Lane>)
    requires a.Length == 25
    modifies a
    ensures a[..] == KeccakF(old(a[..]))
  {
    hide LaneRnd, Rounds;
    ghost var s: State := a[..];
    var i := 0;
    while i < 24
      invariant 0 <= i <= 24 && i % 4 == 0
      invariant a[..] == LaneRounds(s, i)
    {
      FourRounds(a, i, s);
      i := i + 4;
    }
    LaneRoundsAreRounds(s, 24);
  }

  lemma HomeSlots(s: seq<Lane>, L: State)
    requires |s| == 25
    ensures Shows(s, 0, L) <==> s == L
  {
  }

  /** After four rounds the lanes are back in their own slots. */
  lemma HomeAgain(s: seq<Lane>, L: State)
    requires |s| == 25 && Shows(s, 4, L)
    ensures Shows(s, 0, L)
  {
  }
}
