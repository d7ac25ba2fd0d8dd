/** The formats byte by byte: coefficient BLOBs, and the stream that sha3_query() hashes. */
module Layouts {
  import opened Bytes
  import opened PolynomialBlob
  import Q = QueryStream

  /** Byte j of a number in base 256, the lowest first. */
  function Digit256(u: nat, j: nat): byte {
    if j == 0 then u % 256 else Digit256(u / 256, j - 1)
  }

  lemma {:induction false} BigEndianAt(u: nat, n: nat, j: nat)
    requires j < n
    ensures BigEndian(u, n)[j] == Digit256(u, n - 1 - j)
  {
    if j < n - 1 {
      BigEndianAt(u / 256, n - 1, j);
      assert BigEndian(u, n)[j] == BigEndian(u / 256, n - 1)[j];
    } else {
      assert BigEndian(u, n)[j] == u % 256;
    }
  }

  /** Numbers in a BLOB are little-endian, whichever machine writes them. */
  lemma ExportAt(u: nat, n: nat, arch: bool, j: nat)
    requires j < n
    ensures Export(u, n, true, arch)[j] == Digit256(u, j)
  {
    hide BigEndian, Digit256;
    BigEndianAt(u, n, n - 1 - j);
    ExportIsReversed(u, n, arch);
  }

  lemma ExportIsReversed(u: nat, n: nat, arch: bool)
    ensures Export(u, n, true, arch) == Reverse(BigEndian(u, n))
  {
    hide BigEndian, Reverse;
  }

  // ----- coefficient BLOBs -----

  /** Ten bytes of header, a delimiter in front of each double, and the end mark. */
  lemma BlobBytes(kind: byte, order: byte, count: nat, words: seq<Word64>, arch: bool)
    ensures var b := Blob(kind, order, count, words, arch);
      && |b| == 11 + 9 * |words|
      && b[0] == 0x00 && b[1] == 0x01 && b[2] == kind && b[3] == 0x6A && b[4] == order && b[5] == 0x6A
      && (forall j | 0 <= j < 4 :: b[6 + j] == Digit256(count, j))
      && (forall k | 0 <= k < |words| :: b[10 + 9 * k] == 0x6A)
      && (forall k, j | 0 <= k < |words| && 0 <= j < 8 :: b[11 + 9 * k + j] == Digit256(words[k], j))
      && b[10 + 9 * |words|] == 0x63
  {
    var b := Blob(kind, order, count, words, arch);
    assert b[0] == 0x00 && b[1] == 0x01 && b[2] == kind && b[3] == 0x6A && b[4] == order && b[5] == 0x6A;
    assert b[6..10] == Export(count, 4, true, arch);
    assert b[10 + 9 * |words|] == 0x63;
    hide Blob, Export, Digit256;
    forall j | 0 <= j < 4 ensures b[6 + j] == Digit256(count, j) {
      ExportAt(count, 4, arch, j);
      assert b[6 + j] == b[6..10][j];
    }
    forall k | 0 <= k < |words| ensures b[10 + 9 * k] == 0x6A {
      BlobAt(kind, order, count, words, arch, k);
    }
    forall k, j | 0 <= k < |words| && 0 <= j < 8 ensures b[11 + 9 * k + j] == Digit256(words[k], j) {
      BlobAt(kind, order, count, words, arch, k);
      ExportAt(words[k], 8, arch, j);
      assert b[11 + 9 * k + j] == b[11 + 9 * k..19 + 9 * k][j];
    }
  }

  /** Double number k of a blob is the little-endian number at its place. */
  ghost predicate HasWord(b: seq<byte>, k: nat, w: Word64) {
    |b| >= 20 + 9 * k && forall j | 0 <= j < 8 :: b[11 + 9 * k + j] == Digit256(w, j)
  }

  /** Start mark, little-endian flag, kind, order and little-endian count, delimiters between them; the end mark. */
  ghost predicate HasHeader(b: seq<byte>, kind: byte, order: byte, count: nat, doubles: nat) {
    && |b| == 11 + 9 * doubles
    && b[0] == 0x00 && b[1] == 0x01 && b[2] == kind && b[3] == 0x6A && b[4] == order && b[5] == 0x6A
    && b[6] == Digit256(count, 0) && b[7] == Digit256(count, 1) && b[8] == Digit256(count, 2)
    && b[9] == Digit256(count, 3) && b[|b| - 1] == 0x63
    && forall k | 0 <= k < doubles :: b[10 + 9 * k] == 0x6A
  }

  lemma HeaderThere(kind: byte, order: byte, count: nat, words: seq<Word64>, arch: bool)
    ensures HasHeader(Blob(kind, order, count, words, arch), kind, order, count, |words|)
  {
    BlobBytes(kind, order, count, words, arch);
    hide Blob, Digit256;
    var b := Blob(kind, order, count, words, arch);
    assert b[6 + 0] == Digit256(count, 0) && b[6 + 1] == Digit256(count, 1);
    assert b[6 + 2] == Digit256(count, 2) && b[6 + 3] == Digit256(count, 3);
  }

  lemma WordsThere(kind: byte, order: byte, count: nat, words: seq<Word64>, arch: bool, k: nat)
    requires k < |words|
    ensures HasWord(Blob(kind, order, count, words, arch), k, words[k])
  {
    BlobBytes(kind, order, count, words, arch);
    hide Blob, Digit256;
  }

  /** A plane polynomial: kind 0x3E; 3, 6 or 10 pairs of easting and northing coefficients. */
  lemma Blob2DBytes(E: seq<Word64>, N: seq<Word64>, order: byte, arch: bool, i: nat)
    requires 1 <= order <= 3 && Terms(POLYNOMIAL_2D, order) <= |E| && Terms(POLYNOMIAL_2D, order) <= |N|
    requires i < (if order == 1 then 3 else if order == 2 then 6 else 10)
    ensures i < |E| && i < |N|
    ensures var b := Blob2D(E, N, order, arch);
      && HasHeader(b, 0x3E, order, 0, if order == 1 then 6 else if order == 2 then 12 else 20)
      && HasWord(b, 2 * i, E[i]) && HasWord(b, 2 * i + 1, N[i])
  {
    hide Blob, HasWord, HasHeader, Pairs;
    PairsBlob(E, N, Terms(POLYNOMIAL_2D, order), order, arch, i);
  }

  lemma PairsBlob(E: seq<Word64>, N: seq<Word64>, n: nat, order: byte, arch: bool, i: nat)
    requires i < n <= |E| && n <= |N|
    ensures var b := Blob(POLYNOMIAL_2D, order, 0, Pairs(E, N, n), arch);
      HasHeader(b, 0x3E, order, 0, 2 * n) && HasWord(b, 2 * i, E[i]) && HasWord(b, 2 * i + 1, N[i])
  {
    hide Blob, HasWord, HasHeader, Pairs;
    var w := Pairs(E, N, n);
    PairWords(E, N, n, i);
    HeaderThere(POLYNOMIAL_2D, order, 0, w, arch);
    WordsThere(POLYNOMIAL_2D, order, 0, w, arch, 2 * i);
    WordsThere(POLYNOMIAL_2D, order, 0, w, arch, 2 * i + 1);
  }

  /** A polynomial in space: kind 0x3D; 4, 10 or 20 triples of easting, northing and height coefficients. */
  lemma Blob3DBytes(E: seq<Word64>, N: seq<Word64>, Z: seq<Word64>, order: byte, arch: bool, i: nat)
    requires 1 <= order <= 3
    requires var n := Terms(POLYNOMIAL_3D, order); n <= |E| && n <= |N| && n <= |Z|
    requires i < (if order == 1 then 4 else if order == 2 then 10 else 20)
    ensures i < |E| && i < |N| && i < |Z|
    ensures var b := Blob3D(E, N, Z, order, arch);
      && HasHeader(b, 0x3D, order, 0, if order == 1 then 12 else if order == 2 then 30 else 60)
      && HasWord(b, 3 * i, E[i]) && HasWord(b, 3 * i + 1, N[i]) && HasWord(b, 3 * i + 2, Z[i])
  {
    hide Blob, HasWord, HasHeader, Triples;
    TriplesBlob(E, N, Z, Terms(POLYNOMIAL_3D, order), order, arch, i);
  }

  lemma TriplesBlob(E: seq<Word64>, N: seq<Word64>, Z: seq<Word64>, n: nat, order: byte, arch: bool, i: nat)
    requires i < n <= |E| && n <= |N| && n <= |Z|
    ensures var b := Blob(POLYNOMIAL_3D, order, 0, Triples(E, N, Z, n), arch);
      HasHeader(b, 0x3D, order, 0, 3 * n)
      && HasWord(b, 3 * i, E[i]) && HasWord(b, 3 * i + 1, N[i]) && HasWord(b, 3 * i + 2, Z[i])
  {
    hide Blob, HasWord, HasHeader, Triples;
    var w := Triples(E, N, Z, n);
    TripleWords(E, N, Z, n, i);
    HeaderThere(POLYNOMIAL_3D, order, 0, w, arch);
    WordsThere(POLYNOMIAL_3D, order, 0, w, arch, 3 * i);
    WordsThere(POLYNOMIAL_3D, order, 0, w, arch, 3 * i + 1);
    WordsThere(POLYNOMIAL_3D, order, 0, w, arch, 3 * i + 2);
  }

  lemma TripleWords(E: seq<Word64>, N: seq<Word64>, Z: seq<Word64>, n: nat, i: nat)
    requires i < n <= |E| && n <= |N| && n <= |Z|
    ensures var w := Triples(E, N, Z, n); w[3 * i] == E[i] && w[3 * i + 1] == N[i] && w[3 * i + 2] == Z[i]
  {
  }

  /** A spline: kind 0x3F, order 1, the count; pairs of weights, then source and target of every control point. */
  lemma BlobTpsBytes(E: seq<Word64>, N: seq<Word64>, p: Points, count: nat, arch: bool, i: nat, j: nat)
    requires count + 3 <= |E| && count + 3 <= |N| && PointsOf(p, count) && i < count + 3 && j < count
    ensures var b, q := BlobTps(E, N, p, count, arch), 2 * (count + 3);
      && HasHeader(b, 0x3F, 1, count, 6 * count + 6)
      && HasWord(b, 2 * i, E[i]) && HasWord(b, 2 * i + 1, N[i])
      && HasWord(b, q + 4 * j, p.e1[j]) && HasWord(b, q + 4 * j + 1, p.n1[j])
      && HasWord(b, q + 4 * j + 2, p.e2[j]) && HasWord(b, q + 4 * j + 3, p.n2[j])
  {
    hide Blob, HasWord, Quads, Pairs, HasHeader;
    var w1, w2 := Pairs(E, N, count + 3), Quads(p.e1, p.n1, p.e2, p.n2, count);
    HeaderThere(THIN_PLATE_SPLINE, 1, count, w1 + w2, arch);
    PairWords(E, N, count + 3, i);
    QuadAt(p.e1, p.n1, p.e2, p.n2, count, j);
    TpsWord(w1, w2, count, arch, 2 * i, E[i]);
    TpsWord(w1, w2, count, arch, 2 * i + 1, N[i]);
    TpsPoint(w1, w2, count, arch, 4 * j, p.e1[j]);
    TpsPoint(w1, w2, count, arch, 4 * j + 1, p.n1[j]);
    TpsPoint(w1, w2, count, arch, 4 * j + 2, p.e2[j]);
    TpsPoint(w1, w2, count, arch, 4 * j + 3, p.n2[j]);
  }

  lemma PairWords(E: seq<Word64>, N: seq<Word64>, n: nat, i: nat)
    requires i < n <= |E| && n <= |N|
    ensures var w := Pairs(E, N, n); w[2 * i] == E[i] && w[2 * i + 1] == N[i]
  {
  }

  lemma TpsWord(w1: seq<Word64>, w2: seq<Word64>, count: nat, arch: bool, k: nat, x: Word64)
    requires k < |w1| && w1[k] == x
    ensures HasWord(Blob(THIN_PLATE_SPLINE, 1, count, w1 + w2, arch), k, x)
  {
    hide Blob, HasWord;
    WordsThere(THIN_PLATE_SPLINE, 1, count, w1 + w2, arch, k);
  }

  lemma TpsPoint(w1: seq<Word64>, w2: seq<Word64>, count: nat, arch: bool, k: nat, x: Word64)
    requires k < |w2| && w2[k] == x
    ensures HasWord(Blob(THIN_PLATE_SPLINE, 1, count, w1 + w2, arch), |w1| + k, x)
  {
    hide Blob, HasWord;
    WordsThere(THIN_PLATE_SPLINE, 1, count, w1 + w2, arch, |w1| + k);
  }

  // ----- reading any BLOB -----

  lemma {:induction false} FromBigEndianAt(s: seq<byte>, j: nat)
    requires j < |s|
    ensures Digit256(FromBigEndian(s), j) == s[|s| - 1 - j]
  {
    var u := FromBigEndian(s[..|s| - 1]);
    LowDigit(u, s[|s| - 1]);
    if j > 0 {
      FromBigEndianAt(s[..|s| - 1], j - 1);
    }
  }

  lemma LowDigit(u: nat, b: byte)
    ensures (256 * u + b as int) % 256 == b as int && (256 * u + b as int) / 256 == u
  {
  }

  /** A number is read in the byte order that the flag names, whichever machine reads it. */
  lemma ImportAt(s: seq<byte>, little: bool, arch: bool, j: nat)
    requires j < |s|
    ensures Digit256(Import(s, little, arch), j) == s[if little then j else |s| - 1 - j]
  {
    ImportIs(s, little, arch);
    hide Import, Digit256, FromBigEndian;
    FromBigEndianAt(s, j);
    FromBigEndianAt(Reverse(s), j);
  }

  lemma ImportIs(s: seq<byte>, little: bool, arch: bool)
    ensures Import(s, little, arch) == FromBigEndian(if little then Reverse(s) else s)
  {
    assert Reverse(Reverse(s)) == s;
    hide FromBigEndian, Reverse;
  }

  /** Double number k of any blob, by its bytes. */
  lemma WordBytesAre(blob: seq<byte>, k: nat, arch: bool, j: nat)
    requires |blob| >= 19 + 9 * k && j < 8
    ensures Digit256(WordAt(blob, k, arch), j) == blob[11 + 9 * k + if blob[1] == 1 then j else 7 - j]
  {
    ImportAt(blob[11 + 9 * k..19 + 9 * k], blob[1] == 1, arch, j);
    hide Import, Digit256;
  }

  /** The count of any blob, in two's complement. */
  lemma CountBytesAre(blob: seq<byte>, arch: bool, j: nat)
    requires |blob| >= 11 && j < 4
    ensures var n := Count(blob, arch);
      && -0x8000_0000 <= n < 0x8000_0000
      && Digit256(if n < 0 then n + 0x1_0000_0000 else n, j) == blob[6 + if blob[1] == 1 then j else 3 - j]
  {
    assert Pow256(4) == 0x1_0000_0000;
    ImportAt(blob[6..10], blob[1] == 1, arch, j);
    hide Import, Digit256;
  }

  /** The length of a blob of each kind and order. */
  predicate RightLength(blob: seq<byte>, arch: bool)
    requires |blob| >= 11
  {
    match blob[2]
    case 0x3E => |blob| == if blob[4] == 2 then 119 else if blob[4] == 3 then 191 else 65
    case 0x3D => |blob| == if blob[4] == 2 then 281 else if blob[4] == 3 then 551 else 119
    case 0x3F => Count(blob, arch) >= 0 && |blob| == 65 + 54 * Count(blob, arch)
    case _ => false
  }

  /** What makes any bytes a valid blob: marks, flag, kind, order up to 3, length, every delimiter and the end. */
  lemma ValidExactly(blob: seq<byte>, arch: bool)
    ensures IsValid(blob, arch) <==>
      && 11 <= |blob| < 0x8000_0000 && blob[0] == 0x00 && (blob[1] == 0x00 || blob[1] == 0x01) && blob[4] <= 3
      && RightLength(blob, arch) && blob[|blob| - 1] == 0x63
      && forall k | 0 <= k < (|blob| - 11) / 9 :: blob[10 + 9 * k] == 0x6A
  {
    hide Count;
    if forall k | 0 <= k < (|blob| - 11) / 9 :: blob[10 + 9 * k] == 0x6A {
      forall k | 0 <= k < (|blob| - 11) / 9 ensures Delimited(blob, k) {
      }
    }
    if IsValid(blob, arch) {
      forall k | 0 <= k < (|blob| - 11) / 9 ensures blob[10 + 9 * k] == 0x6A {
        assert Delimited(blob, k);
      }
    }
  }

  // ----- the hashed stream -----

  /** A letter, a numeral, a colon and that many bytes. */
  function Sized(letter: byte, s: seq<byte>): seq<byte> {
    [letter] + Decimal(|s|) + [58] + s
  }

  /** Eight bytes, the highest first. */
  ghost predicate HighestFirst(s: seq<byte>, u: Word64) {
    |s| == 8 && forall j | 0 <= j < 8 :: s[j] == Digit256(u, 7 - j)
  }

  /** S, R, N, I, F, T and B: what each piece of a result adds to the stream. */
  lemma SegmentLayout(g: Q.Segment)
    requires g.Sql? ==> Q.SizeFits(g.sql)
    requires g.Column? ==> Q.CellFits(g.c)
    ensures g.Sql? ==> Q.SegmentBytes(g) == Sized(83, g.sql)
    ensures g.Row? ==> Q.SegmentBytes(g) == [82]
    ensures g.Column? && g.c.Null? ==> Q.SegmentBytes(g) == [78]
    ensures g.Column? && g.c.Text? ==> Q.SegmentBytes(g) == Sized(84, g.c.t)
    ensures g.Column? && g.c.Blob? ==> Q.SegmentBytes(g) == Sized(66, g.c.b)
    ensures g.Column? && (g.c.Integer? || g.c.Float?) ==>
      var u := if g.c.Float? then g.c.bits else if g.c.v < 0 then g.c.v + 0x1_0000_0000_0000_0000 else g.c.v;
      Q.SegmentBytes(g) == [if g.c.Float? then 70 else 73] + Q.SegmentBytes(g)[1..]
      && HighestFirst(Q.SegmentBytes(g)[1..], u)
  {
    hide Decimal, HighestFirst, BigEndian;
    match g
    case Sql(sql) => StepShort(83, |sql|);
    case Row =>
    case Column(c) =>
      match c
      case Text(t) => StepShort(84, |t|);
      case Blob(b) => StepShort(66, |b|);
      case Null =>
      case Integer(v) => NumberBytes(73, Q.Pattern(v));
      case Float(u) => NumberBytes(70, u);
  }

  lemma NumberBytes(letter: byte, u: Word64)
    ensures var s := [letter] + BigEndian(u, 8); s == [letter] + s[1..] && HighestFirst(s[1..], u)
  {
    hide Digit256, BigEndian;
    var b := BigEndian(u, 8);
    assert ([letter] + b)[1..] == b;
    forall j | 0 <= j < 8 ensures b[j] == Digit256(u, 7 - j) {
      BigEndianAt(u, 8, j);
    }
  }

  /** Sizes have at most ten digits, so nothing is cut off. */
  lemma StepShort(letter: byte, n: nat)
    requires n < 0x8000_0000
    ensures Q.Step(letter, n) == [letter] + Decimal(n) + [58]
  {
    assert Pow10(10) == 10000000000;
    DecimalLength(n, 10, 10000000000);
    hide Decimal;
  }

  /** A statement's part of the stream: its text, then for each row an R and the columns. */
  function RowBytes(row: seq<Q.Cell>): seq<byte> {
    if |row| == 0 then [] else RowBytes(row[..|row| - 1]) + Q.SegmentBytes(Q.Column(row[|row| - 1]))
  }

  function RowsBytes(rows: seq<seq<Q.Cell>>): seq<byte> {
    if |rows| == 0 then [] else RowsBytes(rows[..|rows| - 1]) + ([82] + RowBytes(rows[|rows| - 1]))
  }

  function StreamBytes(sts: seq<Q.Statement>): seq<byte> {
    if |sts| == 0 then []
    else
      var st := sts[|sts| - 1];
      StreamBytes(sts[..|sts| - 1]) + (Sized(83, st.sql) + RowsBytes(st.rows))
  }

  lemma {:induction false} EncodeAppends(a: seq<Q.Segment>, b: seq<Q.Segment>)
    ensures Q.Encode(a + b) == Q.Encode(a) + Q.Encode(b)
    decreases |b|
  {
    hide Q.SegmentBytes;
    if |b| == 0 {
      assert a + b == a;
    } else {
      var n := |b| - 1;
      assert (a + b)[..|a + b| - 1] == a + b[..n];
      EncodeAppends(a, b[..n]);
    }
  }

  lemma EncodeOne(g: Q.Segment)
    ensures Q.Encode([g]) == Q.SegmentBytes(g)
  {
    assert [g][..0] == [];
    assert Q.Encode([]) == [];
    hide Q.SegmentBytes;
  }

  lemma {:induction false} RowLayout(row: seq<Q.Cell>)
    ensures Q.Encode(Q.RowSegments(row)) == RowBytes(row)
  {
    hide Q.SegmentBytes;
    if |row| > 0 {
      RowLayout(row[..|row| - 1]);
      EncodeAppends(Q.RowSegments(row[..|row| - 1]), [Q.Column(row[|row| - 1])]);
      EncodeOne(Q.Column(row[|row| - 1]));
      hide Q.Encode;
    }
  }

  lemma {:induction false} RowsLayout(rows: seq<seq<Q.Cell>>)
    ensures Q.Encode(Q.RowsSegments(rows)) == RowsBytes(rows)
  {
    if |rows| > 0 {
      var n := |rows| - 1;
      RowsLayout(rows[..n]);
      RowLayout(rows[n]);
      EncodeOne(Q.Row);
      EncodeAppends([Q.Row], Q.RowSegments(rows[n]));
      EncodeAppends(Q.RowsSegments(rows[..n]), [Q.Row] + Q.RowSegments(rows[n]));
      hide Q.Encode, Q.RowSegments, RowBytes;
    }
  }

  /** The whole stream, statement after statement and row after row. */
  lemma {:induction false} StreamLayout(sts: seq<Q.Statement>)
    requires forall i | 0 <= i < |sts| :: Q.SizeFits(sts[i].sql)
    ensures Q.Stream(sts) == StreamBytes(sts)
  {
    if |sts| > 0 {
      var n := |sts| - 1;
      var st := sts[n];
      StreamLayout(sts[..n]);
      SegmentLayout(Q.Sql(st.sql));
      RowsLayout(st.rows);
      EncodeOne(Q.Sql(st.sql));
      EncodeAppends([Q.Sql(st.sql)], Q.RowsSegments(st.rows));
      EncodeAppends(Q.Segments(sts[..n]), [Q.Sql(st.sql)] + Q.RowsSegments(st.rows));
      hide Q.Encode, Q.SegmentBytes, Sized, RowsBytes, Q.RowsSegments;
    }
  }
}
