/** The BLOB that carries georeferencing coefficients (gaia_control_points.c). A double is its 64-bit pattern. */
module PolynomialBlob {
  import opened Bytes
  import opened Options

  const MAGIC_START: byte := 0x00
  const MAGIC_DELIMITER: byte := 0x6A
  const MAGIC_END: byte := 0x63
  const THIN_PLATE_SPLINE: byte := 0x3F
  const POLYNOMIAL_2D: byte := 0x3E
  const POLYNOMIAL_3D: byte := 0x3D

  /** The most control points whose blob still has a length that an int can hold. */
  const MAX_POINTS := 39768214

  // ----- gaiaExport32/64 and gaiaImport32/64 -----

  function Reverse(s: seq<byte>): (r: seq<byte>)
    ensures |r| == |s|
  {
    seq(|s|, i requires 0 <= i < |s| => s[|s| - 1 - i])
  }

  /** n bytes of u as a machine of either byte order holds them. */
  function Memory(u: nat, n: nat, littleArch: bool): (s: seq<byte>)
    ensures |s| == n
  {
    if littleArch then Reverse(BigEndian(u, n)) else BigEndian(u, n)
  }

  function Export(u: nat, n: nat, little: bool, littleArch: bool): (s: seq<byte>)
    ensures |s| == n
  {
    var mem := Memory(u, n, littleArch);
    if little == littleArch then mem else Reverse(mem)
  }

  function Import(s: seq<byte>, little: bool, littleArch: bool): (u: nat)
    ensures u < Pow256(|s|)
  {
    var mem := if little == littleArch then s else Reverse(s);
    FromBigEndian(if littleArch then Reverse(mem) else mem)
  }

  /** What one machine writes another reads, whatever the byte order of either. */
  lemma ExportImport(u: nat, n: nat, little: bool, writer: bool, reader: bool)
    requires u < Pow256(n)
    ensures Import(Export(u, n, little, writer), little, reader) == u
  {
    hide BigEndian, FromBigEndian, Pow256, Reverse;
    BigEndianRoundTrip(u, n);
    ReverseTwice(BigEndian(u, n));
  }

  lemma ReverseTwice(s: seq<byte>)
    ensures Reverse(Reverse(s)) == s
  {
  }

  // ----- the layout -----

  function Header(kind: byte, order: byte, count: nat, arch: bool): (s: seq<byte>)
    ensures |s| == 10
  {
    [MAGIC_START, 1, kind, MAGIC_DELIMITER, order, MAGIC_DELIMITER] + Export(count, 4, true, arch)
  }

  /** Every double behind a delimiter. */
  function Body(words: seq<Word64>, arch: bool): (s: seq<byte>)
    ensures |s| == 9 * |words|
  {
    if |words| == 0 then []
    else Body(words[..|words| - 1], arch) + ([MAGIC_DELIMITER] + Export(words[|words| - 1], 8, true, arch))
  }

  function Blob(kind: byte, order: byte, count: nat, words: seq<Word64>, arch: bool): (s: seq<byte>)
    ensures |s| == 11 + 9 * |words|
  {
    Header(kind, order, count, arch) + Body(words, arch) + [MAGIC_END]
  }

  function Pairs(E: seq<Word64>, N: seq<Word64>, n: nat): (w: seq<Word64>)
    requires n <= |E| && n <= |N|
    ensures |w| == 2 * n
  {
    seq(2 * n, k requires 0 <= k < 2 * n => if k % 2 == 0 then E[k / 2] else N[k / 2])
  }

  function Triples(E: seq<Word64>, N: seq<Word64>, Z: seq<Word64>, n: nat): (w: seq<Word64>)
    requires n <= |E| && n <= |N| && n <= |Z|
    ensures |w| == 3 * n
  {
    seq(3 * n, k requires 0 <= k < 3 * n => if k % 3 == 0 then E[k / 3] else if k % 3 == 1 then N[k / 3] else Z[k / 3])
  }

  function Quads(a: seq<Word64>, b: seq<Word64>, c: seq<Word64>, d: seq<Word64>, n: nat): (w: seq<Word64>)
    requires n <= |a| && n <= |b| && n <= |c| && n <= |d|
    ensures |w| == 4 * n
  {
    seq(4 * n, k requires 0 <= k < 4 * n =>
      if k % 4 == 0 then a[k / 4] else if k % 4 == 1 then b[k / 4] else if k % 4 == 2 then c[k / 4] else d[k / 4])
  }

  /** How many terms a coordinate has. */
  function Terms(kind: byte, order: byte): nat {
    if kind == THIN_PLATE_SPLINE then 0
    else if kind == POLYNOMIAL_2D then if order == 2 then 6 else if order == 3 then 10 else 3
    else if order == 2 then 10 else if order == 3 then 20 else 4
  }

  /** How many doubles a blob of this kind holds. */
  function Words(kind: byte, order: byte, count: nat): nat {
    if kind == THIN_PLATE_SPLINE then 2 * (count + 3) + 4 * count
    else if kind == POLYNOMIAL_2D then 2 * Terms(kind, order)
    else 3 * Terms(kind, order)
  }

  /** blob_encode_2d, blob_encode_3d and blob_encode_tps */
  function Blob2D(E: seq<Word64>, N: seq<Word64>, order: byte, arch: bool): seq<byte>
    requires Terms(POLYNOMIAL_2D, order) <= |E| && Terms(POLYNOMIAL_2D, order) <= |N|
  {
    Blob(POLYNOMIAL_2D, order, 0, Pairs(E, N, Terms(POLYNOMIAL_2D, order)), arch)
  }

  function Blob3D(E: seq<Word64>, N: seq<Word64>, Z: seq<Word64>, order: byte, arch: bool): seq<byte>
    requires var n := Terms(POLYNOMIAL_3D, order); n <= |E| && n <= |N| && n <= |Z|
  {
    Blob(POLYNOMIAL_3D, order, 0, Triples(E, N, Z, Terms(POLYNOMIAL_3D, order)), arch)
  }

  /** Control points as stored: source and target coordinates. */
  datatype Points = Points(e1: seq<Word64>, n1: seq<Word64>, e2: seq<Word64>, n2: seq<Word64>)

  predicate PointsOf(p: Points, count: nat) {
    |p.e1| == count && |p.n1| == count && |p.e2| == count && |p.n2| == count
  }

  function BlobTps(E: seq<Word64>, N: seq<Word64>, p: Points, count: nat, arch: bool): seq<byte>
    requires count + 3 <= |E| && count + 3 <= |N| && PointsOf(p, count)
  {
    Blob(THIN_PLATE_SPLINE, 1, count, Pairs(E, N, count + 3) + Quads(p.e1, p.n1, p.e2, p.n2, count), arch)
  }

  // ----- reading -----

  /** struct cp_coeffs as far as the blob fills it. */
  datatype Coeffs = Coeffs(
    kind: byte, order: byte, E: seq<Word64>, N: seq<Word64>, Z: seq<Word64>, points: Points, status: seq<int>)

  /** A signed 32-bit count. */
  function Count(blob: seq<byte>, arch: bool): int
    requires |blob| >= 11
  {
    var u := Import(blob[6..10], blob[1] == 1, arch);
    if u >= 0x8000_0000 then u - 0x1_0000_0000 else u
  }

  /** Double number k. */
  function WordAt(blob: seq<byte>, k: nat, arch: bool): Word64
    requires |blob| >= 19 + 9 * k
  {
    assert Pow256(8) == 0x1_0000_0000_0000_0000;
    Import(blob[11 + 9 * k..19 + 9 * k], blob[1] == 1, arch)
  }

  predicate KnownKind(kind: byte) {
    kind == THIN_PLATE_SPLINE || kind == POLYNOMIAL_2D || kind == POLYNOMIAL_3D
  }

  /** A blob of a known kind, as long as its kind, order and count say. */
  predicate WellSized(blob: seq<byte>, arch: bool) {
    && 11 <= |blob| < 0x8000_0000 && blob[0] == MAGIC_START && blob[1] <= 1 && KnownKind(blob[2])
    && (blob[2] == THIN_PLATE_SPLINE ==> Count(blob, arch) >= 0)
    && |blob| == 11 + 9 * Words(blob[2], blob[4], if blob[2] == THIN_PLATE_SPLINE then Count(blob, arch) else 0)
  }

  /** What a valid blob is: a length that fits, every delimiter and the end mark. */
  predicate IsValid(blob: seq<byte>, arch: bool) {
    && WellSized(blob, arch) && blob[4] <= 3
    && (forall k {:trigger Delimited(blob, k)} | 0 <= k < (|blob| - 11) / 9 :: Delimited(blob, k))
    && blob[|blob| - 1] == MAGIC_END
  }

  predicate Delimited(blob: seq<byte>, k: nat) {
    10 + 9 * k < |blob| && blob[10 + 9 * k] == MAGIC_DELIMITER
  }

  /** The doubles numbered from, from + step, ... */
  function Column(blob: seq<byte>, from: nat, step: nat, n: nat, arch: bool): (w: seq<Word64>)
    requires n > 0 ==> |blob| >= 19 + 9 * (from + step * (n - 1))
    ensures |w| == n
  {
    seq(n, i requires 0 <= i < n => WordOr(blob, from + step * i, arch))
  }

  function WordOr(blob: seq<byte>, k: nat, arch: bool): Word64 {
    if |blob| >= 19 + 9 * k then WordAt(blob, k, arch) else 0
  }

  /** What a well-sized blob of order 1 to 3 says. */
  function Decode(blob: seq<byte>, arch: bool): Option<Coeffs> {
    if !WellSized(blob, arch) || blob[4] < 1 || blob[4] > 3 then None
    else
      var kind, order := blob[2], blob[4];
      if kind == THIN_PLATE_SPLINE then
        var n := Count(blob, arch);
        var q := 2 * (n + 3);
        Some(Coeffs(kind, order, Column(blob, 0, 2, n + 3, arch), Column(blob, 1, 2, n + 3, arch), [],
          Points(Column(blob, q, 4, n, arch), Column(blob, q + 1, 4, n, arch),
                 Column(blob, q + 2, 4, n, arch), Column(blob, q + 3, 4, n, arch)), seq(n, _ => 1)))
      else if kind == POLYNOMIAL_2D then
        var n := Terms(kind, order);
        Some(Coeffs(kind, order, Column(blob, 0, 2, n, arch), Column(blob, 1, 2, n, arch), [],
          Points([], [], [], []), []))
      else
        var n := Terms(kind, order);
        Some(Coeffs(kind, order, Column(blob, 0, 3, n, arch), Column(blob, 1, 3, n, arch), Column(blob, 2, 3, n, arch),
          Points([], [], [], []), []))
  }

  // ----- what is written is valid and comes back -----

  lemma {:induction false} BodyAt(words: seq<Word64>, arch: bool, k: nat)
    requires k < |words|
    ensures Body(words, arch)[9 * k] == MAGIC_DELIMITER
    ensures Body(words, arch)[9 * k + 1..9 * k + 9] == Export(words[k], 8, true, arch)
  {
    hide Export;
    var n := |words| - 1;
    var rest, last := Body(words[..n], arch), [MAGIC_DELIMITER] + Export(words[n], 8, true, arch);
    if k < n {
      BodyAt(words[..n], arch, k);
      assert (rest + last)[9 * k + 1..9 * k + 9] == rest[9 * k + 1..9 * k + 9];
    } else {
      assert (rest + last)[9 * k + 1..9 * k + 9] == last[1..9] == Export(words[n], 8, true, arch);
    }
    assert Body(words, arch) == rest + last;
  }

  lemma BlobAt(kind: byte, order: byte, count: nat, words: seq<Word64>, arch: bool, k: nat)
    requires k < |words|
    ensures var b := Blob(kind, order, count, words, arch);
      b[10 + 9 * k] == MAGIC_DELIMITER && b[11 + 9 * k..19 + 9 * k] == Export(words[k], 8, true, arch)
  {
    hide Export, Body, Header;
    BodyAt(words, arch, k);
    var h, y := Header(kind, order, count, arch), Body(words, arch);
    var b := h + y + [MAGIC_END];
    assert b[11 + 9 * k..19 + 9 * k] == y[9 * k + 1..9 * k + 9];
  }

  /** Double number k of a blob, read on any machine. */
  lemma WordBack(kind: byte, order: byte, count: nat, words: seq<Word64>, writer: bool, reader: bool, k: nat)
    requires k < |words|
    ensures var b := Blob(kind, order, count, words, writer);
      WordOr(b, k, reader) == words[k]
  {
    hide Export, Import, Body;
    assert Pow256(8) == 0x1_0000_0000_0000_0000;
    BlobAt(kind, order, count, words, writer, k);
    ExportImport(words[k], 8, true, writer, reader);
  }

  lemma HeaderBack(kind: byte, order: byte, count: nat, words: seq<Word64>, writer: bool, reader: bool)
    requires count < 0x8000_0000
    ensures var b := Blob(kind, order, count, words, writer);
      && b[0] == MAGIC_START && b[1] == 1 && b[2] == kind && b[4] == order && b[|b| - 1] == MAGIC_END
      && Count(b, reader) == count
  {
    hide Export, Import, Body;
    var b := Blob(kind, order, count, words, writer);
    assert b[6..10] == Export(count, 4, true, writer);
    assert Pow256(4) == 0x1_0000_0000;
    ExportImport(count, 4, true, writer, reader);
  }

  lemma WordsFit(kind: byte, order: byte, count: nat)
    requires KnownKind(kind) && (kind != THIN_PLATE_SPLINE ==> count == 0)
    ensures 11 + 9 * Words(kind, order, count) < 0x8000_0000 <==> count <= MAX_POINTS
  {
  }

  /** A blob in the layout of the encoders is valid on every machine, unless it is too long for an int. */
  lemma BlobValid(kind: byte, order: byte, count: nat, words: seq<Word64>, writer: bool, reader: bool)
    requires KnownKind(kind) && order <= 3 && count < 0x8000_0000
    requires |words| == Words(kind, order, count) && (kind != THIN_PLATE_SPLINE ==> count == 0)
    ensures IsValid(Blob(kind, order, count, words, writer), reader) <==> count <= MAX_POINTS
  {
    hide Count, Blob, Words;
    var b := Blob(kind, order, count, words, writer);
    WordsFit(kind, order, count);
    HeaderBack(kind, order, count, words, writer, reader);
    forall k | 0 <= k < (|b| - 11) / 9 ensures Delimited(b, k) {
      BlobAt(kind, order, count, words, writer, k);
    }
  }

  /** column is every step-th word, starting with number from. */
  ghost predicate Strided(words: seq<Word64>, from: nat, step: nat, n: nat, column: seq<Word64>) {
    n <= |column| && (n > 0 ==> from + step * (n - 1) < |words|)
    && forall i {:trigger column[i]} | 0 <= i < n ::
      0 <= from + step * i < |words| && words[from + step * i] == column[i]
  }

  lemma ColumnIs(blob: seq<byte>, from: nat, step: nat, n: nat, arch: bool, w: seq<Word64>)
    requires n > 0 ==> |blob| >= 19 + 9 * (from + step * (n - 1))
    requires |w| == n && forall i | 0 <= i < n :: WordOr(blob, from + step * i, arch) == w[i]
    ensures Column(blob, from, step, n, arch) == w
  {
    hide WordOr;
  }

  lemma ColumnBack(
    kind: byte, order: byte, count: nat, words: seq<Word64>, writer: bool, reader: bool, from: nat, step: nat,
    n: nat, column: seq<Word64>)
    requires Strided(words, from, step, n, column)
    ensures Column(Blob(kind, order, count, words, writer), from, step, n, reader) == column[..n]
  {
    hide Blob, WordOr, Column;
    var b := Blob(kind, order, count, words, writer);
    forall i | 0 <= i < n ensures WordOr(b, from + step * i, reader) == column[..n][i] {
      WordBack(kind, order, count, words, writer, reader, from + step * i);
    }
    hide Strided;
    ColumnIs(b, from, step, n, reader, column[..n]);
  }

  lemma PairColumns(E: seq<Word64>, N: seq<Word64>, n: nat)
    requires n <= |E| && n <= |N|
    ensures Strided(Pairs(E, N, n), 0, 2, n, E) && Strided(Pairs(E, N, n), 1, 2, n, N)
  {
  }

  lemma TripleColumns(E: seq<Word64>, N: seq<Word64>, Z: seq<Word64>, n: nat)
    requires n <= |E| && n <= |N| && n <= |Z|
    ensures var w := Triples(E, N, Z, n);
      Strided(w, 0, 3, n, E) && Strided(w, 1, 3, n, N) && Strided(w, 2, 3, n, Z)
  {
  }

  lemma QuadAt(a: seq<Word64>, b: seq<Word64>, c: seq<Word64>, d: seq<Word64>, n: nat, i: nat)
    requires n <= |a| && n <= |b| && n <= |c| && n <= |d| && i < n
    ensures var w := Quads(a, b, c, d, n);
      w[4 * i] == a[i] && w[1 + 4 * i] == b[i] && w[2 + 4 * i] == c[i] && w[3 + 4 * i] == d[i]
  {
  }

  lemma StridedFront(w: seq<Word64>, more: seq<Word64>, from: nat, step: nat, n: nat, column: seq<Word64>)
    requires Strided(w, from, step, n, column)
    ensures Strided(w + more, from, step, n, column)
  {
  }

  lemma QuadColumns(front: seq<Word64>, p: Points, n: nat)
    requires PointsOf(p, n)
    ensures var w, q := front + Quads(p.e1, p.n1, p.e2, p.n2, n), |front|;
      && Strided(w, q, 4, n, p.e1) && Strided(w, q + 1, 4, n, p.n1)
      && Strided(w, q + 2, 4, n, p.e2) && Strided(w, q + 3, 4, n, p.n2)
  {
    hide Quads;
    forall i | 0 <= i < n
      ensures var w, q := front + Quads(p.e1, p.n1, p.e2, p.n2, n), |front|;
        w[q + 4 * i] == p.e1[i] && w[q + 1 + 4 * i] == p.n1[i]
        && w[q + 2 + 4 * i] == p.e2[i] && w[q + 3 + 4 * i] == p.n2[i]
    {
      QuadAt(p.e1, p.n1, p.e2, p.n2, n, i);
    }
  }

  const NO_POINTS := Points([], [], [], [])

  /** What the decoder takes from a well-sized blob of each kind. */
  lemma DecodeIs(blob: seq<byte>, arch: bool)
    requires WellSized(blob, arch) && 1 <= blob[4] <= 3
    ensures blob[2] == POLYNOMIAL_2D ==>
      var n := Terms(POLYNOMIAL_2D, blob[4]);
      Decode(blob, arch) == Some(Coeffs(
        POLYNOMIAL_2D, blob[4], Column(blob, 0, 2, n, arch), Column(blob, 1, 2, n, arch), [], NO_POINTS, []))
    ensures blob[2] == POLYNOMIAL_3D ==>
      var n := Terms(POLYNOMIAL_3D, blob[4]);
      Decode(blob, arch) == Some(Coeffs(
        POLYNOMIAL_3D, blob[4], Column(blob, 0, 3, n, arch), Column(blob, 1, 3, n, arch),
        Column(blob, 2, 3, n, arch), NO_POINTS, []))
  {
  }

  lemma DecodeTpsIs(blob: seq<byte>, arch: bool, count: nat)
    requires WellSized(blob, arch) && 1 <= blob[4] <= 3 && blob[2] == THIN_PLATE_SPLINE && Count(blob, arch) == count
    ensures var q := 2 * (count + 3);
      Decode(blob, arch) == Some(Coeffs(THIN_PLATE_SPLINE, blob[4],
        Column(blob, 0, 2, count + 3, arch), Column(blob, 1, 2, count + 3, arch), [],
        Points(Column(blob, q, 4, count, arch), Column(blob, q + 1, 4, count, arch),
               Column(blob, q + 2, 4, count, arch), Column(blob, q + 3, 4, count, arch)), seq(count, _ => 1)))
  {
  }

  /** A 2D polynomial through the blob. */
  lemma Decode2D(E: seq<Word64>, N: seq<Word64>, order: byte, writer: bool, reader: bool)
    requires 1 <= order <= 3 && Terms(POLYNOMIAL_2D, order) <= |E| && Terms(POLYNOMIAL_2D, order) <= |N|
    ensures var n := Terms(POLYNOMIAL_2D, order);
      IsValid(Blob2D(E, N, order, writer), reader)
      && Decode(Blob2D(E, N, order, writer), reader)
        == Some(Coeffs(POLYNOMIAL_2D, order, E[..n], N[..n], [], NO_POINTS, []))
  {
    var n := Terms(POLYNOMIAL_2D, order);
    var w := Pairs(E, N, n);
    PairColumns(E, N, n);
    HeaderBack(POLYNOMIAL_2D, order, 0, w, writer, reader);
    BlobValid(POLYNOMIAL_2D, order, 0, w, writer, reader);
    ColumnBack(POLYNOMIAL_2D, order, 0, w, writer, reader, 0, 2, n, E);
    ColumnBack(POLYNOMIAL_2D, order, 0, w, writer, reader, 1, 2, n, N);
    DecodeIs(Blob2D(E, N, order, writer), reader);
    hide Blob, Column, Count, Pairs, Strided, Decode, Words, Terms;
  }

  /** A 3D polynomial through the blob. */
  lemma Decode3D(E: seq<Word64>, N: seq<Word64>, Z: seq<Word64>, order: byte, writer: bool, reader: bool)
    requires 1 <= order <= 3
    requires var n := Terms(POLYNOMIAL_3D, order); n <= |E| && n <= |N| && n <= |Z|
    ensures var n := Terms(POLYNOMIAL_3D, order);
      IsValid(Blob3D(E, N, Z, order, writer), reader)
      && Decode(Blob3D(E, N, Z, order, writer), reader)
        == Some(Coeffs(POLYNOMIAL_3D, order, E[..n], N[..n], Z[..n], NO_POINTS, []))
  {
    var n := Terms(POLYNOMIAL_3D, order);
    var w := Triples(E, N, Z, n);
    TripleColumns(E, N, Z, n);
    HeaderBack(POLYNOMIAL_3D, order, 0, w, writer, reader);
    BlobValid(POLYNOMIAL_3D, order, 0, w, writer, reader);
    ColumnBack(POLYNOMIAL_3D, order, 0, w, writer, reader, 0, 3, n, E);
    ColumnBack(POLYNOMIAL_3D, order, 0, w, writer, reader, 1, 3, n, N);
    ColumnBack(POLYNOMIAL_3D, order, 0, w, writer, reader, 2, 3, n, Z);
    DecodeIs(Blob3D(E, N, Z, order, writer), reader);
    hide Blob, Column, Count, Triples, Strided, Decode, Words, Terms;
  }

  /** A spline through the blob: weights and control points, all of them active. */
  lemma DecodeTps(E: seq<Word64>, N: seq<Word64>, p: Points, count: nat, writer: bool, reader: bool)
    requires count < 0x8000_0000 && count + 3 <= |E| && count + 3 <= |N| && PointsOf(p, count)
    ensures IsValid(BlobTps(E, N, p, count, writer), reader) <==> count <= MAX_POINTS
    ensures Decode(BlobTps(E, N, p, count, writer), reader)
        == if count > MAX_POINTS then None
           else Some(Coeffs(THIN_PLATE_SPLINE, 1, E[..count + 3], N[..count + 3], [], p, seq(count, _ => 1)))
  {
    if count <= MAX_POINTS {
      DecodeSpline(E, N, p, count, writer, reader);
    } else {
      hide *;
      BlobTpsLength(E, N, p, count, writer);
      TooLong(BlobTps(E, N, p, count, writer), reader);
    }
  }

  lemma BlobTpsLength(E: seq<Word64>, N: seq<Word64>, p: Points, count: nat, arch: bool)
    requires count + 3 <= |E| && count + 3 <= |N| && PointsOf(p, count)
    ensures |BlobTps(E, N, p, count, arch)| == 65 + 54 * count
  {
  }

  lemma TooLong(blob: seq<byte>, arch: bool)
    requires |blob| >= 0x8000_0000
    ensures !IsValid(blob, arch) && Decode(blob, arch) == None
  {
  }

  lemma DecodeSpline(E: seq<Word64>, N: seq<Word64>, p: Points, count: nat, writer: bool, reader: bool)
    requires count <= MAX_POINTS && count + 3 <= |E| && count + 3 <= |N| && PointsOf(p, count)
    ensures IsValid(BlobTps(E, N, p, count, writer), reader)
    ensures Decode(BlobTps(E, N, p, count, writer), reader)
        == Some(Coeffs(THIN_PLATE_SPLINE, 1, E[..count + 3], N[..count + 3], [], p, seq(count, _ => 1)))
  {
    hide Blob, Column, Count, Pairs, Quads, Strided, Decode;
    var w1, w2 := Pairs(E, N, count + 3), Quads(p.e1, p.n1, p.e2, p.n2, count);
    var w, q := w1 + w2, 2 * (count + 3);
    PairColumns(E, N, count + 3);
    StridedFront(w1, w2, 0, 2, count + 3, E);
    StridedFront(w1, w2, 1, 2, count + 3, N);
    QuadColumns(w1, p, count);
    HeaderBack(THIN_PLATE_SPLINE, 1, count, w, writer, reader);
    BlobValid(THIN_PLATE_SPLINE, 1, count, w, writer, reader);
    ColumnBack(THIN_PLATE_SPLINE, 1, count, w, writer, reader, 0, 2, count + 3, E);
    ColumnBack(THIN_PLATE_SPLINE, 1, count, w, writer, reader, 1, 2, count + 3, N);
    ColumnBack(THIN_PLATE_SPLINE, 1, count, w, writer, reader, q, 4, count, p.e1);
    ColumnBack(THIN_PLATE_SPLINE, 1, count, w, writer, reader, q + 1, 4, count, p.n1);
    ColumnBack(THIN_PLATE_SPLINE, 1, count, w, writer, reader, q + 2, 4, count, p.e2);
    ColumnBack(THIN_PLATE_SPLINE, 1, count, w, writer, reader, q + 3, 4, count, p.n2);
    DecodeTpsIs(BlobTps(E, N, p, count, writer), reader, count);
    WholePoints(p, count);
  }

  lemma WholePoints(p: Points, count: nat)
    requires PointsOf(p, count)
    ensures p.e1[..count] == p.e1 && p.n1[..count] == p.n1 && p.e2[..count] == p.e2 && p.n2[..count] == p.n2
  {
  }

  /** The validity test and the decoder disagree on order zero, and on valid blobs on nothing else. */
  lemma ValidDecodes(blob: seq<byte>, arch: bool)
    requires IsValid(blob, arch)
    ensures Decode(blob, arch).Some? <==> blob[4] != 0
  {
  }
}
