/** The BLOB encoders, the decoder and the validity test, moving a byte pointer over a buffer. */
module PolynomialCodec {
  import opened Bytes
  import opened PolynomialBlob
  import opened PolynomialReaders

  /** gaiaExport64 and gaiaExport32: the bytes of the value in memory, straight or turned round. */
  method ExportTo(a: array<byte>, p: nat, u: nat, n: nat, little: bool, arch: bool)
    requires p + n <= a.Length
    modifies a
    ensures a[p..p + n] == Export(u, n, little, arch)
    ensures a[..p] == old(a[..p]) && a[p + n..] == old(a[p + n..])
  {
    var convert := Memory(u, n, arch);
    ghost var before, bytes := a[..], Export(u, n, little, arch);
    assert forall i | 0 <= i < n :: bytes[i] == if little == arch then convert[i] else convert[n - 1 - i];
    hide Memory, Export;
    if little == arch {
      for i := 0 to n
        invariant a[..] == Filled(before, bytes, p, 0, i)
      {
        FilledUp(before, bytes, p, i);
        a[p + i] := convert[i];
      }
    } else {
      for i := 0 to n
        invariant a[..] == Filled(before, bytes, p, n - i, n)
      {
        FilledDown(before, bytes, p, n - 1 - i, n);
        a[p + (n - 1 - i)] := convert[i];
      }
    }
    assert a[..] == Filled(before, bytes, p, 0, n);
    Inserted(before, bytes, p, a[..]);
  }

  /** before, with bytes[from..to] in place at p + from. */
  ghost function Filled(before: seq<byte>, bytes: seq<byte>, p: nat, from: nat, to: nat): (s: seq<byte>)
    requires p + |bytes| <= |before| && from <= to <= |bytes|
    ensures |s| == |before|
  {
    seq(|before|, k requires 0 <= k < |before| => if p + from <= k < p + to then bytes[k - p] else before[k])
  }

  lemma FilledUp(before: seq<byte>, bytes: seq<byte>, p: nat, i: nat)
    requires p + |bytes| <= |before| && i < |bytes|
    ensures Filled(before, bytes, p, 0, i)[p + i := bytes[i]] == Filled(before, bytes, p, 0, i + 1)
  {
  }

  lemma FilledDown(before: seq<byte>, bytes: seq<byte>, p: nat, i: nat, n: nat)
    requires p + |bytes| <= |before| && i < n <= |bytes|
    ensures Filled(before, bytes, p, i + 1, n)[p + i := bytes[i]] == Filled(before, bytes, p, i, n)
  {
  }

  lemma Inserted(before: seq<byte>, bytes: seq<byte>, p: nat, after: seq<byte>)
    requires p + |bytes| <= |before| && after == Filled(before, bytes, p, 0, |bytes|)
    ensures after[p..p + |bytes|] == bytes && after[..p] == before[..p]
    ensures after[p + |bytes|..] == before[p + |bytes|..]
  {
  }

  /** Delimiter and double; the pointer moves on by nine. */
  method PutDouble(a: array<byte>, ptr: nat, x: Word64, arch: bool) returns (next: nat)
    requires ptr + 9 <= a.Length
    modifies a
    ensures next == ptr + 9
    ensures a[..next] == old(a[..ptr]) + ([MAGIC_DELIMITER] + Export(x, 8, true, arch))
  {
    hide Export;
    a[ptr] := MAGIC_DELIMITER;
    ghost var front := a[..ptr + 1];
    ExportTo(a, ptr + 1, x, 8, true, arch);
    next := ptr + 9;
    assert a[..next] == a[..ptr + 1] + a[ptr + 1..next];
    assert a[..ptr + 1] == front == old(a[..ptr]) + [MAGIC_DELIMITER];
  }

  method PutHeader(a: array<byte>, kind: byte, order: byte, count: nat, arch: bool)
    requires a.Length >= 11
    modifies a
    ensures a[..10] == Header(kind, order, count, arch)
  {
    hide Export;
    a[0] := MAGIC_START;
    a[1] := 1;
    a[2] := kind;
    a[3] := MAGIC_DELIMITER;
    a[4] := order;
    a[5] := MAGIC_DELIMITER;
    ghost var front := a[..6];
    ExportTo(a, 6, count, 4, true, arch);
    assert a[..10] == a[..6] + a[6..10];
  }

  lemma BodyMore(words: seq<Word64>, x: Word64, arch: bool)
    ensures Body(words + [x], arch) == Body(words, arch) + ([MAGIC_DELIMITER] + Export(x, 8, true, arch))
  {
  }

  /** One more double behind those already written. */
  method PutWord(a: array<byte>, ptr: nat, x: Word64, arch: bool, ghost front: seq<byte>, ghost words: seq<Word64>)
    returns (next: nat)
    requires ptr + 9 <= a.Length && a[..ptr] == front + Body(words, arch)
    modifies a
    ensures next == ptr + 9 && a[..next] == front + Body(words + [x], arch)
  {
    hide Export, Body;
    next := PutDouble(a, ptr, x, arch);
    BodyMore(words, x, arch);
  }

  method Finish(a: array<byte>, ptr: nat, ghost kind: byte, ghost order: byte, ghost count: nat,
                ghost words: seq<Word64>, arch: bool)
    requires ptr + 1 == a.Length == 11 + 9 * |words|
    requires a[..ptr] == Header(kind, order, count, arch) + Body(words, arch)
    modifies a
    ensures a[..] == Blob(kind, order, count, words, arch)
  {
    hide Header, Body;
    a[ptr] := MAGIC_END;
    assert a[..] == a[..ptr] + [a[ptr]];
  }

  lemma PairsMore(E: seq<Word64>, N: seq<Word64>, i: nat)
    requires i < |E| && i < |N|
    ensures Pairs(E, N, i + 1) == Pairs(E, N, i) + [E[i]] + [N[i]]
  {
  }

  lemma TriplesMore(E: seq<Word64>, N: seq<Word64>, Z: seq<Word64>, i: nat)
    requires i < |E| && i < |N| && i < |Z|
    ensures Triples(E, N, Z, i + 1) == Triples(E, N, Z, i) + [E[i]] + [N[i]] + [Z[i]]
  {
  }

  /** The loop that writes two coefficient vectors. */
  method PutPairs(a: array<byte>, E: array<Word64>, N: array<Word64>, n: nat, arch: bool, ghost front: seq<byte>)
    returns (ptr: nat)
    requires n <= E.Length && n <= N.Length && |front| == 10 && 10 + 18 * n <= a.Length && a[..10] == front
    requires a as object != E && a as object != N
    modifies a
    ensures ptr == 10 + 18 * n && a[..ptr] == front + Body(Pairs(E[..], N[..], n), arch)
  {
    hide Pairs, Body;
    ptr := 10;
    PairsNone(E[..], N[..], front, arch);
    for i := 0 to n
      invariant ptr == 10 + 18 * i && a[..ptr] == front + Body(Pairs(E[..], N[..], i), arch)
    {
      ghost var w := Pairs(E[..], N[..], i);
      PairsMore(E[..], N[..], i);
      ptr := PutWord(a, ptr, E[i], arch, front, w);
      ptr := PutWord(a, ptr, N[i], arch, front, w + [E[i]]);
    }
  }

  lemma PairsNone(E: seq<Word64>, N: seq<Word64>, front: seq<byte>, arch: bool)
    ensures front + Body(Pairs(E, N, 0), arch) == front
  {
  }

  /** blob_encode_2d */
  method BlobEncode2D(E: array<Word64>, N: array<Word64>, order: byte, arch: bool) returns (blob: array<byte>)
    requires Terms(POLYNOMIAL_2D, order) <= E.Length && Terms(POLYNOMIAL_2D, order) <= N.Length
    ensures fresh(blob) && blob[..] == Blob2D(E[..], N[..], order, arch)
  {
    hide Header, Body, Pairs, Blob;
    var max := if order == 2 then 6 else if order == 3 then 10 else 3;
    blob := new byte[11 + max * 18](_ => 0);
    PutHeader(blob, POLYNOMIAL_2D, order, 0, arch);
    var ptr := PutPairs(blob, E, N, max, arch, blob[..10]);
    Finish(blob, ptr, POLYNOMIAL_2D, order, 0, Pairs(E[..], N[..], max), arch);
  }

  lemma TriplesNone(E: seq<Word64>, N: seq<Word64>, Z: seq<Word64>, front: seq<byte>, arch: bool)
    ensures front + Body(Triples(E, N, Z, 0), arch) == front
  {
  }

  /** blob_encode_3d */
  method BlobEncode3D(E: array<Word64>, N: array<Word64>, Z: array<Word64>, order: byte, arch: bool)
    returns (blob: array<byte>)
    requires var n := Terms(POLYNOMIAL_3D, order); n <= E.Length && n <= N.Length && n <= Z.Length
    ensures fresh(blob) && blob[..] == Blob3D(E[..], N[..], Z[..], order, arch)
  {
    hide Header, Body, Triples, Blob;
    var max := if order == 2 then 10 else if order == 3 then 20 else 4;
    blob := new byte[11 + max * 27](_ => 0);
    PutHeader(blob, POLYNOMIAL_3D, order, 0, arch);
    ghost var front := blob[..10];
    var ptr := 10;
    TriplesNone(E[..], N[..], Z[..], front, arch);
    for i := 0 to max
      invariant ptr == 10 + 27 * i && blob[..ptr] == front + Body(Triples(E[..], N[..], Z[..], i), arch)
    {
      ghost var w := Triples(E[..], N[..], Z[..], i);
      TriplesMore(E[..], N[..], Z[..], i);
      ptr := PutWord(blob, ptr, E[i], arch, front, w);
      ptr := PutWord(blob, ptr, N[i], arch, front, w + [E[i]]);
      ptr := PutWord(blob, ptr, Z[i], arch, front, w + [E[i]] + [N[i]]);
    }
    Finish(blob, ptr, POLYNOMIAL_3D, order, 0, Triples(E[..], N[..], Z[..], max), arch);
  }

  lemma QuadsNone(w: seq<Word64>, a: seq<Word64>, b: seq<Word64>, c: seq<Word64>, d: seq<Word64>)
    ensures w + Quads(a, b, c, d, 0) == w
  {
  }

  lemma QuadsStep(w: seq<Word64>, a: seq<Word64>, b: seq<Word64>, c: seq<Word64>, d: seq<Word64>, i: nat)
    requires i < |a| && i < |b| && i < |c| && i < |d|
    ensures w + Quads(a, b, c, d, i) + [a[i]] + [b[i]] + [c[i]] + [d[i]] == w + Quads(a, b, c, d, i + 1)
  {
  }

  /** One control point. */
  method PutPoint(a: array<byte>, ptr: nat, e1: Word64, n1: Word64, e2: Word64, n2: Word64, arch: bool,
                  ghost front: seq<byte>, ghost w: seq<Word64>) returns (next: nat)
    requires ptr + 36 <= a.Length && a[..ptr] == front + Body(w, arch)
    modifies a
    ensures next == ptr + 36 && a[..next] == front + Body(w + [e1] + [n1] + [e2] + [n2], arch)
  {
    hide Body;
    next := PutWord(a, ptr, e1, arch, front, w);
    next := PutWord(a, next, n1, arch, front, w + [e1]);
    next := PutWord(a, next, e2, arch, front, w + [e1] + [n1]);
    next := PutWord(a, next, n2, arch, front, w + [e1] + [n1] + [e2]);
  }

  /** How blob_encode_tps ends: its int size can turn out negative, or too small for what the loops write. */
  datatype Encoding = Written | NoBuffer | ShortBuffer

  /** blob_encode_tps */
  method BlobEncodeTps(E: array<Word64>, N: array<Word64>, e1: array<Word64>, n1: array<Word64>, e2: array<Word64>,
                       n2: array<Word64>, count: nat, arch: bool) returns (r: Encoding, blob: array<byte>)
    requires count < 0x8000_0000 && count + 3 <= E.Length && count + 3 <= N.Length
    requires e1.Length == n1.Length == e2.Length == n2.Length == count
    ensures fresh(blob)
    ensures r == Written <==> count <= MAX_POINTS
    ensures r == NoBuffer <==> Wrap32(65 + 54 * count) < 0
    ensures r == Written ==>
      blob[..] == BlobTps(E[..], N[..], Points(e1[..], n1[..], e2[..], n2[..]), count, arch)
  {
    hide Grown, Wrap32;
    var size := Grown(11, Wrap32(count + 3), 18);
    size := Grown(size, count, 36);
    BufferSize(count);
    hide Positive;
    if size < 0 {
      return NoBuffer, new byte[0](_ => 0);
    }
    blob := new byte[size](_ => 0);
    if size < 11 + 9 * (2 * Positive(Wrap32(count + 3)) + 4 * count) {
      return ShortBuffer, blob;
    }
    r := Written;
    WriteTps(E, N, e1, n1, e2, n2, count, arch, blob);
  }

  /** The buffer is long enough exactly when the size fits. */
  lemma BufferSize(count: nat)
    requires count < 0x8000_0000
    ensures var size, need := SplineSize(count), 11 + 9 * (2 * Positive(Wrap32(count + 3)) + 4 * count);
      size == Wrap32(65 + 54 * count)
      && if count <= MAX_POINTS then size == 65 + 54 * count == need else size < need
  {
    SplineSizeWraps(count);
    hide SplineSize;
    if count > MAX_POINTS {
      LoopsOutrun(1, count, 0x7FFF_FFFF);
    }
  }

  method WriteTps(E: array<Word64>, N: array<Word64>, e1: array<Word64>, n1: array<Word64>, e2: array<Word64>,
                  n2: array<Word64>, count: nat, arch: bool, blob: array<byte>)
    requires count + 3 <= E.Length && count + 3 <= N.Length && blob.Length == 65 + 54 * count
    requires e1.Length == n1.Length == e2.Length == n2.Length == count && blob as object !in {E, N, e1, n1, e2, n2}
    modifies blob
    ensures blob[..] == BlobTps(E[..], N[..], Points(e1[..], n1[..], e2[..], n2[..]), count, arch)
  {
    hide Header, Body, Pairs, Quads, Blob;
    PutHeader(blob, THIN_PLATE_SPLINE, 1, count, arch);
    ghost var front := blob[..10];
    var ptr := PutPairs(blob, E, N, count + 3, arch, front);
    ghost var w1 := Pairs(E[..], N[..], count + 3);
    QuadsNone(w1, e1[..], n1[..], e2[..], n2[..]);
    for i := 0 to count
      invariant ptr == 10 + 18 * (count + 3) + 36 * i
      invariant blob[..ptr] == front + Body(w1 + Quads(e1[..], n1[..], e2[..], n2[..], i), arch)
    {
      ghost var w := w1 + Quads(e1[..], n1[..], e2[..], n2[..], i);
      ptr := PutPoint(blob, ptr, e1[i], n1[i], e2[i], n2[i], arch, front, w);
      QuadsStep(w1, e1[..], n1[..], e2[..], n2[..], i);
    }
    Finish(blob, ptr, THIN_PLATE_SPLINE, 1, count, w1 + Quads(e1[..], n1[..], e2[..], n2[..], count), arch);
  }

  // ----- reading -----

  /** The tests both readers begin with: how many terms and points to expect. */
  method CheckShape(blob: array<byte>, arch: bool) returns (ok: bool, max: nat, count: int)
    ensures ok == Sized(blob[..], arch)
    ensures ok ==> blob.Length >= 11 && KnownKind(blob[2])
    ensures ok ==> max == Terms(blob[2], blob[4]) && count == Count(blob[..], arch)
  {
    hide Import, Grown;
    ok, max, count := false, 0, 0;
    if blob.Length < 11 {
      return;
    }
    if blob[0] != MAGIC_START || blob[1] > 1 {
      return;
    }
    var kind, order := blob[2], blob[4];
    if kind == THIN_PLATE_SPLINE {
      max := 0;
    } else if kind == POLYNOMIAL_2D {
      max := if order == 2 then 6 else if order == 3 then 10 else 3;
    } else if kind == POLYNOMIAL_3D {
      max := if order == 2 then 10 else if order == 3 then 20 else 4;
    } else {
      return;
    }
    count := Count(blob[..], arch);
    var size: int := 11 + max * (if kind == POLYNOMIAL_3D then 27 else 18);
    if kind == THIN_PLATE_SPLINE {
      size := Grown(size, Wrap32(count + 3), 18);
      size := Grown(size, count, 36);
    }
    ok := blob.Length == size;
  }

  /** n delimiters, nine bytes apart. */
  method CheckMarks(blob: array<byte>, from: nat, n: nat) returns (v: Verdict)
    ensures v == Marks(blob[..], from, from + n)
  {
    var ptr := 10 + 9 * from;
    for i := 0 to n
      invariant ptr == 10 + 9 * (from + i)
      invariant Marks(blob[..], from, from + n) == Marks(blob[..], from + i, from + n)
    {
      if ptr >= blob.Length {
        return PastEnd;
      }
      if blob[ptr] != MAGIC_DELIMITER {
        return Refused;
      }
      ptr := ptr + 9;
    }
    v := Accepted;
  }

  /** gaiaPolynomialIsValid */
  method PolynomialIsValid(blob: array<byte>, arch: bool) returns (v: Verdict)
    ensures v == Validity(blob[..], arch)
    ensures CountFits(blob[..], arch) ==> (v == Accepted <==> IsValid(blob[..], arch))
  {
    hide Count, Sized, Marks, CountFits, IsValid;
    ValidityIs(blob[..], arch);
    var ok, max, count := CheckShape(blob, arch);
    if !ok || blob[4] > 3 {
      return Refused;
    }
    if blob[2] == THIN_PLATE_SPLINE {
      v := CheckSpline(blob, count);
    } else {
      var doubles := if blob[2] == POLYNOMIAL_3D then 3 * max else 2 * max;
      v := CheckMarks(blob, 0, doubles);
      if v == Accepted {
        v := EndMark(blob[..], doubles);
      }
    }
  }

  /** The loops over weights and points, and the end mark. */
  method CheckSpline(blob: array<byte>, count: int) returns (v: Verdict)
    ensures var n := 2 * Positive(Wrap32(count + 3)) + 4 * Positive(count);
      var marks := Marks(blob[..], 0, n);
      v == if marks != Accepted then marks else EndMark(blob[..], n)
  {
    hide Marks, Wrap32, EndMark;
    var pairs, quads := 2 * Positive(Wrap32(count + 3)), 4 * Positive(count);
    MarksCompose(blob[..], 0, pairs, pairs + quads);
    v := CheckMarks(blob, 0, pairs);
    if v == Accepted {
      v := CheckMarks(blob, pairs, quads);
    }
    if v == Accepted {
      v := EndMark(blob[..], pairs + quads);
    }
  }

  /** struct cp_coeffs: fixed vectors for polynomials, allocated ones for splines. */
  class CpCoeffs {
    var kind: byte
    var order: byte
    const E: array<Word64>
    const N: array<Word64>
    const Z: array<Word64>
    var Etps: array<Word64>
    var Ntps: array<Word64>
    var e1: array<Word64>
    var n1: array<Word64>
    var e2: array<Word64>
    var n2: array<Word64>
    var status: array<int>
    var count: int

    constructor ()
      ensures E.Length == 20 && N.Length == 20 && Z.Length == 20
      ensures fresh(E) && fresh(N) && fresh(Z) && E != N && N != Z && E != Z
    {
      kind, order, count := 0, 0, 0;
      var e, n, z := new Word64[20](_ => 0), new Word64[20](_ => 0), new Word64[20](_ => 0);
      E, N, Z := e, n, z;
      var none := new Word64[0](_ => 0);
      Etps, Ntps, e1, n1, e2, n2 := none, none, none, none, none, none;
      status := new int[0](_ => 0);
    }

    /** What is in the fields that the kind and order make meaningful. */
    ghost function Value(): Coeffs
      reads this, E, N, Z, Etps, Ntps, e1, n1, e2, n2, status
    {
      var n := Terms(kind, order);
      if kind == THIN_PLATE_SPLINE then
        Coeffs(kind, order, Etps[..], Ntps[..], [], Points(e1[..], n1[..], e2[..], n2[..]), status[..])
      else
        Coeffs(kind, order, Front(E[..], n), Front(N[..], n), if kind == POLYNOMIAL_3D then Front(Z[..], n) else [],
          NO_POINTS, [])
    }

    /** blob_decode */
    method BlobDecode(blob: array<byte>, arch: bool) returns (v: Verdict)
      requires E.Length == 20 && N.Length == 20 && Z.Length == 20 && E != N && N != Z && E != Z
      requires blob as object !in {E, N, Z}
      modifies this, E, N, Z
      ensures v == Refused <==> Read(blob[..], arch) == Rejected
      ensures v == PastEnd <==> Read(blob[..], arch) == Overrun
      ensures v == Accepted ==> Read(blob[..], arch) == Decoded(Value(), count)
      ensures CountFits(blob[..], arch) ==>
        (v == Accepted <==> Decode(blob[..], arch).Some?) && (v == Accepted ==> Value() == Decode(blob[..], arch).value)
    {
      hide Column, Count, Sized, CountFits;
      ReadIs(blob[..], arch);
      var ok, max, n := CheckShape(blob, arch);
      if !ok || blob[4] < 1 || blob[4] > 3 {
        return Refused;
      }
      kind, order, count := blob[2], blob[4], 0;
      if kind == THIN_PLATE_SPLINE {
        hide Decode;
        v := FillSpline(blob, n, arch);
      } else {
        PolynomialFits(blob[..], arch);
        DecodeIs(blob[..], arch);
        hide Decode, WellSized;
        ReadTerms(blob, max, kind == POLYNOMIAL_3D, arch);
        v := Accepted;
      }
    }

    /** The loop over the terms of a polynomial: E, N and, in space, Z of each. */
    method ReadTerms(blob: array<byte>, max: nat, space: bool, arch: bool)
      requires E.Length == 20 && N.Length == 20 && Z.Length == 20 && E != N && N != Z && E != Z && max <= 20
      requires blob.Length == 11 + 9 * (max * if space then 3 else 2) && blob as object !in {E, N, Z}
      modifies E, N, Z
      ensures E[..max] == Column(blob[..], 0, if space then 3 else 2, max, arch)
      ensures N[..max] == Column(blob[..], 1, if space then 3 else 2, max, arch)
      ensures space ==> Z[..max] == Column(blob[..], 2, 3, max, arch)
    {
      hide Column;
      var ptr := 11;
      ColumnNone(blob[..], arch);
      ghost var step := if space then 3 else 2;
      for i := 0 to max
        invariant ptr == 11 + 9 * (step * i) && step * i <= step * max
        invariant E[..i] == Column(blob[..], 0, step, i, arch) && N[..i] == Column(blob[..], 1, step, i, arch)
        invariant space ==> Z[..i] == Column(blob[..], 2, 3, i, arch)
      {
        ptr := ReadTo(blob, ptr, arch, E, i, 0, step);
        ptr := ReadTo(blob, ptr, arch, N, i, 1, step);
        if space {
          ptr := ReadTo(blob, ptr, arch, Z, i, 2, 3);
        }
      }
    }

    /** The allocated vectors of a spline. */
    method FillSpline(blob: array<byte>, n: int, arch: bool) returns (v: Verdict)
      requires blob.Length >= 11 && IsSpline(blob[..]) && n == Count(blob[..], arch)
      requires kind == THIN_PLATE_SPLINE && order == blob[4]
      modifies this`Etps, this`Ntps, this`e1, this`n1, this`e2, this`n2, this`status, this`count
      ensures v != Refused && (v == PastEnd <==> ReadSpline(blob[..], arch) == Overrun)
      ensures v == Accepted ==> ReadSpline(blob[..], arch) == Decoded(Value(), count)
    {
      hide IsSpline, Count, ReadSpline;
      var x, y, a, b, c, d, s;
      v, x, y, a, b, c, d, s := LoadSpline(blob, n, arch);
      count, Etps, Ntps, e1, n1, e2, n2, status := n, x, y, a, b, c, d, s;
    }
  }

  /** The loops of blob_decode over weights and points. */
  method LoadSpline(blob: array<byte>, n: int, arch: bool)
    returns (v: Verdict, x: array<Word64>, y: array<Word64>, a: array<Word64>, b: array<Word64>, c: array<Word64>,
             d: array<Word64>, s: array<int>)
    requires blob.Length >= 11 && IsSpline(blob[..]) && n == Count(blob[..], arch)
    ensures v != Refused && (v == PastEnd <==> ReadSpline(blob[..], arch) == Overrun)
    ensures v == Accepted ==>
      ReadSpline(blob[..], arch) == Decoded(Coeffs(THIN_PLATE_SPLINE, blob[4], x[..], y[..], [],
        Points(a[..], b[..], c[..], d[..]), s[..]), n)
  {
    OverrunIs(blob[..], arch);
    hide *;
    var ptr;
    var weights, points := Positive(Wrap32(n + 3)), Positive(n);
    v, x, y, ptr := ReadWeights(blob, weights, arch);
    if v == Accepted {
      v, a, b, c, d, s := ReadPoints(blob, ptr, 2 * weights, points, arch);
    } else {
      a, b, c, d, s := x, x, x, x, new int[0](_ => 0);
    }
    if v == Accepted {
      SplineRead(blob[..], arch, x[..], y[..], a[..], b[..], c[..], d[..], s[..]);
    }
  }

  lemma SplineRead(
    blob: seq<byte>, arch: bool, x: seq<Word64>, y: seq<Word64>, a: seq<Word64>, b: seq<Word64>, c: seq<Word64>,
    d: seq<Word64>, s: seq<int>)
    requires IsSpline(blob)
    requires var n, m := Positive(Wrap32(Count(blob, arch) + 3)), Positive(Count(blob, arch));
      && (n + m > 0 ==> 10 + 9 * (2 * n + 4 * m) <= |blob|)
      && x == Column(blob, 0, 2, n, arch) && y == Column(blob, 1, 2, n, arch)
      && PointsRead(blob, 2 * n, m, arch, a, b, c, d) && s == seq(m, _ => 1)
    ensures ReadSpline(blob, arch)
      == Decoded(Coeffs(THIN_PLATE_SPLINE, blob[4], x, y, [], Points(a, b, c, d), s), Count(blob, arch))
  {
    hide Column, Count, Wrap32, Positive;
  }

  lemma OverrunIs(blob: seq<byte>, arch: bool)
    requires IsSpline(blob)
    ensures var n, m := Positive(Wrap32(Count(blob, arch) + 3)), Positive(Count(blob, arch));
      ReadSpline(blob, arch) == Overrun <==> n + m > 0 && 10 + 9 * (2 * n + 4 * m) > |blob|
  {
    hide Column, Count, Wrap32, Positive;
  }

  lemma PolynomialFits(blob: seq<byte>, arch: bool)
    requires Sized(blob, arch) && !IsSpline(blob)
    ensures WellSized(blob, arch)
    ensures |blob| == 11 + 9 * (Terms(blob[2], blob[4]) * if blob[2] == POLYNOMIAL_3D then 3 else 2)
  {
    SizeTestExact(blob, arch);
  }

  function Front(s: seq<Word64>, n: nat): seq<Word64> {
    if n <= |s| then s[..n] else s
  }

  lemma ColumnMore(blob: seq<byte>, from: nat, step: nat, i: nat, arch: bool)
    requires |blob| >= 19 + 9 * (from + step * i)
    ensures i > 0 ==> |blob| >= 19 + 9 * (from + step * (i - 1))
    ensures Column(blob, from, step, i + 1, arch)
      == Column(blob, from, step, i, arch) + [WordAt(blob, from + step * i, arch)]
  {
  }

  lemma ColumnNone(blob: seq<byte>, arch: bool)
    ensures forall from: nat, step: nat :: Column(blob, from, step, 0, arch) == []
  {
  }

  /** X[i] = gaiaImport64 (ptr, ...); ptr += sizeof (double) + 1; */
  method ReadTo(blob: array<byte>, ptr: nat, arch: bool, X: array<Word64>, i: nat, ghost from: nat, ghost step: nat)
    returns (next: nat)
    requires i < X.Length && blob as object != X && ptr == 11 + 9 * (from + step * i) && ptr + 8 <= blob.Length
    requires i > 0 ==> blob.Length >= 19 + 9 * (from + step * (i - 1))
    requires X[..i] == Column(blob[..], from, step, i, arch)
    modifies X
    ensures next == ptr + 9 && X[..i + 1] == Column(blob[..], from, step, i + 1, arch)
  {
    hide Column, Import;
    ColumnMore(blob[..], from, step, i, arch);
    assert blob[..][ptr..ptr + 8] == blob[ptr..ptr + 8];
    X[i] := Import(blob[ptr..ptr + 8], blob[1] == 1, arch);
    assert X[..i + 1] == X[..i] + [X[i]];
    next := ptr + 9;
  }

  /** The loop over the spline weights. */
  method ReadWeights(blob: array<byte>, n: nat, arch: bool)
    returns (v: Verdict, X: array<Word64>, Y: array<Word64>, ptr: nat)
    ensures fresh(X) && fresh(Y)
    ensures v == if n > 0 && 10 + 18 * n > blob.Length then PastEnd else Accepted
    ensures v == Accepted ==>
      ptr == 11 + 18 * n && X[..] == Column(blob[..], 0, 2, n, arch) && Y[..] == Column(blob[..], 1, 2, n, arch)
  {
    hide Column;
    X, Y := new Word64[n](_ => 0), new Word64[n](_ => 0);
    ptr := 11;
    ColumnNone(blob[..], arch);
    for i := 0 to n
      invariant ptr == 11 + 18 * i && (i > 0 ==> 10 + 18 * i <= blob.Length)
      invariant X[..i] == Column(blob[..], 0, 2, i, arch) && Y[..i] == Column(blob[..], 1, 2, i, arch)
    {
      if ptr + 17 > blob.Length {
        return PastEnd, X, Y, ptr;
      }
      ptr := ReadTo(blob, ptr, arch, X, i, 0, 2);
      ptr := ReadTo(blob, ptr, arch, Y, i, 1, 2);
    }
    assert X[..] == X[..n] && Y[..] == Y[..n];
    v := Accepted;
  }

  ghost predicate PointsRead(
    blob: seq<byte>, q: nat, i: nat, arch: bool, a: seq<Word64>, b: seq<Word64>, c: seq<Word64>, d: seq<Word64>)
  {
    (i > 0 ==> |blob| >= 19 + 9 * (q + 3 + 4 * (i - 1)))
    && a == Column(blob, q, 4, i, arch) && b == Column(blob, q + 1, 4, i, arch)
    && c == Column(blob, q + 2, 4, i, arch) && d == Column(blob, q + 3, 4, i, arch)
  }

  ghost predicate Distinct(blob: array<byte>, a: array<Word64>, b: array<Word64>, c: array<Word64>, d: array<Word64>,
                           status: array<int>) {
    && blob as object !in {a, b, c, d} && a != b && a != c && a != d && b != c && b != d && c != d
    && status as object !in {a, b, c, d} && status as object != blob
  }

  /** One control point, active. */
  method ReadPoint(blob: array<byte>, ptr: nat, q: nat, i: nat, arch: bool, a: array<Word64>, b: array<Word64>,
                   c: array<Word64>, d: array<Word64>, status: array<int>) returns (next: nat)
    requires i < a.Length == b.Length == c.Length == d.Length == status.Length
    requires Distinct(blob, a, b, c, d, status)
    requires ptr == 11 + 9 * (q + 4 * i) && ptr + 35 <= blob.Length
    requires PointsRead(blob[..], q, i, arch, a[..i], b[..i], c[..i], d[..i])
    requires status[..i] == seq(i, _ => 1)
    modifies a, b, c, d, status
    ensures next == ptr + 36
    ensures PointsRead(blob[..], q, i + 1, arch, a[..i + 1], b[..i + 1], c[..i + 1], d[..i + 1])
    ensures status[..i + 1] == seq(i + 1, _ => 1)
  {
    hide Column;
    next := ReadTo(blob, ptr, arch, a, i, q, 4);
    next := ReadTo(blob, next, arch, b, i, q + 1, 4);
    next := ReadTo(blob, next, arch, c, i, q + 2, 4);
    next := ReadTo(blob, next, arch, d, i, q + 3, 4);
    status[i] := 1;
    assert status[..i + 1] == status[..i] + [1];
  }

  /** The loop over the control points. */
  method FillPoints(blob: array<byte>, from: nat, q: nat, arch: bool, a: array<Word64>, b: array<Word64>,
                    c: array<Word64>, d: array<Word64>, status: array<int>) returns (v: Verdict)
    requires a.Length == b.Length == c.Length == d.Length == status.Length
    requires from == 11 + 9 * q && Distinct(blob, a, b, c, d, status)
    modifies a, b, c, d, status
    ensures var n := a.Length; v == if n > 0 && from + 36 * n - 1 > blob.Length then PastEnd else Accepted
    ensures v == Accepted ==>
      PointsRead(blob[..], q, a.Length, arch, a[..], b[..], c[..], d[..]) && status[..] == seq(a.Length, _ => 1)
  {
    var ptr := from;
    NoPointsRead(blob[..], q, arch);
    hide *;
    assert a[..0] == [] && b[..0] == [] && c[..0] == [] && d[..0] == [];
    for i := 0 to a.Length
      invariant ptr == from + 36 * i && (i > 0 ==> ptr <= blob.Length + 1)
      invariant PointsRead(blob[..], q, i, arch, a[..i], b[..i], c[..i], d[..i])
      invariant status[..i] == seq(i, _ => 1)
    {
      if ptr + 35 > blob.Length {
        return PastEnd;
      }
      ptr := ReadPoint(blob, ptr, q, i, arch, a, b, c, d, status);
    }
    v := Accepted;
    Whole(a);
    Whole(b);
    Whole(c);
    Whole(d);
    assert status[..] == status[..status.Length];
  }

  lemma Whole(a: array<Word64>)
    ensures a[..a.Length] == a[..]
  {
  }

  method ReadPoints(blob: array<byte>, from: nat, q: nat, n: nat, arch: bool)
    returns (v: Verdict, a: array<Word64>, b: array<Word64>, c: array<Word64>, d: array<Word64>, status: array<int>)
    requires from == 11 + 9 * q
    ensures fresh(a) && fresh(b) && fresh(c) && fresh(d) && fresh(status)
    ensures v == if n > 0 && from + 36 * n - 1 > blob.Length then PastEnd else Accepted
    ensures v == Accepted ==>
      PointsRead(blob[..], q, n, arch, a[..], b[..], c[..], d[..]) && status[..] == seq(n, _ => 1)
  {
    hide PointsRead;
    a, b := new Word64[n](_ => 0), new Word64[n](_ => 0);
    c, d := new Word64[n](_ => 0), new Word64[n](_ => 0);
    status := new int[n](_ => 0);
    v := FillPoints(blob, from, q, arch, a, b, c, d, status);
  }

  lemma NoPointsRead(blob: seq<byte>, q: nat, arch: bool)
    ensures PointsRead(blob, q, 0, arch, [], [], [], [])
  {
  }
}
