/**
 What the two readers of coefficient BLOBs do with any bytes: gaiaPolynomialIsValid and blob_decode compute the
 expected size in size_t and narrow it to int, so a spline can pass their size test with a count it has no room for.
 */
module PolynomialReaders {
  import opened Bytes
  import opened PolynomialBlob

  // ----- the size test -----

  /** A value converted to a 64-bit size_t. */
  function SizeT(x: int): (u: nat) {
    x % 0x1_0000_0000_0000_0000
  }

  /** size += n * each, with int size and n and a size_t constant. */
  function Grown(size: int, n: int, each: nat): int {
    Wrap32(SizeT(SizeT(size) + SizeT(n) * each))
  }

  /** xblob_sz for a spline: count + 3 is an int. */
  function SplineSize(count: int): int {
    Grown(Grown(11, Wrap32(count + 3), 18), count, 36)
  }

  function ExpectedSize(kind: byte, order: byte, count: int): int {
    if kind == THIN_PLATE_SPLINE then SplineSize(count) else 11 + 9 * Words(kind, order, 0)
  }

  /** The tests that both readers begin with, apart from the order. */
  predicate Sized(blob: seq<byte>, arch: bool) {
    && |blob| >= 11 && blob[0] == MAGIC_START && blob[1] <= 1 && KnownKind(blob[2])
    && |blob| == ExpectedSize(blob[2], blob[4], Count(blob, arch))
  }

  lemma WrapPages(x: int, pages: int)
    ensures Wrap32(x + 0x1_0000_0000 * pages) == Wrap32(x)
  {
  }

  lemma GrownWraps(size: int, n: int, each: nat)
    ensures Grown(size, n, each) == Wrap32(size + n * each)
  {
    var a, b := size / 0x1_0000_0000_0000_0000, n / 0x1_0000_0000_0000_0000;
    var sum := SizeT(size) + SizeT(n) * each;
    var c := sum / 0x1_0000_0000_0000_0000;
    assert SizeT(n) * each == n * each - 0x1_0000_0000_0000_0000 * (b * each) by {
      assert SizeT(n) == n - 0x1_0000_0000_0000_0000 * b;
      Spread(n, b, each);
    }
    WrapPages(size + n * each, -0x1_0000_0000 * (a + b * each + c));
  }

  lemma Spread(n: int, b: int, each: nat)
    ensures (n - 0x1_0000_0000_0000_0000 * b) * each == n * each - 0x1_0000_0000_0000_0000 * (b * each)
  {
  }

  /** The size tested is the size of the layout, wrapped around. */
  lemma SplineSizeWraps(count: int)
    ensures SplineSize(count) == Wrap32(65 + 54 * count)
  {
    hide Grown;
    GrownWraps(11, Wrap32(count + 3), 18);
    GrownWraps(Grown(11, Wrap32(count + 3), 18), count, 36);
    var q, r := (count + 3 + 0x8000_0000) / 0x1_0000_0000, (65 + 18 * count + 0x8000_0000) / 0x1_0000_0000;
    WrapPages(65 + 18 * count, -18 * q);
    WrapPages(65 + 54 * count, -r);
  }

  lemma WrappedOdd(count: int)
    ensures Wrap32(65 + 54 * count) % 2 == 1
  {
    var q := WrapIs(65 + 54 * count);
    hide Wrap32;
    Odd(32 + 27 * count - 0x8000_0000 * q);
  }

  lemma WrapIs(x: int) returns (q: int)
    ensures Wrap32(x) == x - 0x1_0000_0000 * q
  {
    q := (x + 0x8000_0000) / 0x1_0000_0000;
  }

  lemma Odd(n: int)
    ensures (2 * n + 1) % 2 == 1
  {
  }

  predicate IsSpline(blob: seq<byte>) {
    |blob| >= 11 && blob[2] == THIN_PLATE_SPLINE
  }

  /** The number of control points is one that a blob can hold. */
  predicate CountFits(blob: seq<byte>, arch: bool) {
    IsSpline(blob) ==> 0 <= Count(blob, arch) <= MAX_POINTS
  }

  /** The code's size test agrees with the layout exactly as long as the count fits. */
  lemma SizeTestExact(blob: seq<byte>, arch: bool)
    ensures WellSized(blob, arch) <==> Sized(blob, arch) && CountFits(blob, arch)
  {
    if |blob| >= 11 && KnownKind(blob[2]) {
      var kind, order, count := blob[2], blob[4], Count(blob, arch);
      hide Count, SplineSize, Words;
      SplineSizeExact(count, |blob|);
      SplineWords(order, Positive(count));
      if kind != THIN_PLATE_SPLINE {
        PolynomialWords(kind, order);
      }
    }
  }

  lemma SplineSizeExact(count: int, n: nat)
    ensures n == SplineSize(count) && 0 <= count <= MAX_POINTS <==>
      n == 65 + 54 * count && 0 <= count && n < 0x8000_0000
  {
    hide SplineSize;
    SplineSizeWraps(count);
  }

  lemma SplineWords(order: byte, count: nat)
    ensures 11 + 9 * Words(THIN_PLATE_SPLINE, order, count) == 65 + 54 * count
  {
  }

  lemma PolynomialWords(kind: byte, order: byte)
    requires KnownKind(kind) && kind != THIN_PLATE_SPLINE
    ensures Words(kind, order, 0) <= 60
  {
  }

  // ----- the validity test -----

  datatype Verdict = Refused | Accepted | PastEnd

  function Positive(n: int): nat {
    if n > 0 then n else 0
  }

  /** Delimiters from number k up to n, in order. */
  function Marks(blob: seq<byte>, k: nat, n: nat): Verdict
    decreases n - k
  {
    if k >= n then Accepted
    else if 10 + 9 * k >= |blob| then PastEnd
    else if blob[10 + 9 * k] != MAGIC_DELIMITER then Refused
    else Marks(blob, k + 1, n)
  }

  /** The mark behind n doubles. */
  function EndMark(blob: seq<byte>, n: nat): Verdict {
    if 10 + 9 * n >= |blob| then PastEnd else if blob[10 + 9 * n] == MAGIC_END then Accepted else Refused
  }

  /** How many doubles the loops of the readers expect. */
  function Expected(kind: byte, order: byte, count: int): nat {
    if kind == THIN_PLATE_SPLINE then 2 * Positive(Wrap32(count + 3)) + 4 * Positive(count) else Words(kind, order, 0)
  }

  /** gaiaPolynomialIsValid, with a verdict of its own for a test of a byte behind the blob. */
  function Validity(blob: seq<byte>, arch: bool): Verdict {
    if !Sized(blob, arch) || blob[4] > 3 then Refused
    else
      var n := Expected(blob[2], blob[4], Count(blob, arch));
      var marks := Marks(blob, 0, n);
      if marks != Accepted then marks else EndMark(blob, n)
  }

  lemma {:induction false} MarksAre(blob: seq<byte>, k: nat, n: nat)
    ensures Marks(blob, k, n) == Accepted <==> forall j {:trigger Delimited(blob, j)} | k <= j < n :: Delimited(blob, j)
    ensures Marks(blob, k, n) == PastEnd <==>
      k < n && 10 + 9 * (n - 1) >= |blob|
      && forall j {:trigger Delimited(blob, j)} | k <= j < n && 10 + 9 * j < |blob| :: Delimited(blob, j)
    decreases n - k
  {
    if k < n {
      MarksAre(blob, k + 1, n);
      assert Delimited(blob, k) <==> 10 + 9 * k < |blob| && blob[10 + 9 * k] == MAGIC_DELIMITER;
    }
  }

  lemma {:induction false} MarksCompose(blob: seq<byte>, k: nat, m: nat, n: nat)
    requires k <= m <= n
    ensures Marks(blob, k, n) == if Marks(blob, k, m) == Accepted then Marks(blob, m, n) else Marks(blob, k, m)
    decreases m - k
  {
    if k < m {
      MarksCompose(blob, k + 1, m, n);
    }
  }

  /** With a count that fits, the loops expect what the length provides. */
  lemma ExpectedFits(blob: seq<byte>, arch: bool)
    requires WellSized(blob, arch)
    ensures 10 + 9 * Expected(blob[2], blob[4], Count(blob, arch)) == |blob| - 1
  {
  }

  /** With one that does not, they expect nothing at all or more than there is. */
  lemma ExpectedUnfit(blob: seq<byte>, arch: bool)
    requires Sized(blob, arch) && !CountFits(blob, arch)
    ensures var count := Count(blob, arch); var n := Expected(blob[2], blob[4], count);
      if count <= -3 then n == 0 && |blob| >= 13 else n > 0 && 10 + 9 * (n - 1) >= |blob|
  {
    hide Count, SplineSize;
    var count := Count(blob, arch);
    SplineSizeWraps(count);
    CountRange(blob, arch);
    hide Wrap32, Words, Expected;
    SmallSizes();
    if count > -3 {
      LoopsOutrun(blob[4], count, |blob|);
    } else {
      NoLoops(blob[4], count);
    }
  }

  lemma SmallSizes()
    ensures Wrap32(65 - 54) == 11 && Wrap32(65 - 108) == -43
    ensures forall count :: Wrap32(65 + 54 * count) != 12
  {
    forall count ensures Wrap32(65 + 54 * count) != 12 {
      WrappedOdd(count);
    }
  }

  lemma NoLoops(order: byte, count: int)
    requires -0x8000_0000 <= count <= -3
    ensures Expected(THIN_PLATE_SPLINE, order, count) == 0
  {
  }

  lemma LoopsOutrun(order: byte, count: int, length: nat)
    requires (count == -1 && length == 11) || (MAX_POINTS < count < 0x8000_0000 && length < 0x8000_0000)
    ensures var n := Expected(THIN_PLATE_SPLINE, order, count); n > 0 && 10 + 9 * (n - 1) >= length
  {
  }

  lemma CountRange(blob: seq<byte>, arch: bool)
    requires |blob| >= 11
    ensures -0x8000_0000 <= Count(blob, arch) < 0x8000_0000
  {
    assert Pow256(4) == 0x1_0000_0000;
  }

  /** A spline that passes for valid with a count below -2: no loop runs, and the end mark follows the header. */
  predicate Misread(blob: seq<byte>, arch: bool) {
    Sized(blob, arch) && IsSpline(blob) && blob[4] <= 3 && Count(blob, arch) <= -3 && blob[10] == MAGIC_END
  }

  /** The loops walk out of a spline whose count is -1 or too large. */
  predicate Overruns(blob: seq<byte>, arch: bool) {
    Sized(blob, arch) && IsSpline(blob) && (Count(blob, arch) == -1 || Count(blob, arch) > MAX_POINTS)
  }

  /** No test can have a count of -2. */
  lemma UnfitCounts(blob: seq<byte>, arch: bool)
    requires Sized(blob, arch) && !CountFits(blob, arch)
    ensures Count(blob, arch) <= -3 || Overruns(blob, arch)
  {
    hide Count, SplineSize;
    SplineSizeWraps(Count(blob, arch));
    assert Wrap32(65 - 108) == -43;
  }

  /** gaiaPolynomialIsValid accepts the valid blobs and the misread ones, and where it reads past the end. */
  lemma ValidityIs(blob: seq<byte>, arch: bool)
    ensures Validity(blob, arch) == Accepted <==> IsValid(blob, arch) || Misread(blob, arch)
    ensures Validity(blob, arch) == PastEnd <==>
      Overruns(blob, arch) && blob[4] <= 3
      && forall j {:trigger Delimited(blob, j)} | 0 <= j && 10 + 9 * j < |blob| :: Delimited(blob, j)
    ensures CountFits(blob, arch) ==> (Validity(blob, arch) == Accepted <==> IsValid(blob, arch))
  {
    SizeTestExact(blob, arch);
    if Sized(blob, arch) && blob[4] <= 3 {
      hide Sized, WellSized;
      if CountFits(blob, arch) {
        ValidityFits(blob, arch);
      } else {
        ValidityUnfit(blob, arch);
      }
    }
  }

  lemma ValidityFits(blob: seq<byte>, arch: bool)
    requires Sized(blob, arch) && WellSized(blob, arch) && blob[4] <= 3
    ensures Validity(blob, arch) == if IsValid(blob, arch) then Accepted else Refused
  {
    MarksAre(blob, 0, Expected(blob[2], blob[4], Count(blob, arch)));
    ExpectedFits(blob, arch);
    hide Sized, WellSized, Expected, Count, Marks;
  }

  lemma ValidityUnfit(blob: seq<byte>, arch: bool)
    requires Sized(blob, arch) && !CountFits(blob, arch) && blob[4] <= 3
    ensures Validity(blob, arch)
      == if Count(blob, arch) <= -3 then if blob[10] == MAGIC_END then Accepted else Refused
         else if forall j {:trigger Delimited(blob, j)} | 0 <= j && 10 + 9 * j < |blob| :: Delimited(blob, j)
           then PastEnd else Refused
    ensures Count(blob, arch) <= -3 || Overruns(blob, arch)
  {
    MarksAre(blob, 0, Expected(blob[2], blob[4], Count(blob, arch)));
    ExpectedUnfit(blob, arch);
    UnfitCounts(blob, arch);
    hide Sized, Expected, Count, Marks;
  }

  // ----- the decoder -----

  /** What blob_decode makes of a blob: grass_cp.count may be negative, and then nothing was read. */
  datatype Reading = Rejected | Overrun | Decoded(coeffs: Coeffs, count: int)

  function ReadSpline(blob: seq<byte>, arch: bool): Reading
    requires IsSpline(blob)
  {
    var count := Count(blob, arch);
    var n, m := Positive(Wrap32(count + 3)), Positive(count);
    if n + m > 0 && 10 + 9 * (2 * n + 4 * m) > |blob| then Overrun
    else Decoded(Coeffs(THIN_PLATE_SPLINE, blob[4], Column(blob, 0, 2, n, arch), Column(blob, 1, 2, n, arch), [],
      Points(Column(blob, 2 * n, 4, m, arch), Column(blob, 2 * n + 1, 4, m, arch),
             Column(blob, 2 * n + 2, 4, m, arch), Column(blob, 2 * n + 3, 4, m, arch)), seq(m, _ => 1)), count)
  }

  /** blob_decode */
  function Read(blob: seq<byte>, arch: bool): Reading {
    if !Sized(blob, arch) || blob[4] < 1 || blob[4] > 3 then Rejected
    else if IsSpline(blob) then ReadSpline(blob, arch)
    else
      SizeTestExact(blob, arch);
      Decoded(Decode(blob, arch).value, 0)
  }

  /** blob_decode is right for exactly the blobs whose count fits; of the others it takes nothing or overruns them. */
  lemma ReadIs(blob: seq<byte>, arch: bool)
    ensures Decode(blob, arch).Some? <==> Read(blob, arch).Decoded? && CountFits(blob, arch)
    ensures Decode(blob, arch).Some? ==>
      Read(blob, arch) == Decoded(Decode(blob, arch).value, |Decode(blob, arch).value.status|)
    ensures Read(blob, arch).Decoded? && !CountFits(blob, arch) <==>
      Sized(blob, arch) && IsSpline(blob) && 1 <= blob[4] <= 3 && Count(blob, arch) <= -3
    ensures Read(blob, arch).Decoded? && !CountFits(blob, arch) ==>
      Read(blob, arch) == Decoded(Coeffs(THIN_PLATE_SPLINE, blob[4], [], [], [], NO_POINTS, []), Count(blob, arch))
    ensures Read(blob, arch) == Overrun <==> Overruns(blob, arch) && 1 <= blob[4] <= 3
  {
    SizeTestExact(blob, arch);
    if Sized(blob, arch) && 1 <= blob[4] <= 3 {
      hide Sized;
      if !IsSpline(blob) {
        PolynomialHasNoPoints(blob, arch);
      } else if CountFits(blob, arch) {
        ReadFits(blob, arch);
      } else {
        ReadUnfit(blob, arch);
      }
    }
  }

  lemma PolynomialHasNoPoints(blob: seq<byte>, arch: bool)
    requires Decode(blob, arch).Some? && !IsSpline(blob)
    ensures |Decode(blob, arch).value.status| == 0
  {
  }

  lemma ReadFits(blob: seq<byte>, arch: bool)
    requires WellSized(blob, arch) && IsSpline(blob) && 1 <= blob[4] <= 3
    ensures Decode(blob, arch).Some? && |Decode(blob, arch).value.status| == Count(blob, arch)
    ensures ReadSpline(blob, arch) == Decoded(Decode(blob, arch).value, Count(blob, arch))
  {
    hide Column, Count;
  }

  lemma ReadUnfit(blob: seq<byte>, arch: bool)
    requires Sized(blob, arch) && IsSpline(blob) && !CountFits(blob, arch)
    ensures if Count(blob, arch) <= -3
      then ReadSpline(blob, arch)
        == Decoded(Coeffs(THIN_PLATE_SPLINE, blob[4], [], [], [], NO_POINTS, []), Count(blob, arch))
      else Overruns(blob, arch) && ReadSpline(blob, arch) == Overrun
  {
    ExpectedUnfit(blob, arch);
    UnfitCounts(blob, arch);
    CountRange(blob, arch);
    hide Count, Sized, Column;
    if Count(blob, arch) <= -3 {
      NothingRead(blob, arch);
    } else {
      hide ReadSpline;
      TooMuchRead(blob, arch);
    }
  }

  lemma NothingRead(blob: seq<byte>, arch: bool)
    requires IsSpline(blob) && -0x8000_0000 <= Count(blob, arch) <= -3
    ensures ReadSpline(blob, arch)
      == Decoded(Coeffs(THIN_PLATE_SPLINE, blob[4], [], [], [], NO_POINTS, []), Count(blob, arch))
  {
    hide Count, Column;
  }

  lemma TooMuchRead(blob: seq<byte>, arch: bool)
    requires IsSpline(blob) && -0x8000_0000 <= Count(blob, arch) < 0x8000_0000
    requires var n := Expected(THIN_PLATE_SPLINE, blob[4], Count(blob, arch)); n > 0 && 10 + 9 * (n - 1) >= |blob|
    ensures ReadSpline(blob, arch) == Overrun
  {
    hide Count, Column, Wrap32;
  }

  // ----- the lengths that are wrongly accepted -----

  /** A spline of n bytes that announces count control points and ends behind its header. */
  function Misfit(n: nat, count: int, arch: bool): (blob: seq<byte>)
    requires n >= 11
    ensures |blob| == n
  {
    [MAGIC_START, 1, THIN_PLATE_SPLINE, MAGIC_DELIMITER, 1, MAGIC_DELIMITER]
    + Export(count % 0x1_0000_0000, 4, true, arch) + [MAGIC_END] + seq(n - 11, _ => 0)
  }

  lemma MisfitCount(n: nat, count: int, arch: bool)
    requires n >= 11 && -0x8000_0000 <= count < 0x8000_0000
    ensures var b := Misfit(n, count, arch);
      b[0] == MAGIC_START && b[1] == 1 && b[2] == THIN_PLATE_SPLINE && b[4] == 1 && b[10] == MAGIC_END
      && Count(b, arch) == count
  {
    hide Import, Export;
    assert Misfit(n, count, arch)[6..10] == Export(count % 0x1_0000_0000, 4, true, arch);
    assert Pow256(4) == 0x1_0000_0000;
    ExportImport(count % 0x1_0000_0000, 4, true, arch, arch);
  }

  /** The negative count whose size wraps around to n: 1749801491 is the inverse of 27 modulo 2^31. */
  function CountFor(n: int): int {
    1749801491 * ((n - 65) / 2) % 0x8000_0000 - 0x8000_0000
  }

  lemma CountForFits(n: int)
    requires n % 2 == 1 && 13 <= n < 0x8000_0000
    ensures -0x8000_0000 <= CountFor(n) <= -3 && Wrap32(65 + 54 * CountFor(n)) == n
  {
    CountForNegative(n);
    hide CountFor;
    var pages := CountForPages(n);
    WrapPages(n, pages);
    assert Wrap32(n) == n;
    hide Wrap32;
    SmallSizes();
  }

  lemma CountForPages(n: int) returns (pages: int)
    requires n % 2 == 1
    ensures 65 + 54 * CountFor(n) == n + 0x1_0000_0000 * pages
  {
    var h := (n - 65) / 2;
    var product := 1749801491 * h;
    var q := product / 0x8000_0000;
    assert CountFor(n) == product - 0x8000_0000 * q - 0x8000_0000;
    hide CountFor;
    pages := 22 * h - 27 * q - 27;
  }

  lemma CountForNegative(n: int)
    ensures -0x8000_0000 <= CountFor(n) < 0
  {
  }

  /** Every odd length from 13 on is accepted for some blob that is not valid, and no other length is. */
  lemma MisreadLengths(n: nat, arch: bool)
    ensures (exists blob :: |blob| == n && Validity(blob, arch) == Accepted && !IsValid(blob, arch))
      <==> n % 2 == 1 && 13 <= n < 0x8000_0000
  {
    hide Validity, IsValid;
    if n % 2 == 1 && 13 <= n < 0x8000_0000 {
      CountForFits(n);
      MisfitMisread(n, CountFor(n), arch);
    }
    forall blob | |blob| == n && Validity(blob, arch) == Accepted && !IsValid(blob, arch)
      ensures n % 2 == 1 && 13 <= n < 0x8000_0000
    {
      ValidityIs(blob, arch);
      MisreadLength(blob, arch);
    }
  }

  lemma MisfitMisread(n: nat, count: int, arch: bool)
    requires n >= 11 && -0x8000_0000 <= count <= -3 && Wrap32(65 + 54 * count) == n
    ensures var b := Misfit(n, count, arch);
      && |b| == n && Validity(b, arch) == Accepted && !IsValid(b, arch)
      && Read(b, arch) == Decoded(Coeffs(THIN_PLATE_SPLINE, 1, [], [], [], NO_POINTS, []), count)
  {
    hide Misfit, SplineSize;
    var b := Misfit(n, count, arch);
    MisfitCount(n, count, arch);
    SplineSizeWraps(count);
    ValidityIs(b, arch);
    SizeTestExact(b, arch);
    ReadIs(b, arch);
    assert Misread(b, arch);
    hide Read, Validity, IsValid;
  }

  lemma MisreadLength(blob: seq<byte>, arch: bool)
    requires Misread(blob, arch)
    ensures |blob| % 2 == 1 && 13 <= |blob| < 0x8000_0000
  {
    ExpectedUnfit(blob, arch);
    hide Count, SplineSize, Expected;
    SplineSizeWraps(Count(blob, arch));
    WrappedOdd(Count(blob, arch));
    hide Wrap32;
  }

  /** A 65-byte blob with a count of -2^31: accepted and decoded, though there is nothing in it. */
  lemma SmallestCountAccepted(arch: bool)
    ensures var b := Misfit(65, -0x8000_0000, arch);
      && Validity(b, arch) == Accepted && !IsValid(b, arch)
      && Read(b, arch) == Decoded(Coeffs(THIN_PLATE_SPLINE, 1, [], [], [], NO_POINTS, []), -0x8000_0000)
  {
    MisfitMisread(65, -0x8000_0000, arch);
  }

  /** An eleven-byte blob with a count of -1 is read past its end by both readers. */
  lemma MinusOneOverruns(arch: bool)
    ensures var b := Misfit(11, -1, arch)[10 := MAGIC_DELIMITER];
      Validity(b, arch) == PastEnd && Read(b, arch) == Overrun
  {
    hide Misfit, SplineSize;
    var b := Misfit(11, -1, arch)[10 := MAGIC_DELIMITER];
    MisfitCount(11, -1, arch);
    assert b[6..10] == Misfit(11, -1, arch)[6..10];
    SplineSizeWraps(-1);
    ValidityIs(b, arch);
    ReadIs(b, arch);
    assert Overruns(b, arch);
    hide Read, Validity;
  }
}
