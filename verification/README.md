# Verified model of the SpatiaLite, SQLite shell and extension-function cores

This project models the computational cores of a tree that bundles SpatiaLite, the SQLite 3.20.1 command-line shell
and a set of SQL extension functions, and proves what those cores are for. `dafny verify dfyconfig.toml` checks all
of it.

- **Control-point solvers** (`Vectors` to `ThinPlateSpline`). Polynomial transforms of orders 1 to 3 in the plane and
  in space, and thin-plate splines. The matrix is built and eliminated in place, as in the source, over exact reals.
  The solver gives the unique solution of the original system or proves the matrix singular; exact fits interpolate;
  over-determined fits minimise the sum of squared errors over all coefficient vectors; a spline is characterised as
  the only balanced interpolant. `Monomials`, `Acceptance3D` and `SplineMeaning` say which polynomials, which
  tolerance and which kernel these are. A flat, one-based matrix of the source is a zero-based `array2` here.
- **Coefficient BLOBs** (`PolynomialBlob` to `PolynomialTransform`). The encoders, the decoder and the validity test,
  byte for byte, for machines of either byte order (`Layouts` spells out every byte), and the whole chain: fit, encode,
  decode, transform. A double is its 64-bit pattern; `value` is whatever real each pattern denotes.
- **SHA-3** (`Fips202` to `Sha3Query`). FIPS 202 is written out on bit strings. The hand-unrolled, in-place,
  lane-permuting permutation refines it; so does the incremental sponge with its aligned word path and index mask, for
  messages cut in any way. The byte stream that `sha3_query()` hashes is uniquely decodable.
- **Printers and parsers that undo each other**: CSV (`Csv`, `CsvShell`), SQL literals that hide line ends
  (`SqlLiteral`, `SqlLiteralPrinter`), C strings and the in-place dot-command tokenizer (`DotCommand`,
  `MetaCommand`), degrees-minutes-seconds (`Dms`, `DmsText`). `CsvFiles`, `RowSeparators`, `DotArguments`
  and `DmsNotation` go beyond what is printed: every file of records and every row separator, every way of writing an
  argument and every notation of a coordinate.
- **Aggregates** (`CountedItems` to `ModeMedian`, `Variance`, `PairwiseVariance`). The mutable counted tree, the
  order-statistic scans over it, and the one-pass variance.
- **The connection pool** (`ConnectionPool`, `PoolProgress`, `PoolRuns`). Threads as interleaved steps: allocation
  under the mutex, release without it, messages through per-slot handlers. It is safe, and it gets things done.

Loops, buffers and objects of the source are loops, arrays and classes here; each method is tied to a specification
function, and the theorems are about those functions. Where a property fails, the code is kept as it is and the exact
condition is proved:

- The 3D solver compares pivots with 1e-15, so it refuses some solvable systems: `Acceptance3D.TinyPivotRefused`
  exhibits a family of them, `Acceptance3D.StairsAccepted` draws the line at 1e-15 on both sides for every four-point
  design of one shape, and `SolveMat3.SolveMatThree` states exactly when any system is accepted.
- `mode()` and the percentiles read 64-bit integers through an `int` pointer, and the percentiles keep their ranks in
  `int` too. `OrderStatistics.ModeExact` and `ModeMedian.PercentileJudged` say exactly which results are right, for a
  little-endian machine with 32-bit `int`; `ModeMedian.RightLengths` says that ranks are safe below 2^31 values.
- `gaiaPolynomialIsValid` accepts order 0, which `blob_decode` refuses: `PolynomialBlob.ValidDecodes`.
- Both readers of BLOBs compute the size of a spline in `size_t` and narrow it to `int`, so it can match for a negative
  or an enormous count. `PolynomialReaders.SizeTestExact` shows that the test is right for counts from 0 to 39768214;
  `ValidityIs`, `ReadIs` and `MisreadLengths` say exactly what happens for the others, `SmallestCountAccepted` and
  `MinusOneOverruns` give a blob each. The encoder has the same limit: `PolynomialCodec.BlobEncodeTps`.
- The comment above `sha3QueryFunc` promises little-endian integers and floats; the code writes them most significant
  byte first, and so does the model.
- `azArg` has 50 entries, so 50 printed strings come back from a dot-command line, and further ones are dropped.
- A point without height goes through the plane evaluator even when the BLOB holds coefficients for space, which are
  numbered otherwise. `PolynomialTransform.PlaneThroughSpatial` says exactly for which coefficients that is harmless;
  `PolynomialTransform.PlaneGoesWrong` gives some for which it is not.
- The near-collinearity test starts its extremes from point 0 even when that is not active.
  `ThinPlateSpline.PointZeroMatters` says exactly when that changes them; `ThinPlateSpline.FarPointRefused` is a fit
  refused for it.
- The range tests on degrees, minutes and seconds in `gaiaParseDMS` (such as `< 0 && > 90`) can never be met and are
  left out. `Dms.PartsAccepted` says what is accepted instead, sixty seconds and `Dms.SeventyFiveMinutes` included.

## Model

| member | source | states |
|---|---|---|
| `SolveMat.FindPivot` | libspatialite/src/control_points/grass_georef.c:423-433 | the row marked holds an entry of the column at or below the diagonal whose magnitude no other such entry exceeds |
| `SolveMat.Pass2` | libspatialite/src/control_points/grass_georef.c:417-476 | one pass over the augmented table keeps its null space and leaves one more column a multiple of a unit column, or stops because no pivot is left |
| `SolveMat.SolveMat2` | libspatialite/src/control_points/grass_georef.c:411-488 | for every n by n real system: MUNSOLVABLE exactly when the original matrix has a non-zero kernel vector; on success each output vector solves the original system for its right-hand side and is the only solution; on failure the outputs are untouched |
| `SolveMat.PassInvariant` | libspatialite/src/control_points/grass_georef.c:444-475 | bringing up the pivot row and clearing the column changes no solution of the original equations and extends the reduced part by a column |
| `SolveMat3.SolveMatThree` | libspatialite/src/control_points/grass_crs3d.c:493-577 | success exactly when every pivot met has magnitude at least 1e-15; then the three outputs are the unique exact solutions of the original system |
| `SolveMat3.AcceptanceIgnoresSides` | libspatialite/src/control_points/grass_crs3d.c:498-524 | whether the three-sided solver accepts depends on the matrix alone, not on the right-hand sides |
| `LeastSquares.LossExpansion` | libspatialite/src/control_points/grass_georef.c:301-348 | moving a coefficient vector changes the sum of squared residuals by the square of the fitted change plus twice its pairing with the defect of the normal equations |
| `LeastSquares.NormalIsBest` | libspatialite/src/control_points/grass_georef.c:301-348 | a solution of the normal equations attains the least sum of squared residuals over all coefficient vectors, and is the only one when the matrix is regular |
| `LeastSquares.NormalSingular` | libspatialite/src/control_points/grass_georef.c:301-348 | the normal matrix is singular exactly when a non-zero coefficient vector vanishes at every point |
| `LeastSquares.ExactIsBest` | libspatialite/src/control_points/grass_georef.c:261-290 | a vector that fits every point exactly is the unique least-squares fit when the points are not degenerate |
| `Georef.ExpandIsDot` | libspatialite/src/control_points/grass_georef.c:99-151 | the written-out polynomial of each order equals the sum of coefficients times numbered terms, so evaluator and matrix builder agree on the numbering |
| `Georef.Populate` | libspatialite/src/control_points/grass_georef.c:267-284 | the matrix and sides hold one row of terms and one target pair per active point, in order, whatever the skip pattern |
| `Georef.Accumulate` | libspatialite/src/control_points/grass_georef.c:309-336 | the upper half of the matrix and the sides are the sums that make up the normal equations of the active points |
| `Georef.Mirror` | libspatialite/src/control_points/grass_georef.c:343-345 | the lower half becomes the mirror image of the upper half, which stays |
| `Georef.ExactDet` | libspatialite/src/control_points/grass_georef.c:261-290 | with as many active points as terms: the status says whether the points are degenerate, and on success the coefficients reproduce every active target |
| `Georef.CalcLs` | libspatialite/src/control_points/grass_georef.c:301-348 | with more active points than terms: the status says whether the points are degenerate, and on success the coefficients are the unique least-squares fit |
| `Georef.CalcCoef` | libspatialite/src/control_points/grass_georef.c:211-253 | too few points, degenerate points or success, each exactly when the points say so; the fitted vectors on success, untouched ones otherwise |
| `Georef.ComputeGeorefEquations` | libspatialite/src/control_points/grass_georef.c:161-201 | forward and backward fits for orders 1 to 3 and MPARMERR for every other order; the exchanged coordinate arrays are restored on every exit |
| `Georef.FitIsOptimal` | libspatialite/src/control_points/grass_georef.c:301-348 | no coefficient vector whatever has a smaller sum of squared errors at the active points than the fitted one |
| `Georef.FitInterpolates` | libspatialite/src/control_points/grass_georef.c:99-151 | with exactly the minimum number of active points the evaluator sends each of them exactly to its target |
| `Georef.UnsolvableMeaning` | libspatialite/src/control_points/grass_georef.c:411-441 | a fit is refused exactly when some polynomial of the order that is not zero vanishes at all active points |
| `Monomials.TermIsMonomial` | libspatialite/src/control_points/grass_georef.c:362-389 | each of the ten terms is the product of powers of easting and northing its exponents name |
| `Monomials.EveryMonomialOnce` | libspatialite/src/control_points/grass_georef.c:362-389 | a fit of order 1, 2 or 3 has 3, 6 or 10 terms, and every monomial of total degree up to the order is exactly one of them |
| `Georef3D.ExpandIsDot` | libspatialite/src/control_points/grass_crs3d.c:85-167 | the expanded evaluator with 4, 10 or 20 coefficients equals the sum over numbered terms |
| `Monomials.TermIsMonomial3` | libspatialite/src/control_points/grass_crs3d.c:414-464 | each of the twenty terms in space is the product of powers its exponents name |
| `Monomials.EveryMonomialOnce3` | libspatialite/src/control_points/grass_crs3d.c:414-464 | in space there are 4, 10 or 20 terms, every monomial of total degree up to the order exactly one of them |
| `Monomials.OrdersEvaluated` | libspatialite/src/control_points/grass_crs3d.c:85-167 | both fits and both evaluators know orders 1, 2 and 3 and no other |
| `Monomials.PointsNeeded` | libspatialite/src/control_points/grass_georef.c:211-253 | too few points are reported exactly below 3, 6 or 10 active ones in the plane and 4, 10 or 20 in space |
| `Georef3D.ExactDet` | libspatialite/src/control_points/grass_crs3d.c:301-334 | with as many active points as terms: the outcome of the thresholded solver, and exact reproduction of all three target coordinates on success |
| `Georef3D.CalcLs` | libspatialite/src/control_points/grass_crs3d.c:345-397 | with more points than terms: normal equations of all three coordinates, and the least-squares fit of each on success |
| `Georef3D.ComputeGeorefEquations3D` | libspatialite/src/control_points/grass_crs3d.c:177-223 | status and coefficients in both directions in space; all six coordinate arrays are restored on every exit |
| `Georef3D.FitInterpolates` | libspatialite/src/control_points/grass_crs3d.c:85-167 | in space too, a minimum-size forward fit sends every active point exactly to its target |
| `Georef3D.FitInterpolatesBack` | libspatialite/src/control_points/grass_crs3d.c:85-223 | backward too: the coefficients of the second fit send every active target exactly to its source |
| `Georef3D.FitIsOptimal` | libspatialite/src/control_points/grass_crs3d.c:345-397 | no other coefficients of a coordinate have a smaller sum of squared errors at the active points |
| `Georef3D.DegenerateRefused` | libspatialite/src/control_points/grass_crs3d.c:522-523 | degenerate points are always refused: elimination of a singular matrix meets a pivot below any positive threshold |
| `Acceptance3D.StairsAccepted` | libspatialite/src/control_points/grass_crs3d.c:493-577 | for all four-point designs that step from the first point, a in easting and anything else, d in northing and any height, f in height: accepted exactly when each of the three steps is at most -1e-15 or at least 1e-15, the number written out |
| `Acceptance3D.StairsFullRank` | libspatialite/src/control_points/grass_crs3d.c:493-577 | such a design has full rank whenever its steps are not zero, however small |
| `Acceptance3D.TinyPivotRefused` | libspatialite/src/control_points/grass_crs3d.c:522-523 | so the converse of `DegenerateRefused` fails: a design of full rank is refused when one of its steps is positive but below 1e-15 |
| `ThinPlateSpline.GeorefTps` | libspatialite/src/control_points/grass_georef_tps.c:91-131 | the evaluator accumulates the affine part and one weighted base function per active centre, for any skip pattern |
| `SplineMeaning.KernelIs` | libspatialite/src/control_points/grass_georef_tps.c:526-538 | the base function, computed from the squared distance, is r * r * log(r) at distance r and zero at distance zero, for every log with log(r * r) = 2 log(r) |
| `SplineMeaning.SplineIs` | libspatialite/src/control_points/grass_georef_tps.c:91-131 | a spline is an affine part plus its weights times r * r * log(r), r being the distance from each active centre |
| `ThinPlateSpline.FillBorder` | libspatialite/src/control_points/grass_georef_tps.c:365-382 | the three border rows and columns of the spline matrix and the target sides, for the active points in order |
| `ThinPlateSpline.FillKernel` | libspatialite/src/control_points/grass_georef_tps.c:387-413 | the symmetric kernel block of base functions between all pairs of active points |
| `ThinPlateSpline.CalcCoefTps` | libspatialite/src/control_points/grass_georef_tps.c:285-330 | success exactly when the spline system is regular, with the unique solutions for both target coordinates |
| `ThinPlateSpline.TestCollinear` | libspatialite/src/control_points/grass_georef_tps.c:169-205 | the near-collinearity test decides by its formula on sums over the active points and on extremes over these and point 0, active or not, a zero denominator included |
| `ThinPlateSpline.PointZeroMatters` | libspatialite/src/control_points/grass_georef_tps.c:168-205 | the extremes are those of the active points exactly when point 0 lies in their box, as it does when it is active; then the test is about the active points alone |
| `SplineMeaning.NearlyCollinearMeans` | libspatialite/src/control_points/grass_georef_tps.c:194-205 | a side is nearly collinear exactly when its box is more than a thousand times longer than wide or the square of the correlation of its coordinates, taken about their means, exceeds 99 hundredths |
| `SplineMeaning.CountsAllowed` | libspatialite/src/control_points/grass_georef_tps.c:156-166 | too few or too many points are reported exactly below 3 and above 100000 active ones |
| `ThinPlateSpline.FarPointRefused` | libspatialite/src/control_points/grass_georef_tps.c:168-205 | three active points at right angles are refused because an inactive point 0 is far away |
| `ThinPlateSpline.ComputeGeorefEquationsTps` | libspatialite/src/control_points/grass_georef_tps.c:141-275 | point count limits, collinearity tests on both sides, both fits in turn; arrays restored |
| `ThinPlateSpline.SolvesMeaning` | libspatialite/src/control_points/grass_georef_tps.c:342-423 | solving the spline system is the same as meeting every active target exactly with weights that sum to zero and are orthogonal to both source coordinates |
| `ThinPlateSpline.SplineCharacterised` | libspatialite/src/control_points/grass_georef_tps.c:342-423 | the fitted vectors are the only ones with that property |
| `ThinPlateSpline.LineIsSingular` | libspatialite/src/control_points/grass_georef_tps.c:474-475 | source points on a line are always refused by the elimination |
| `ThinPlateSpline.DuplicateIsSingular` | libspatialite/src/control_points/grass_georef_tps.c:474-475 | two active points with one source position are always refused |
| `SplineMeaning.ThreePointsRegular` | libspatialite/src/control_points/grass_georef_tps.c:342-423 | three active points that are not on a line always have a regular spline system |
| `PolynomialBlob.ExportImport` | libspatialite/src/gaiageo/gg_endian.c:119-170 | a fixed-width value exported on a machine of either byte order is imported unchanged on a machine of either byte order |
| `Layouts.Blob2DBytes` | libspatialite/src/control_points/gaia_control_points.c:355-403 | every byte of a plane blob: marks and kind as numbers, order, zero count, 3, 6 or 10 pairs of little-endian doubles, easting before northing |
| `Layouts.Blob3DBytes` | libspatialite/src/control_points/gaia_control_points.c:300-351 | every byte of a spatial blob: 4, 10 or 20 triples of little-endian doubles, easting, northing, height |
| `Layouts.BlobTpsBytes` | libspatialite/src/control_points/gaia_control_points.c:407-464 | every byte of a spline blob: the count, count + 3 pairs of weights, then source and target of each control point |
| `Layouts.ValidExactly` | libspatialite/src/control_points/gaia_control_points.c:732-851 | what makes any bytes a valid blob, in numbers: marks, endian flag, kind, order up to 3, the length for kind, order and count, every delimiter and the end mark |
| `Layouts.WordBytesAre` | libspatialite/src/control_points/gaia_control_points.c:468-593 | each double of any blob is read from its eight bytes in the order the endian flag names, on machines of either order |
| `Layouts.CountBytesAre` | libspatialite/src/control_points/gaia_control_points.c:783 | the count likewise, in two's complement |
| `PolynomialBlob.BlobValid` | libspatialite/src/control_points/gaia_control_points.c:732-851 | a blob in the layout of the encoders is valid exactly when it is not too long for an int: a spline of at most 39768214 points |
| `PolynomialBlob.Decode2D` | libspatialite/src/control_points/gaia_control_points.c:355-403 | a 2D polynomial of order 1 to 3 is valid and decodes to its kind, order and coefficients |
| `PolynomialBlob.Decode3D` | libspatialite/src/control_points/gaia_control_points.c:300-351 | a 3D polynomial of order 1 to 3 is valid and decodes to its kind, order and three coefficient vectors |
| `PolynomialBlob.DecodeTps` | libspatialite/src/control_points/gaia_control_points.c:407-464 | a spline of at most 39768214 points is valid and decodes to its weights and control points, all of them active; a larger one is neither valid nor decodable |
| `PolynomialBlob.ValidDecodes` | libspatialite/src/control_points/gaia_control_points.c:759-760 | a blob the validity test accepts is decodable exactly when its order is not zero |
| `PolynomialReaders.SizeTestExact` | libspatialite/src/control_points/gaia_control_points.c:531-541 | the size test, computed in size_t and narrowed to int, agrees with the layout for every blob whose count is from 0 to 39768214 |
| `PolynomialReaders.ValidityIs` | libspatialite/src/control_points/gaia_control_points.c:732-851 | accepted are exactly the valid blobs and the splines with a count below -2 whose wrapped size is right and whose header is followed by the end mark; read past the end are exactly those with a count of -1 or above 39768214 whose delimiters are all right |
| `PolynomialReaders.ReadIs` | libspatialite/src/control_points/gaia_control_points.c:468-593 | decoded rightly are exactly the blobs whose count fits; a wrapped size with a count below -2 decodes to nothing, one with a count of -1 or above 39768214 is read past its end |
| `PolynomialReaders.MisreadLengths` | libspatialite/src/control_points/gaia_control_points.c:784-794 | blobs that are accepted without being valid exist for every odd length from 13 up to 2^31 and for no other length |
| `PolynomialReaders.SmallestCountAccepted` | libspatialite/src/control_points/gaia_control_points.c:784-794 | a 65-byte spline with a count of -2^31 is accepted and decoded |
| `PolynomialReaders.MinusOneOverruns` | libspatialite/src/control_points/gaia_control_points.c:784-794 | an eleven-byte spline with a count of -1 is read past its end by both readers |
| `PolynomialCodec.BlobEncode2D` | libspatialite/src/control_points/gaia_control_points.c:355-403 | the pointer-driven encoder writes exactly the specified 2D layout |
| `PolynomialCodec.BlobEncode3D` | libspatialite/src/control_points/gaia_control_points.c:300-351 | the pointer-driven encoder writes exactly the specified 3D layout |
| `PolynomialCodec.BlobEncodeTps` | libspatialite/src/control_points/gaia_control_points.c:407-464 | the pointer-driven encoder writes exactly the specified spline layout when the count fits; otherwise its int size is negative or its buffer is too short, and which is said |
| `PolynomialCodec.PolynomialIsValid` | libspatialite/src/control_points/gaia_control_points.c:732-851 | every verdict of the code, reading past the end included; with a count that fits, accepted exactly when size, signature, delimiters and end mark are right |
| `PolynomialCodec.CpCoeffs.BlobDecode` | libspatialite/src/control_points/gaia_control_points.c:468-593 | every outcome of the code on any bytes; with a count that fits, decoded exactly when the layout says so, the vectors and control points holding the doubles at their places |
| `PolynomialTransform.Through2D` | libspatialite/src/control_points/gaia_control_points.c:988-1002 | transforming a point through a 2D blob equals evaluating the polynomial with the coefficients it was made from |
| `PolynomialTransform.Through3D` | libspatialite/src/control_points/gaia_control_points.c:957-984 | the same in space |
| `PolynomialTransform.ThroughTps` | libspatialite/src/control_points/gaia_control_points.c:988-1002 | the same for splines of up to 39768214 points, centred on the stored source points |
| `PolynomialTransform.DecodedTransforms` | libspatialite/src/control_points/gaia_control_points.c:951-1002 | every point, with height or without, can be transformed with whatever the decoder accepted, unless the count was negative |
| `PolynomialTransform.PlaneThroughSpatial` | libspatialite/src/control_points/gaia_control_points.c:988-1002 | with coefficients for space, all points without height go where the spatial transform takes them at height zero exactly when in the easting and northing vectors the coefficients agree that the plane evaluator pairs with other terms: always at order 1, under three equations at order 2 and seven at order 3 |
| `PolynomialTransform.PlaneGoesWrong` | libspatialite/src/control_points/gaia_control_points.c:988-1002 | a second-order spatial blob that sends (1, 0) to easting 1 instead of 0 |
| `PolynomialTransform.FitSurvivesBlob` | libspatialite/src/control_points/gaia_control_points.c:597-729 | fit, encode, decode, transform: a minimum-size polynomial fit still meets every control point, if the stored patterns denote the fitted coefficients exactly |
| `PolynomialTransform.Fit3DSurvivesBlob` | libspatialite/src/control_points/gaia_control_points.c:597-729 | the same in space, under the same condition |
| `PolynomialTransform.SplineSurvivesBlob` | libspatialite/src/control_points/gaia_control_points.c:597-729 | fit, encode, decode, transform: a fitted spline still meets every control point, if the stored patterns denote weights and coordinates exactly |
| `Fips202.OffsetsFollowWalk` | sqlite-autoconf-3200100/shell.c:950-1003 | the rotation counts in use are those generated by the walk of section 3.2.2 of FIPS 202 |
| `RoundConstants.TableIsGenerated` | sqlite-autoconf-3200100/shell.c:897-910 | every bit of every one of the 24 round constants is what the shift register of section 3.2.5 of FIPS 202 generates |
| `LaneRound.LaneRoundIsRnd` | sqlite-autoconf-3200100/shell.c:939-1003 | one round on 64-bit lanes equals theta, rho, pi, chi and iota applied to the bit array |
| `KeccakStep.RowsCompose` | sqlite-autoconf-3200100/shell.c:939-1206 | every unrolled round relabels the lanes the same way, and after four rounds each lane is back at home |
| `KeccakStep.Round0` | sqlite-autoconf-3200100/shell.c:939-1003 | the first unrolled round, writing every lane into the slots it was read from, performs a round and leaves the lanes relabelled once |
| `KeccakStep.Round1` | sqlite-autoconf-3200100/shell.c:1006-1070 | the second unrolled round continues from lanes relabelled once |
| `KeccakStep.Round2` | sqlite-autoconf-3200100/shell.c:1073-1137 | the third unrolled round continues from lanes relabelled twice |
| `KeccakStep.Round3` | sqlite-autoconf-3200100/shell.c:1140-1205 | the fourth unrolled round ends with every lane at home |
| `KeccakStep.KeccakF1600Step` | sqlite-autoconf-3200100/shell.c:892-1207 | on every state the in-place step leaves the 24 rounds of Keccak-f[1600] of section 3.3 of FIPS 202 |
| `Sha3Engine.SHA3Context.constructor` | sqlite-autoconf-3200100/shell.c:1214-1237 | an empty message, an all-zero state, the rate for the size, 256 for sizes out of range |
| `Sha3Engine.SHA3Context.AbsorbWord` | sqlite-autoconf-3200100/shell.c:1251-1258 | one aligned eight-byte step appends eight bytes to the message and keeps the sponge invariant and nLoaded below the rate |
| `Sha3Engine.SHA3Context.AbsorbByte` | sqlite-autoconf-3200100/shell.c:1261-1274 | one byte step, through whichever index mask applies, appends one byte to the message and keeps the sponge invariant |
| `Sha3Engine.SHA3Context.Update` | sqlite-autoconf-3200100/shell.c:1243-1275 | any piece at any address and byte order is appended to the message |
| `Sha3Engine.PaddingIsPad101` | sqlite-autoconf-3200100/shell.c:1284-1293 | the padding bytes, merged into 0x86 or not, are the domain bits 01 and pad10*1 of section 5.1 of FIPS 202 |
| `Sha3Engine.SHA3Context.Final` | sqlite-autoconf-3200100/shell.c:1282-1298 | the output bytes begin with the digest of section 6.1 of FIPS 202 of the whole message, for each size the rate belongs to |
| `Sha3Engine.HashChunks` | sqlite-autoconf-3200100/shell.c:1321-1337 | the digest of a message cut in any way, each piece aligned or not, on either byte order, is the SHA-3 digest of the concatenation, for every size from 128 to 512 rounded up to a multiple of 32, and of 256 bits for any other; the output has as many bytes as that rate |
| `QueryStream.StreamRoundTrip` | sqlite-autoconf-3200100/shell.c:1418-1496 | a decoder recovers every statement text, row and typed value from the byte stream |
| `QueryStream.StreamInjective` | sqlite-autoconf-3200100/shell.c:1418-1496 | different statements or results never give the same stream |
| `Layouts.SegmentLayout` | sqlite-autoconf-3200100/shell.c:1438-1490 | what each piece adds to the stream: S, R, N, I, F, T or B, decimal sizes, colons and contents, numbers most significant byte first |
| `Layouts.StreamLayout` | sqlite-autoconf-3200100/shell.c:1418-1496 | the whole stream is the statements in order, each its text and then its rows, each R and its columns |
| `Sha3Query.WordBytes` | sqlite-autoconf-3200100/shell.c:1450-1477 | the nine bytes of an integer or float column: tag, then the 64-bit pattern most significant byte first |
| `Sha3Query.QueryDigest` | sqlite-autoconf-3200100/shell.c:1390-1498 | refused sizes and the first failing statement are reported; otherwise the result is the SHA-3 digest of the stream of all statements and rows |
| `CsvShell.ShellState.OutputCsv` | sqlite-autoconf-3200100/shell.c:2538-2568 | a field is quoted, with quotes doubled, exactly when it is empty or holds a byte that needs it; NULL prints the null value |
| `CsvFiles.QuotedExactly` | sqlite-autoconf-3200100/shell.c:2513-2556 | a field is left bare exactly when it is not empty and all of it is printable ASCII other than blank, quotes and the separator |
| `CsvFiles.QuotedLong` | sqlite-autoconf-3200100/shell.c:2545-2552 | a separator of several bytes makes a field quoted only where the field starts with it |
| `CsvShell.NullPrinted` | sqlite-autoconf-3200100/shell.c:2540-2541 | between separators a NULL cell is the null value as it is |
| `CsvShell.ShellState.Callback` | sqlite-autoconf-3200100/shell.c:2872-2888 | one result row, preceded by the header on the first call if headers are on |
| `CsvShell.ShellState.ExecRows` | sqlite-autoconf-3200100/shell.c:3568-3600 | a whole result in CSV mode, NULL cells included, is the text of the header, if wanted, and all rows |
| `CsvShell.ResultRoundTrip` | sqlite-autoconf-3200100/shell.c:2872-2888 | a result without NULL cells, printed and imported again, comes back cell for cell, with its header as the first row |
| `Csv.ClosingQuote` | sqlite-autoconf-3200100/shell.c:4605-4613 | after the closing quote the reader stops at a separator, LF, CR LF or end of file and drops that quote and the CR |
| `Csv.QuotedBack` | sqlite-autoconf-3200100/shell.c:4596-4635 | whatever the field holds, the two-byte look-back never takes content for the end of a quoted field |
| `Csv.FieldRoundTrip` | sqlite-autoconf-3200100/shell.c:4581-4657 | a written field is read back whole with its true terminator, wherever it stands and despite byte-order-mark bytes |
| `Csv.TableRoundTrip` | sqlite-autoconf-3200100/shell.c:6007-6048 | importing what the writer wrote with LF or CR LF row ends gives the table back, row for row and field for field |
| `CsvFiles.RaggedRoundTrip` | sqlite-autoconf-3200100/shell.c:6007-6048 | rows of one or more fields each, of any lengths, come back each cut to the number of columns or filled with NULL up to it, whatever was bound before |
| `CsvFiles.FileImported` | sqlite-autoconf-3200100/shell.c:6007-6048 | importing any file of records: fields quoted well, quoted loosely with stray quotes or bare, rows of any length, LF or CR LF, with or without a byte-order mark and a last line end, gives exactly their contents, short rows filled with NULL and long ones cut |
| `RowSeparators.AnyRowSeparator` | sqlite-autoconf-3200100/shell.c:4581-4657 | for every file whatever and every other one-byte row separator: importing it gives what importing it with that byte and LF exchanged gives, exchanged back |
| `CsvFiles.RowRead` | sqlite-autoconf-3200100/shell.c:6009-6038 | one line in any of these forms: its columns, its terminator and the unread rest |
| `CsvFiles.PiecesBack` | sqlite-autoconf-3200100/shell.c:4596-4635 | quoted content piece by piece, a quote that neither ends the field nor is doubled included, up to the closing quote or the end of the file |
| `CsvShell.ImportCtx.DropToQuote` | sqlite-autoconf-3200100/shell.c:4610 | the walk back stops before the last quote accumulated |
| `CsvShell.ImportCtx.ReadQuotedField` | sqlite-autoconf-3200100/shell.c:4596-4635 | the quoted branch equals its specification on every input and counts every row separator as a line |
| `CsvShell.ImportCtx.ReadOneField` | sqlite-autoconf-3200100/shell.c:4581-4657 | on every input: the field, terminator, unread rest and first-byte flag specified, and lines counted plus lines left conserved |
| `CsvShell.ImportRow` | sqlite-autoconf-3200100/shell.c:6009-6030 | columns bound, early line ends filled with NULL, and no row when the file ended before it |
| `CsvShell.Import` | sqlite-autoconf-3200100/shell.c:6007-6048 | the row loop inserts exactly the specified rows, drops surplus fields, and ends at end of file |
| `SqlLiteral.NoStraddling` | sqlite-autoconf-3200100/shell.c:2327-2339 | no occurrence of a placeholder can start in plain text or in itself and run into a placeholder |
| `SqlLiteral.ReplaceBack` | sqlite-autoconf-3200100/shell.c:2433-2438 | leftmost non-overlapping replacement of a placeholder absent from the original restores exactly the characters it stood for |
| `SqlLiteral.BothReplaced` | sqlite-autoconf-3200100/shell.c:2385-2441 | the inner replacement of carriage returns and the outer one of newlines together restore the string |
| `SqlLiteralPrinter.TextBack` | sqlite-autoconf-3200100/shell.c:2385-2441 | evaluating the printed SQL expression gives the original string |
| `SqlLiteralPrinter.CandidatesApart` | sqlite-autoconf-3200100/shell.c:2335-2337 | two different numbered candidates never occur at the same place |
| `SqlLiteralPrinter.RoomFor` | sqlite-autoconf-3200100/shell.c:2335-2337 | no more candidates can occur in a string than it has bytes |
| `SqlLiteralPrinter.UnusedString` | sqlite-autoconf-3200100/shell.c:2327-2339 | the first given string if z does not hold it, else the second, else the first absent of the numbered ones: the first string and a decimal number in parentheses, found within one candidate more than z has bytes |
| `SqlLiteralPrinter.TextForms` | sqlite-autoconf-3200100/shell.c:2385-2441 | the printed text in full: replace( once for each kind of line end, the literal, and behind it the placeholder for CR with char(13) and the one for LF with char(10) |
| `SqlLiteralPrinter.OutputQuotedEscapedString` | sqlite-autoconf-3200100/shell.c:2385-2441 | for every NUL-free string the printed text is that of `TextForms` with the first unused placeholders, holds no line end and evaluates to the string |
| `DotCommand.ResolveEscaped` | sqlite-autoconf-3200100/shell.c:4340-4383 | resolving backslashes in what was escaped gives the string back, digits after octal escapes included |
| `DotCommand.QuotedEscaped` | sqlite-autoconf-3200100/shell.c:5448-5451 | the tokenizer takes the closing quote of a printed string for the first unprotected one |
| `DotCommand.ArgumentsBack` | sqlite-autoconf-3200100/shell.c:5438-5464 | any list of strings printed in C quotes and set apart by blanks comes back exactly, as far as the argument vector reaches |
| `DotArguments.ResolvePieces` | sqlite-autoconf-3200100/shell.c:4340-4383 | resolving backslashes gives 7 to 13 for the letters a, b, t, n, v, f and r, the value of one to three octal digits modulo 256, and the character behind any other backslash |
| `DotArguments.EscapeForms` | sqlite-autoconf-3200100/shell.c:2446-2475 | what the printer writes for each byte: itself, a backslash and it or a letter, or three octal digits of its value |
| `DotArguments.FirstWritten` | sqlite-autoconf-3200100/shell.c:5442-5463 | one argument in double quotes, in single quotes or bare: its value, with backslashes kept in single quotes and resolved otherwise, and what is left behind it |
| `DotArguments.LineRead` | sqlite-autoconf-3200100/shell.c:5438-5464 | arguments written in any of the three ways, mixed on a line and set apart by blanks, a last quote perhaps left open, come back each with its value, up to the room of the vector |
| `MetaCommand.OutputCString` | sqlite-autoconf-3200100/shell.c:2446-2475 | the printer writes the C text of the string |
| `MetaCommand.ResolveBackslashes` | sqlite-autoconf-3200100/shell.c:4340-4383 | the string is resolved where it stands, NUL-terminated, and nothing outside its place changes |
| `MetaCommand.OneArgument` | sqlite-autoconf-3200100/shell.c:5440-5463 | one argument in place: its start, its resolved value, where scanning goes on, and no change before or behind |
| `MetaCommand.ParseArguments` | sqlite-autoconf-3200100/shell.c:5438-5464 | azArg points at every argument of the line, up to 50, each intact and NUL-terminated inside the buffer |
| `CountedItems.ItemsCount` | extension-functions.c:1863-1883 | after any inserts each distinct value is kept once, in increasing order, with its exact multiplicity |
| `CountedItems.SortedUnique` | extension-functions.c:1491-1523 | sorting a list has one result, so the statistics below do not depend on a way to sort |
| `CountedTree.NodeInsert` | extension-functions.c:1863-1883 | the linked tree after an insert holds its in-order items with one more occurrence, reusing the root and changing only its own nodes |
| `OrderStatistics.ModeIs` | extension-functions.c:1458-1484 | the scan ends with a count of one exactly when some value occurs more often than every other, and then holds that value |
| `OrderStatistics.MedianScan` | extension-functions.c:1491-1523 | from below the wanted position the scan adds exactly the value there, or the two around it, if their ranks fit in an int; otherwise nothing, or the lower one only |
| `OrderStatistics.MedianIs` | extension-functions.c:1491-1523 | for any number of values, the scan gains the two sorted values on both sides of the position if and only if fewer than 2^31 values are at most the upper and fewer than 2^31 at least the lower one |
| `OrderStatistics.Middles` | extension-functions.c:1570-1601 | of 2n sorted values the two the median averages are number n and n + 1, of 2n - 1 it is number n; and the same for both quartiles at every count |
| `OrderStatistics.ReadExact` | extension-functions.c:1464 | the 32-bit read of an integer is right for exactly the values that fit in 32 bits |
| `OrderStatistics.AverageExact` | extension-functions.c:1512 | an average of two integers survives the 32-bit reads exactly when their distances from the 32-bit range cancel |
| `OrderStatistics.ModeExact` | extension-functions.c:1458-1484 | mode() of integers is right exactly when the most frequent one fits in 32 bits |
| `OrderStatistics.FirstWrong` | extension-functions.c:1464 | mode() of 2147483648 alone is -2147483648 |
| `ModeMedian.ModeCtx.Step` | extension-functions.c:1410-1452 | NULL is passed over, the first value fixes integer or double, every later one joins the tree as that |
| `ModeMedian.ModeCtx.NodeIterate` | extension-functions.c:1889-1897 | left, node, right: the iterator is applied to the items in increasing order |
| `ModeMedian.ModeCtx.ModeFinalize` | extension-functions.c:1528-1543 | the unique most frequent value, NULL on a tie or without values |
| `ModeMedian.ModeCtx.MedianFinalize` | extension-functions.c:1570-1577 | NULL without values; otherwise the median as read exactly when the ranks fit, and the true median, of the right type, exactly when in addition the 32-bit reads cancel |
| `ModeMedian.ModeCtx.LowerQuartileFinalize` | extension-functions.c:1582-1589 | the same at a quarter of the count |
| `ModeMedian.ModeCtx.UpperQuartileFinalize` | extension-functions.c:1594-1601 | the same at three quarters of the count |
| `ModeMedian.PercentileJudged` | extension-functions.c:1548-1565 | the two conditions are exact for every list and every position inside it |
| `ModeMedian.RightLengths` | extension-functions.c:1502-1503 | the ranks fit for all lists of n values exactly when n is below 2^31 |
| `Variance.StepKeeps` | extension-functions.c:1399-1403 | one step of the recurrence takes mean and sum of squared deviations to those of one more value |
| `Variance.StdevCtx.Step` | extension-functions.c:1389-1405 | after any values rM is their mean and rS the sum of their squared deviations from it |
| `Variance.StdevCtx.Finalize` | extension-functions.c:1619-1627 | the two-pass sample variance, zero below two values |
| `Variance.VarianceOf` | extension-functions.c:1389-1405 | variance of a column is that of its values that are not NULL |
| `Variance.NullsPassedOver` | extension-functions.c:1389-1405 | a NULL anywhere in the column makes no difference, and without NULLs all values count |
| `PairwiseVariance.VarianceIsPairwise` | extension-functions.c:1389-1405 | n (n - 1) times the variance is the sum of the squared differences of all pairs of values |
| `Dms.HalfSecond` | libspatialite/src/gaiaaux/gg_sqlaux.c:1180-1193 | degrees, minutes and rounded seconds differ from the coordinate by at most half a second of arc |
| `DmsNotation.PartsAre` | libspatialite/src/gaiaaux/gg_sqlaux.c:1180-1191 | degrees and minutes are rounded down, seconds to the nearest, a half down |
| `DmsNotation.FormatBytes` | libspatialite/src/gaiaaux/gg_sqlaux.c:1192-1195 | every byte printed: latitude in two, two and two digits, longitude in three, two and two, their signs, letters and one blank |
| `Dms.SixtyIsPrinted` | libspatialite/src/gaiaaux/gg_sqlaux.c:1182-1185 | sixty seconds can be printed |
| `Dms.CoordinateBack` | libspatialite/src/gaiaaux/gg_sqlaux.c:983-1050 | degrees, minutes and seconds with their letter are read back as one signed value |
| `Dms.PartsAccepted` | libspatialite/src/gaiaaux/gg_sqlaux.c:983-1146 | two printed coordinates are accepted exactly when the values their parts add up to are at most 90 and 180 degrees, whatever the single parts |
| `DmsNotation.NotationRead` | libspatialite/src/gaiaaux/gg_sqlaux.c:969-1146 | a coordinate in any notation is read: blanks between the pieces, either form of each sign, the letter in front or behind, leading zeros, a fraction of seconds |
| `DmsNotation.TwoNotations` | libspatialite/src/gaiaaux/gg_sqlaux.c:969-1146 | two such coordinates are accepted exactly when their values are in range, whatever follows them |
| `DmsNotation.OnlyNotations` | libspatialite/src/gaiaaux/gg_sqlaux.c:969-1146 | and every coordinate accepted is written in one of these notations |
| `DmsNotation.SecondsMeaning` | libspatialite/src/gaiaaux/gg_sqlaux.c:928-966 | seconds are a whole number, a decimal fraction after a point, or a number that a comma ends |
| `DmsNotation.ManySeparators` | libspatialite/src/gaiaaux/gg_sqlaux.c:956-960 | more than one separator makes 61 seconds |
| `Dms.SeventyFiveMinutes` | libspatialite/src/gaiaaux/gg_sqlaux.c:1014-1020 | 75 minutes are accepted and make a degree and a quarter |
| `Dms.FormatParses` | libspatialite/src/gaiaaux/gg_sqlaux.c:1149-1201 | every string printed for coordinates in range is accepted and gives the coordinates rounded to whole seconds, for every atoi that is right on values an int can hold |
| `Dms.RoundTrip` | libspatialite/src/gaiaaux/gg_sqlaux.c:1149-1201 | out and back stays within half a second of arc, and a second trip changes nothing |
| `DmsText.ConsumeFloat` | libspatialite/src/gaiaaux/gg_sqlaux.c:928-966 | the run of digits and separators, 61 for more than one separator |
| `DmsText.ParseDMS` | libspatialite/src/gaiaaux/gg_sqlaux.c:969-1146 | the cursor-driven parser accepts exactly what the grammar accepts, with the same values, whatever atoi makes of digits that no int can hold and whatever bytes lie behind the string |
| `DmsText.ConvertToDMS` | libspatialite/src/gaiaaux/gg_sqlaux.c:1149-1201 | the text specified, nothing exactly for coordinates out of range, and always text the parser accepts |
| `ConnectionPool.StepInv` | libspatialite/src/connection_cache/alloc_cache.c:313-346 | every step of every thread keeps the pool invariant |
| `ConnectionPool.PoolSafe` | libspatialite/src/connection_cache/alloc_cache.c:473-521 | after every interleaving: no wild or dangling pointer was followed, no slot belongs to two live caches, each live cache is in the slot it names |
| `ConnectionPool.MessageGoesHome` | libspatialite/src/connection_cache/alloc_cache.c:259-309 | a message raised through the handler of a live cache is stored in that cache and changes nothing else |
| `ConnectionPool.CapacityKept` | libspatialite/src/connection_cache/alloc_cache.c:313-329 | never more live connections than the 64 slots |
| `ConnectionPool.RunInv` | libspatialite/src/connection_cache/alloc_cache.c:473-521 | the invariant holds along whole runs |
| `PoolProgress.SearchRun` | libspatialite/src/connection_cache/alloc_cache.c:313-329 | from any slot on, the tests of a search find the first free slot, or give up when none is free |
| `PoolProgress.AllocationRun` | libspatialite/src/connection_cache/alloc_cache.c:473-521 | an undisturbed allocation with a free slot and memory makes exactly one more cache live, in the first slot that was free; nothing else changes |
| `PoolProgress.FullRun` | libspatialite/src/connection_cache/alloc_cache.c:322-328 | without a free slot it gives up after 64 slots and changes nothing |
| `PoolProgress.NoMemoryRun` | libspatialite/src/connection_cache/alloc_cache.c:494-499 | when malloc fails the slot is given back and nothing changes |
| `PoolProgress.ReleaseRun` | libspatialite/src/connection_cache/alloc_cache.c:686-780 | freeing a live cache frees the slot it names and its memory, and nothing else |
| `PoolProgress.MessageRun` | libspatialite/src/connection_cache/alloc_cache.c:259-309 | a message of a live cache becomes its error or its warning, and nothing else changes |
| `PoolProgress.PoolFills` | libspatialite/src/connection_cache/alloc_cache.c:313-329 | any caches up to 64 can be allocated one after the other, filling the slots in order |
| `PoolRuns.SearchedBefore` | libspatialite/src/connection_cache/alloc_cache.c:313-329 | under any interleaving, a thread that has come to a slot saw every slot before it taken, each when it looked at it |
| `PoolRuns.LeavesForReason` | libspatialite/src/connection_cache/alloc_cache.c:313-329 | a thread gives up only because malloc failed or because each of the 64 slots was taken when it looked at it |
| `PoolRuns.StepsDecrease` | libspatialite/src/connection_cache/alloc_cache.c:473-521 | every step of a busy thread brings it nearer to being idle |
| `PoolRuns.NeverStuck` | libspatialite/src/connection_cache/alloc_cache.c:473-521 | in every reachable state a busy thread can move, or waits for the mutex of one that can |
| `PoolRuns.NoSlotLost` | libspatialite/src/connection_cache/alloc_cache.c:332-345 | when nobody is in the middle of an allocation or a release, exactly the slots of live caches are in use |

## Left out

Contracts weaker than the code or its promise:

- SolveMat.SolveMat2: exact reals instead of doubles, here and in every solver, spline, variance and DMS statement; rounding, NaN and infinities are not modelled, except that a zero denominator in the collinearity test is treated as IEEE division treats it.
- ThinPlateSpline.ComputeGeorefEquationsTps: the natural logarithm is a parameter; the accumulated mean distance, which the code never uses, and an error return that cannot happen are left out.
- Sha3Engine.SHA3Context.AbsorbByte: the union of words and bytes is one array of 25 words; a byte of it is read and written through the word it lies in, at the place the machine's byte order gives it.
- Sha3Engine.SHA3Context.Final: the digest goes to its own buffer, not behind the rate bytes of the state; the state is not used afterwards.
- Sha3Query.QueryDigest: preparing and stepping statements is a list of outcomes; message texts and a NULL argument are left out.
- Csv.TableRoundTrip: one-byte ASCII column separator other than a quote, CR or LF, and fields without NUL bytes; a NULL cell prints the null value and cannot be told from that text.
- CsvShell.ImportCtx.ReadOneField: buffer growth, warnings on stderr and interrupts are left out; separators are ASCII.
- CsvShell.Import: failing INSERT statements and the ASCII mode are left out; the rows are those handed to the statement.
- SqlLiteralPrinter.UnusedString: strings shorter than 2^32 - 1 bytes, so that the unsigned counter does not wrap.
- DotCommand.ArgumentsBack: isspace and isprint are those of the C locale.
- ModeMedian.ModeCtx.PercentileFinalize: a quotient of zero by zero, which is a NaN, is NULL, as SQLite makes it.
- PolynomialReaders.SplineSizeWraps: size_t has 64 bits, and the int sum count + 3 wraps around where C leaves its overflow undefined.
- PolynomialCodec.CpCoeffs.BlobDecode: a read behind the blob ends the model with a verdict of its own, and an allocation for a negative count is an empty vector.
- PolynomialCodec.BlobEncodeTps: an allocation of a negative size fails, and a buffer too short for what the loops write is reported before they run.
- PolynomialTransform.FitSurvivesBlob: a real that no double denotes is not modelled; the 64-bit patterns denote the fitted values exactly, here and for splines and in space.
- DmsText.ParseDMS: the delimiter tests look at up to two bytes behind the NUL; these may hold anything, but reading them is not an error here.
- Dms.FormatParses: a decimal comma ends the number, as atof does in the C locale.
- ConnectionPool.PoolSafe: memory is sequentially consistent, a connection is released only by the thread that holds it while no handler of it runs, and library shutdown is not modelled.

Not modelled:

- SQLite API calls, prepared statements, virtual tables, files, pipes, timers, terminals and command dispatch.
- Memory exhaustion, except in the connection pool.
- `gaiaPolynomialAsText`, `gaiaPolynomialToMatrix`, and geometry cloning in `gaiaPolynomialTransformGeometry`.
- `gaiaCreatePolynomialCoeffs` beyond the chain of fit, encoding and decoding.
- `stdev()`, the square root of the variance modelled here.
- The other extension functions, the other output modes of the shell, and linked lists of topologies and sequences in a connection cache: they would only add easy members.
- DXF import and export, the Tcl and web parts of the tree, keyword tables, URL coding and SQL logging.
