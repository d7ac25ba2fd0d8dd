/** Degrees, minutes and seconds: what gaiaConvertToDMS prints and gaiaParseDMS reads, in exact arithmetic. */
module Dms {
  import opened Bytes
  import opened Options

  const SPACE: byte := 32
  const TAB: byte := 9
  const DQUOTE: byte := 34
  const SQUOTE: byte := 39
  const COMMA: byte := 44
  const POINT: byte := 46
  const ZERO: byte := 48
  const LETTER_D: byte := 100
  const EAST: byte := 69
  const NORTH: byte := 78
  const SOUTH: byte := 83
  const WEST: byte := 87

  // ----- the parser -----

  /** *p, with the NUL that ends the string. */
  function Head(s: seq<byte>): byte {
    if |s| == 0 then 0 else s[0]
  }

  function SkipBlanks(s: seq<byte>): seq<byte> {
    if Head(s) == SPACE || Head(s) == TAB then SkipBlanks(s[1..]) else s
  }

  /** The three qualifiers: an ASCII character each, or U+00B0, U+2032, U+2033. */
  datatype Mark = DegreeMark | MinuteMark | SecondMark

  function AsciiMark(mark: Mark): byte {
    match mark
    case DegreeMark => LETTER_D
    case MinuteMark => SQUOTE
    case SecondMark => DQUOTE
  }

  function MarkText(mark: Mark): (s: seq<byte>)
    ensures |s| >= 2
  {
    match mark
    case DegreeMark => [0xC2, 0xB0]
    case MinuteMark => [0xE2, 0x80, 0xB2]
    case SecondMark => [0xE2, 0x80, 0xB3]
  }

  /** What follows a qualifier in either form. */
  function Delimiter(s: seq<byte>, mark: Mark): Option<seq<byte>> {
    if |s| > 0 && s[0] == AsciiMark(mark) then Some(s[1..])
    else if MarkText(mark) <= s then Some(s[|MarkText(mark)|..])
    else None
  }

  predicate FloatByte(c: byte) {
    Digit(c) || c == POINT || c == COMMA
  }

  function FloatRun(s: seq<byte>): (k: nat)
    ensures k <= |s| && forall i | 0 <= i < k :: FloatByte(s[i])
    ensures k < |s| ==> !FloatByte(s[k])
  {
    if |s| == 0 || !FloatByte(s[0]) then 0 else 1 + FloatRun(s[1..])
  }

  function Separators(s: seq<byte>): nat {
    if |s| == 0 then 0 else (if Digit(s[0]) then 0 else 1) + Separators(s[1..])
  }

  /** atof on digits with at most one separator; in the C locale it stops at a comma. */
  function Atof(s: seq<byte>): real {
    var k := DigitRun(s);
    var whole := DecimalValue(s[..k]) as real;
    if k < |s| && s[k] == POINT then
      var f := DigitRun(s[k + 1..]);
      whole + DecimalValue(s[k + 1..][..f]) as real / Power10(f)
    else whole
  }

  function Power10(k: nat): (p: real)
    ensures p > 0.0
  {
    if k == 0 then 1.0 else 10.0 * Power10(k - 1)
  }

  /** consume_float */
  function FloatValue(run: seq<byte>): real {
    if |run| == 0 || Separators(run) > 1 then 61.0 else Atof(run)
  }

  /** A hemisphere letter at the start of s. */
  function Letter(s: seq<byte>, minus: byte, plus: byte): (r: Option<byte>)
    ensures r.Some? ==> |s| > 0 && s[0] == r.value
  {
    if |s| > 0 && (s[0] == minus || s[0] == plus) then Some(s[0]) else None
  }

  function InDegrees(d: int, m: int, s: real): real {
    d as real + m as real / 60.0 + s / 3600.0
  }

  function Signed(negative: bool, v: real): real {
    if negative then v * -1.0 else v
  }

  /** What C promises of atoi: the value of the digits, as long as an int can hold it. */
  ghost predicate ReadsInts(atoi: seq<byte> -> int) {
    forall s: seq<byte> | (forall i | 0 <= i < |s| :: Digit(s[i])) && DecimalValue(s) < 0x8000_0000 ::
      atoi(s) == DecimalValue(s)
  }

  /** An integer with its qualifier. */
  function TakeInt(s: seq<byte>, mark: Mark, atoi: seq<byte> -> int): Option<(int, seq<byte>)> {
    var k := DigitRun(s);
    if k == 0 then None
    else
      match Delimiter(SkipBlanks(s[k..]), mark)
      case None => None
      case Some(rest) => Some((atoi(s[..k]), SkipBlanks(rest)))
  }

  /** The seconds with their qualifier. */
  function TakeFloat(s: seq<byte>): Option<(real, seq<byte>)> {
    if !Digit(Head(s)) then None
    else
      var k := FloatRun(s);
      match Delimiter(SkipBlanks(s[k..]), SecondMark)
      case None => None
      case Some(rest) => Some((FloatValue(s[..k]), SkipBlanks(rest)))
  }

  /** d°m′s″ with a hemisphere letter before or after: the signed value and what follows. */
  function ParseCoordinate(s: seq<byte>, minus: byte, plus: byte, atoi: seq<byte> -> int): Option<(real, seq<byte>)> {
    ParseFrom(SkipBlanks(s), minus, plus, atoi)
  }

  function ParseFrom(s: seq<byte>, minus: byte, plus: byte, atoi: seq<byte> -> int): Option<(real, seq<byte>)> {
    var before := Letter(s, minus, plus);
    match TakeInt(if before.Some? then SkipBlanks(s[1..]) else s, DegreeMark, atoi)
    case None => None
    case Some((degrees, s1)) =>
      match TakeInt(s1, MinuteMark, atoi)
      case None => None
      case Some((minutes, s2)) =>
        match TakeFloat(s2)
        case None => None
        case Some((seconds, s3)) =>
          var v := InDegrees(degrees, minutes, seconds);
          var after := Letter(s3, minus, plus);
          if before.Some? then Some((Signed(before.value == minus, v), s3))
          else if after.Some? then Some((Signed(after.value == minus, v), s3[1..]))
          else None
  }

  /** gaiaParseDMS: longitude and latitude. */
  function Parse(dms: seq<byte>, atoi: seq<byte> -> int): Option<(real, real)> {
    match ParseCoordinate(dms, SOUTH, NORTH, atoi)
    case None => None
    case Some((lt, rest)) =>
      if lt < -90.0 || lt > 90.0 then None else
      match ParseCoordinate(rest, WEST, EAST, atoi)
      case None => None
      case Some((lg, _)) => if lg < -180.0 || lg > 180.0 then None else Some((lg, lt))
  }

  // ----- the formatter -----

  function Degrees(x: real): int {
    x.Floor
  }

  function Minutes(x: real): int {
    (60.0 * (x - Degrees(x) as real)).Floor
  }

  /** Seconds before rounding. */
  function Rest(x: real): real {
    60.0 * (60.0 * (x - Degrees(x) as real) - Minutes(x) as real)
  }

  /** Rounded up only past one half, so 60 is possible. */
  function Seconds(x: real): int {
    Rest(x).Floor + if Rest(x) - Rest(x).Floor as real > 0.5 then 1 else 0
  }

  /** The printed value in whole seconds of arc. */
  function WholeSeconds(x: real): int {
    3600 * Degrees(x) + 60 * Minutes(x) + Seconds(x)
  }

  /** "%0<width>d" */
  function Padded(n: nat, width: nat): (s: seq<byte>)
    ensures |s| > 0 && forall i | 0 <= i < |s| :: Digit(s[i])
  {
    var d := Decimal(n);
    if |d| < width then seq(width - |d|, _ => ZERO) + d else d
  }

  function CoordinateText(d: nat, width: nat, m: nat, s: nat, letter: byte): seq<byte> {
    Padded(d, width) + MarkText(DegreeMark) + Padded(m, 2) + MarkText(MinuteMark)
    + Padded(s, 2) + MarkText(SecondMark) + [letter]
  }

  function Abs(x: real): real {
    if x < 0.0 then x * -1.0 else x
  }

  lemma PartsInRange(x: real)
    requires x >= 0.0
    ensures 0 <= Degrees(x) && 0 <= Minutes(x) < 60 && 0 <= Seconds(x) <= 60
  {
  }

  /** gaiaConvertToDMS */
  function Format(longitude: real, latitude: real): Option<seq<byte>> {
    if longitude < -180.0 || longitude > 180.0 || latitude < -90.0 || latitude > 90.0 then None
    else
      var lg, lt := Abs(longitude), Abs(latitude);
      PartsInRange(lg);
      PartsInRange(lt);
      Some(CoordinateText(Degrees(lt), 2, Minutes(lt), Seconds(lt), if latitude < 0.0 then SOUTH else NORTH)
           + [SPACE]
           + CoordinateText(Degrees(lg), 3, Minutes(lg), Seconds(lg), if longitude < 0.0 then WEST else EAST))
  }

  // ----- the error of one trip, and why a second one changes nothing -----

  lemma HalfSecond(x: real)
    ensures -0.5 <= WholeSeconds(x) as real - 3600.0 * x <= 0.5
  {
  }

  /** A whole number of seconds is printed as it is. */
  lemma WholeIsExact(t: int)
    ensures WholeSeconds(t as real / 3600.0) == t
  {
  }

  // ----- what is printed is read back -----

  lemma {:induction false} LeadingZeros(k: nat, d: seq<byte>)
    ensures DecimalValue(seq(k, _ => ZERO) + d) == DecimalValue(d)
    decreases |d|, k
  {
    var s := seq(k, _ => ZERO) + d;
    if |d| > 0 {
      LeadingZeros(k, d[..|d| - 1]);
      assert s[..|s| - 1] == seq(k, _ => ZERO) + d[..|d| - 1];
    } else if k > 0 {
      LeadingZeros(k - 1, d);
      assert s[..|s| - 1] == seq(k - 1, _ => ZERO) + d;
    }
  }

  /** A printed number in front of something that is not a digit. */
  lemma PaddedBack(n: nat, width: nat, rest: seq<byte>)
    requires |rest| > 0 && !Digit(rest[0])
    ensures var p := Padded(n, width); var s := p + rest;
      DigitRun(s) == |p| && s[..|p|] == p && s[|p|..] == rest && DecimalValue(p) == n
      && Digit(Head(s)) && SkipBlanks(s) == s
  {
    var p := Padded(n, width);
    DigitRunIs(p + rest, |p|);
    DecimalRoundTrip(n);
    if |Decimal(n)| < width {
      LeadingZeros(width - |Decimal(n)|, Decimal(n));
    }
  }

  /** Printed seconds read as a float. */
  lemma {:induction false} FloatRunDigits(p: seq<byte>, rest: seq<byte>)
    requires forall i | 0 <= i < |p| :: Digit(p[i])
    requires |rest| > 0 && !FloatByte(rest[0])
    ensures FloatRun(p + rest) == |p| && Separators(p) == 0
  {
    if |p| == 0 {
      assert p + rest == rest;
    } else {
      assert (p + rest)[1..] == p[1..] + rest;
      FloatRunDigits(p[1..], rest);
    }
  }

  lemma {:induction false} AllDigits(p: seq<byte>)
    requires forall i | 0 <= i < |p| :: Digit(p[i])
    ensures DigitRun(p) == |p|
  {
  }

  lemma FloatBack(n: nat, width: nat, rest: seq<byte>)
    requires |rest| > 0 && !FloatByte(rest[0])
    ensures var p := Padded(n, width);
      FloatRun(p + rest) == |p| && FloatValue(p) == n as real
  {
    var p := Padded(n, width);
    FloatRunDigits(p, rest);
    PaddedBack(n, width, rest);
    AllDigits(p);
    assert p[..|p|] == p;
  }

  lemma DelimiterBack(mark: Mark, rest: seq<byte>)
    ensures var s := MarkText(mark) + rest;
      SkipBlanks(s) == s && Delimiter(s, mark) == Some(rest) && |s| > 0 && !FloatByte(s[0])
  {
  }

  lemma IntBack(n: nat, width: nat, mark: Mark, rest: seq<byte>, atoi: seq<byte> -> int)
    requires SkipBlanks(rest) == rest && n < 0x8000_0000 && ReadsInts(atoi)
    ensures TakeInt(Padded(n, width) + (MarkText(mark) + rest), mark, atoi) == Some((n, rest))
  {
    hide DigitRun, DecimalValue, Delimiter, Padded, SkipBlanks;
    DelimiterBack(mark, rest);
    PaddedBack(n, width, MarkText(mark) + rest);
    assert atoi(Padded(n, width)) == n;
  }

  lemma SecondsBack(n: nat, rest: seq<byte>)
    requires SkipBlanks(rest) == rest
    ensures TakeFloat(Padded(n, 2) + (MarkText(SecondMark) + rest)) == Some((n as real, rest))
  {
    hide DigitRun, DecimalValue, Delimiter, Padded, SkipBlanks, FloatRun, FloatValue;
    DelimiterBack(SecondMark, rest);
    PaddedBack(n, 2, MarkText(SecondMark) + rest);
    FloatBack(n, 2, MarkText(SecondMark) + rest);
  }

  lemma NoLetterFirst(n: nat, width: nat, rest: seq<byte>, minus: byte, plus: byte)
    requires minus > 64 && plus > 64 && |rest| > 0 && !Digit(rest[0])
    ensures Letter(Padded(n, width) + rest, minus, plus).None?
    ensures SkipBlanks(Padded(n, width) + rest) == Padded(n, width) + rest
  {
  }

  /** Degrees, minutes and seconds with their hemisphere come back as one signed value. */
  lemma CoordinateBack(
    d: nat, width: nat, m: nat, s: nat, minus: byte, plus: byte, letter: byte, rest: seq<byte>, atoi: seq<byte> -> int)
    requires (letter == minus || letter == plus) && 64 < minus < 128 && 64 < plus < 128
    requires d < 0x8000_0000 && m < 0x8000_0000 && ReadsInts(atoi)
    ensures ParseCoordinate(CoordinateText(d, width, m, s, letter) + rest, minus, plus, atoi)
      == Some((Signed(letter == minus, InDegrees(d, m, s as real)), rest))
  {
    hide *;
    var t3 := [letter] + rest;
    var t2 := Padded(s, 2) + (MarkText(SecondMark) + t3);
    var t1 := Padded(m, 2) + (MarkText(MinuteMark) + t2);
    var t0 := Padded(d, width) + (MarkText(DegreeMark) + t1);
    LetterStays(letter, rest, minus, plus);
    MarkedNumber(s, 2, SecondMark, t3, minus, plus);
    MarkedNumber(m, 2, MinuteMark, t2, minus, plus);
    MarkedNumber(d, width, DegreeMark, t1, minus, plus);
    SecondsBack(s, t3);
    IntBack(m, 2, MinuteMark, t2, atoi);
    IntBack(d, width, DegreeMark, t1, atoi);
    Chained(t0, d, t1, m, t2, s as real, t3, minus, plus, letter, atoi);
    assert t3[1..] == rest;
    TextIs(d, width, m, s, letter, rest);
  }

  lemma MarkedNumber(n: nat, width: nat, mark: Mark, rest: seq<byte>, minus: byte, plus: byte)
    requires 64 < minus < 128 && 64 < plus < 128
    ensures var t := Padded(n, width) + (MarkText(mark) + rest); SkipBlanks(t) == t && Letter(t, minus, plus).None?
  {
    hide Padded;
    DelimiterBack(mark, rest);
    NoLetterFirst(n, width, MarkText(mark) + rest, minus, plus);
  }

  /** A coordinate whose parts follow one another, with the letter at the end. */
  lemma Chained(
    t0: seq<byte>, d: int, t1: seq<byte>, m: int, t2: seq<byte>, s: real, t3: seq<byte>, minus: byte, plus: byte,
    letter: byte, atoi: seq<byte> -> int)
    requires SkipBlanks(t0) == t0 && Letter(t0, minus, plus).None? && Letter(t3, minus, plus) == Some(letter)
    requires TakeInt(t0, DegreeMark, atoi) == Some((d, t1)) && TakeInt(t1, MinuteMark, atoi) == Some((m, t2))
    requires TakeFloat(t2) == Some((s, t3))
    ensures ParseCoordinate(t0, minus, plus, atoi) == Some((Signed(letter == minus, InDegrees(d, m, s)), t3[1..]))
  {
    hide TakeInt, TakeFloat, SkipBlanks, Letter, InDegrees, Signed;
  }

  lemma TextIs(d: nat, width: nat, m: nat, s: nat, letter: byte, rest: seq<byte>)
    ensures CoordinateText(d, width, m, s, letter) + rest
      == Padded(d, width) + (MarkText(DegreeMark) + (Padded(m, 2) + (MarkText(MinuteMark)
         + (Padded(s, 2) + (MarkText(SecondMark) + ([letter] + rest))))))
  {
    hide Padded, MarkText;
  }

  /**
   Two printed coordinates are accepted exactly if the values they add up to are in range: nothing is asked of their
   degrees, minutes and seconds one by one.
   */
  lemma PartsAccepted(
    d: nat, m: nat, s: nat, ns: byte, d': nat, m': nat, s': nat, ew: byte, atoi: seq<byte> -> int)
    requires d < 0x8000_0000 && m < 0x8000_0000 && d' < 0x8000_0000 && m' < 0x8000_0000 && ReadsInts(atoi)
    requires (ns == SOUTH || ns == NORTH) && (ew == WEST || ew == EAST)
    ensures var text := CoordinateText(d, 2, m, s, ns) + [SPACE] + CoordinateText(d', 3, m', s', ew);
      var lt, lg := InDegrees(d, m, s as real), InDegrees(d', m', s' as real);
      Parse(text, atoi)
        == if lt <= 90.0 && lg <= 180.0 then Some((Signed(ew == WEST, lg), Signed(ns == SOUTH, lt))) else None
  {
    hide CoordinateText, ParseCoordinate, ReadsInts;
    var a, b := CoordinateText(d, 2, m, s, ns), CoordinateText(d', 3, m', s', ew);
    CoordinateBack(d, 2, m, s, SOUTH, NORTH, ns, [SPACE] + b, atoi);
    BlankBefore(b, WEST, EAST, atoi);
    CoordinateBack(d', 3, m', s', WEST, EAST, ew, [], atoi);
    assert b + [] == b;
    assert a + [SPACE] + b == a + ([SPACE] + b);
    NotNegative(d, m, s);
    NotNegative(d', m', s');
    hide InDegrees;
  }

  lemma NotNegative(d: nat, m: nat, s: nat)
    ensures InDegrees(d, m, s as real) >= 0.0
  {
  }

  /** 75 minutes are accepted and make a degree and a quarter. */
  lemma SeventyFiveMinutes(atoi: seq<byte> -> int)
    requires ReadsInts(atoi)
    ensures var text := CoordinateText(10, 2, 75, 0, NORTH) + [SPACE] + CoordinateText(0, 3, 0, 0, EAST);
      Parse(text, atoi) == Some((0.0, 11.25))
  {
    hide CoordinateText, Parse, ReadsInts;
    PartsAccepted(10, 75, 0, NORTH, 0, 0, 0, EAST, atoi);
  }

  lemma LetterStays(letter: byte, rest: seq<byte>, minus: byte, plus: byte)
    requires letter > 64 && (letter == minus || letter == plus)
    ensures SkipBlanks([letter] + rest) == [letter] + rest && Letter([letter] + rest, minus, plus) == Some(letter)
  {
  }

  /** A coordinate rounded to whole seconds of arc. */
  function Snapped(x: real): real {
    Signed(x < 0.0, WholeSeconds(Abs(x)) as real / 3600.0)
  }

  lemma SnapIsClose(x: real)
    ensures -0.5 <= 3600.0 * (Snapped(x) - x) <= 0.5
  {
  }

  lemma SnapInRange(x: real, limit: int)
    requires -limit as real <= x <= limit as real
    ensures -limit as real <= Snapped(x) <= limit as real
  {
    HalfSecond(Abs(x));
    hide WholeSeconds;
    var w := WholeSeconds(Abs(x));
    assert -0.5 <= w as real <= 3600.0 * limit as real + 0.5;
    assert 0 <= w <= 3600 * limit;
    assert 3600.0 * (w as real / 3600.0) == w as real;
  }

  /** Snapping twice is snapping once. */
  lemma SnapTwice(x: real)
    ensures Snapped(Snapped(x)) == Snapped(x)
  {
    HalfSecond(Abs(x));
    var w := WholeSeconds(Abs(x));
    hide WholeSeconds;
    assert w >= 0;
    WholeIsExact(w);
    assert Abs(Snapped(x)) == w as real / 3600.0;
  }

  lemma SnapParts(x: real)
    ensures Signed(x < 0.0, InDegrees(Degrees(Abs(x)), Minutes(Abs(x)), Seconds(Abs(x)) as real)) == Snapped(x)
  {
  }

  lemma BlankBefore(s: seq<byte>, minus: byte, plus: byte, atoi: seq<byte> -> int)
    ensures ParseCoordinate([SPACE] + s, minus, plus, atoi) == ParseCoordinate(s, minus, plus, atoi)
  {
  }

  lemma AbsPositive(x: real)
    ensures Abs(x) >= 0.0
  {
  }

  lemma SmallDegrees(x: real)
    requires 0.0 <= x
    ensures Degrees(x) as real <= x
  {
  }

  lemma AbsBounded(x: real, limit: real)
    requires -limit <= x <= limit
    ensures Abs(x) <= limit
  {
  }

  lemma PartsBounded(x: real)
    ensures InDegrees(Degrees(Abs(x)), Minutes(Abs(x)), Seconds(Abs(x)) as real) == Abs(Snapped(x))
  {
    HalfSecond(Abs(x));
  }

  /** The parser accepts every string the formatter prints and gives the rounded coordinates back. */
  lemma FormatParses(longitude: real, latitude: real, atoi: seq<byte> -> int)
    requires -180.0 <= longitude <= 180.0 && -90.0 <= latitude <= 90.0 && ReadsInts(atoi)
    ensures Format(longitude, latitude).Some?
    ensures Parse(Format(longitude, latitude).value, atoi) == Some((Snapped(longitude), Snapped(latitude)))
  {
    hide Degrees, Minutes, Seconds, Snapped, CoordinateText, Parse, InDegrees, Signed, ReadsInts;
    AbsPositive(longitude);
    AbsPositive(latitude);
    var lg, lt := Abs(longitude), Abs(latitude);
    PartsInRange(lg);
    PartsInRange(lt);
    var ns := if latitude < 0.0 then SOUTH else NORTH;
    var ew := if longitude < 0.0 then WEST else EAST;
    SnapParts(latitude);
    SnapParts(longitude);
    SnapInRange(latitude, 90);
    SnapInRange(longitude, 180);
    AbsBounded(longitude, 180.0);
    AbsBounded(latitude, 90.0);
    SmallDegrees(lg);
    SmallDegrees(lt);
    PartsAccepted(Degrees(lt), Minutes(lt), Seconds(lt), ns, Degrees(lg), Minutes(lg), Seconds(lg), ew, atoi);
    PartsBounded(latitude);
    PartsBounded(longitude);
  }

  /** Out and back: within half a second of arc, and a second trip changes nothing. */
  lemma RoundTrip(longitude: real, latitude: real, atoi: seq<byte> -> int)
    requires -180.0 <= longitude <= 180.0 && -90.0 <= latitude <= 90.0 && ReadsInts(atoi)
    ensures Format(longitude, latitude).Some? && Parse(Format(longitude, latitude).value, atoi).Some?
    ensures var (lg, lt) := Parse(Format(longitude, latitude).value, atoi).value;
      && -0.5 <= 3600.0 * (lg - longitude) <= 0.5
      && -0.5 <= 3600.0 * (lt - latitude) <= 0.5
      && Format(lg, lt).Some?
      && Parse(Format(lg, lt).value, atoi) == Some((lg, lt))
  {
    FormatParses(longitude, latitude, atoi);
    SnapIsClose(longitude);
    SnapIsClose(latitude);
    SnapInRange(longitude, 180);
    SnapInRange(latitude, 90);
    FormatParses(Snapped(longitude), Snapped(latitude), atoi);
    SnapTwice(longitude);
    SnapTwice(latitude);
    hide Format, Parse, Snapped, ReadsInts;
  }

  /** What is printed for coordinates in range. */
  lemma FormatIs(longitude: real, latitude: real)
    requires -180.0 <= longitude <= 180.0 && -90.0 <= latitude <= 90.0
    ensures var lg, lt := Abs(longitude), Abs(latitude);
      lg >= 0.0 && lt >= 0.0 && 0 <= Degrees(lt) && 0 <= Minutes(lt) && 0 <= Seconds(lt)
      && 0 <= Degrees(lg) && 0 <= Minutes(lg) && 0 <= Seconds(lg)
      && Format(longitude, latitude) == Some(
        CoordinateText(Degrees(lt), 2, Minutes(lt), Seconds(lt), if latitude < 0.0 then SOUTH else NORTH) + [SPACE]
        + CoordinateText(Degrees(lg), 3, Minutes(lg), Seconds(lg), if longitude < 0.0 then WEST else EAST))
  {
  }

  /** Nothing out of range is printed. */
  lemma FormatRefuses(longitude: real, latitude: real)
    ensures Format(longitude, latitude).None? <==>
      longitude < -180.0 || longitude > 180.0 || latitude < -90.0 || latitude > 90.0
  {
  }

  /** The formatter can print sixty seconds. */
  lemma SixtyIsPrinted()
    ensures Minutes(0.99999) == 59 && Seconds(0.99999) == 60
  {
  }
}
