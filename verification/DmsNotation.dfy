/** What gaiaConvertToDMS prints, byte for byte, and every way of writing a coordinate that gaiaParseDMS understands. */
module DmsNotation {
  import opened Bytes
  import opened Dms
  import opened Options

  // ----- what is printed -----

  function TwoDigits(n: int): seq<byte>
    requires 0 <= n < 100
  {
    [48 + n / 10, 48 + n % 10]
  }

  function ThreeDigits(n: int): seq<byte>
    requires 0 <= n < 1000
  {
    [48 + n / 100] + TwoDigits(n % 100)
  }

  lemma PaddedTwo(n: nat)
    requires n < 100
    ensures Padded(n, 2) == TwoDigits(n)
  {
    if n >= 10 {
      assert Decimal(n) == Decimal(n / 10) + [48 + n % 10];
      assert Decimal(n / 10) == [48 + n / 10];
    }
  }

  lemma PaddedThree(n: nat)
    requires n < 1000
    ensures Padded(n, 3) == ThreeDigits(n)
  {
    if n >= 100 {
      assert Decimal(n) == Decimal(n / 10) + [48 + n % 10];
      assert Decimal(n / 10) == Decimal(n / 10 / 10) + [48 + n / 10 % 10];
      assert Decimal(n / 10 / 10) == [48 + n / 10 / 10];
    } else {
      PaddedTwo(n);
      assert [48] + Padded(n, 2) == Padded(n, 3);
    }
  }

  /** Degrees and minutes are rounded down, seconds to the nearest number and a half down. */
  lemma PartsAre(x: real)
    requires x >= 0.0
    ensures var d, m, s := Degrees(x), Minutes(x), Seconds(x);
      && d as real <= x < (d + 1) as real
      && m as real <= 60.0 * (x - d as real) < (m + 1) as real
      && -0.5 <= s as real - (3600.0 * x - (3600 * d + 60 * m) as real) < 0.5
  {
  }

  /** Two digits for latitude degrees, three for longitude degrees, two for every other number, each with its sign. */
  lemma FormatBytes(longitude: real, latitude: real)
    requires -180.0 <= longitude <= 180.0 && -90.0 <= latitude <= 90.0
    ensures var x, y := Abs(latitude), Abs(longitude);
      && 0 <= Degrees(x) < 100 && 0 <= Minutes(x) < 100 && 0 <= Seconds(x) < 100
      && 0 <= Degrees(y) < 1000 && 0 <= Minutes(y) < 100 && 0 <= Seconds(y) < 100
      && Format(longitude, latitude) == Some(
        TwoDigits(Degrees(x)) + [0xC2, 0xB0] + TwoDigits(Minutes(x)) + [0xE2, 0x80, 0xB2]
        + TwoDigits(Seconds(x)) + [0xE2, 0x80, 0xB3] + [if latitude < 0.0 then 83 else 78] + [32]
        + (ThreeDigits(Degrees(y)) + [0xC2, 0xB0] + TwoDigits(Minutes(y)) + [0xE2, 0x80, 0xB2]
           + TwoDigits(Seconds(y)) + [0xE2, 0x80, 0xB3] + [if longitude < 0.0 then 87 else 69]))
  {
    var x, y := Abs(latitude), Abs(longitude);
    AbsBounded(latitude, 90.0);
    AbsBounded(longitude, 180.0);
    AbsPositive(latitude);
    AbsPositive(longitude);
    PartsInRange(x);
    PartsInRange(y);
    SmallDegrees(x);
    SmallDegrees(y);
    FormatIs(longitude, latitude);
    hide Degrees, Minutes, Seconds, Padded, Format, Abs, TwoDigits, ThreeDigits;
    PaddedTwo(Degrees(x));
    PaddedTwo(Minutes(x));
    PaddedTwo(Seconds(x));
    PaddedThree(Degrees(y));
    PaddedTwo(Minutes(y));
    PaddedTwo(Seconds(y));
  }

  // ----- what is understood -----

  predicate Blanks(s: seq<byte>) {
    forall i | 0 <= i < |s| :: s[i] == 32 || s[i] == 9
  }

  predicate Numeral(s: seq<byte>) {
    |s| > 0 && forall i | 0 <= i < |s| :: Digit(s[i])
  }

  predicate Digits(s: seq<byte>) {
    forall i | 0 <= i < |s| :: Digit(s[i])
  }

  /** What the seconds may look like: digits, points and commas, a digit first. */
  predicate SecondsRun(s: seq<byte>) {
    |s| > 0 && Digit(s[0]) && forall i | 0 <= i < |s| :: FloatByte(s[i])
  }

  /** A qualifier in its ASCII form or its Unicode form. */
  function Qualifier(mark: Mark, ascii: bool): (q: seq<byte>)
    ensures |q| > 0 && !FloatByte(q[0]) && q[0] != 32 && q[0] != 9
  {
    match mark
    case DegreeMark => if ascii then [100] else [0xC2, 0xB0]
    case MinuteMark => if ascii then [39] else [0xE2, 0x80, 0xB2]
    case SecondMark => if ascii then [34] else [0xE2, 0x80, 0xB3]
  }

  /** A number as written: digits, blanks, its qualifier in one of two forms, blanks. */
  datatype Part = Part(digits: seq<byte>, gap: seq<byte>, ascii: bool, after: seq<byte>)

  predicate PartOk(p: Part) {
    Blanks(p.gap) && Blanks(p.after)
  }

  function PartText(p: Part, mark: Mark): seq<byte> {
    p.digits + (p.gap + (Qualifier(mark, p.ascii) + p.after))
  }

  lemma {:induction false} BlanksSkipped(b: seq<byte>, s: seq<byte>)
    requires Blanks(b)
    ensures SkipBlanks(b + s) == SkipBlanks(s)
  {
    if |b| == 0 {
      assert b + s == s;
    } else {
      assert (b + s)[1..] == b[1..] + s;
      BlanksSkipped(b[1..], s);
    }
  }

  lemma QualifierTaken(mark: Mark, ascii: bool, s: seq<byte>)
    ensures var t := Qualifier(mark, ascii) + s; SkipBlanks(t) == t && Delimiter(t, mark) == Some(s)
  {
    var t := Qualifier(mark, ascii) + s;
    assert t[|Qualifier(mark, ascii)|..] == s;
  }

  lemma {:induction false} NumeralRun(digits: seq<byte>, s: seq<byte>)
    requires Numeral(digits) && (|s| > 0 ==> !Digit(s[0]))
    ensures DigitRun(digits + s) == |digits|
  {
    var t := digits + s;
    if |s| > 0 {
      DigitRunIs(t, |digits|);
    } else {
      assert t == digits;
      AllDigits(digits);
    }
  }

  /** A whole number with its qualifier is taken, blanks and all. */
  lemma IntPart(p: Part, mark: Mark, s: seq<byte>, atoi: seq<byte> -> int)
    requires PartOk(p) && Numeral(p.digits)
    ensures TakeInt(PartText(p, mark) + s, mark, atoi) == Some((atoi(p.digits), SkipBlanks(s)))
  {
    var q := Qualifier(mark, p.ascii) + (p.after + s);
    var behind := p.gap + q;
    assert PartText(p, mark) + s == p.digits + behind;
    assert !Digit(behind[0]);
    NumeralRun(p.digits, behind);
    BlanksSkipped(p.gap, q);
    QualifierTaken(mark, p.ascii, p.after + s);
    BlanksSkipped(p.after, s);
    assert (p.digits + behind)[..|p.digits|] == p.digits && (p.digits + behind)[|p.digits|..] == behind;
    hide DigitRun, SkipBlanks, Delimiter, Qualifier;
  }

  lemma {:induction false} RunOfFloat(run: seq<byte>, s: seq<byte>)
    requires (forall i | 0 <= i < |run| :: FloatByte(run[i])) && (|s| > 0 ==> !FloatByte(s[0]))
    ensures FloatRun(run + s) == |run|
  {
    if |run| == 0 {
      assert run + s == s;
    } else {
      assert (run + s)[1..] == run[1..] + s;
      RunOfFloat(run[1..], s);
    }
  }

  lemma SecondsPart(p: Part, s: seq<byte>)
    requires PartOk(p) && SecondsRun(p.digits)
    ensures TakeFloat(PartText(p, SecondMark) + s) == Some((FloatValue(p.digits), SkipBlanks(s)))
  {
    var q := Qualifier(SecondMark, p.ascii) + (p.after + s);
    var behind := p.gap + q;
    assert PartText(p, SecondMark) + s == p.digits + behind;
    assert !FloatByte(behind[0]);
    RunOfFloat(p.digits, behind);
    BlanksSkipped(p.gap, q);
    QualifierTaken(SecondMark, p.ascii, p.after + s);
    BlanksSkipped(p.after, s);
    assert (p.digits + behind)[..|p.digits|] == p.digits && (p.digits + behind)[|p.digits|..] == behind;
    assert Head(p.digits + behind) == p.digits[0];
    hide FloatRun, FloatValue, SkipBlanks, Delimiter, Qualifier;
  }

  /** A coordinate as written: blanks, and the hemisphere letter before the numbers or behind them. */
  datatype Notation = Notation(
    lead: seq<byte>, letter: byte, before: bool, gap: seq<byte>, degrees: Part, minutes: Part, seconds: Part)

  predicate WellFormed(c: Notation) {
    && Blanks(c.lead) && Blanks(c.gap) && PartOk(c.degrees) && PartOk(c.minutes) && PartOk(c.seconds)
    && Numeral(c.degrees.digits) && Numeral(c.minutes.digits) && SecondsRun(c.seconds.digits)
  }

  /** With degrees and minutes that an int can hold. */
  predicate Written(c: Notation) {
    && WellFormed(c)
    && DecimalValue(c.degrees.digits) < 0x8000_0000 && DecimalValue(c.minutes.digits) < 0x8000_0000
  }

  function Numbers(c: Notation): seq<byte> {
    PartText(c.degrees, DegreeMark) + (PartText(c.minutes, MinuteMark) + PartText(c.seconds, SecondMark))
  }

  function NotationText(c: Notation): seq<byte> {
    c.lead + if c.before then [c.letter] + (c.gap + Numbers(c)) else Numbers(c) + [c.letter]
  }

  /** The value of what is written. */
  function NotationValue(c: Notation, minus: byte): real {
    var v := DecimalValue(c.degrees.digits) as real + DecimalValue(c.minutes.digits) as real / 60.0
      + FloatValue(c.seconds.digits) / 3600.0;
    if c.letter == minus then -v else v
  }

  /** The three numbers in front of anything. */
  lemma NumbersRead(c: Notation, s: seq<byte>, atoi: seq<byte> -> int)
    requires Written(c) && ReadsInts(atoi)
    ensures var t := Numbers(c) + s;
      var s1, s2 := PartText(c.minutes, MinuteMark) + (PartText(c.seconds, SecondMark) + s),
        PartText(c.seconds, SecondMark) + s;
      && TakeInt(t, DegreeMark, atoi) == Some((DecimalValue(c.degrees.digits), s1))
      && TakeInt(s1, MinuteMark, atoi) == Some((DecimalValue(c.minutes.digits), s2))
      && TakeFloat(s2) == Some((FloatValue(c.seconds.digits), SkipBlanks(s)))
      && SkipBlanks(t) == t && Digit(Head(t))
  {
    var s2 := PartText(c.seconds, SecondMark) + s;
    var s1 := PartText(c.minutes, MinuteMark) + s2;
    var t := PartText(c.degrees, DegreeMark) + s1;
    NumbersSplit(c, s);
    assert atoi(c.degrees.digits) == DecimalValue(c.degrees.digits);
    assert atoi(c.minutes.digits) == DecimalValue(c.minutes.digits);
    assert Digit(c.degrees.digits[0]);
    hide PartText, TakeInt, TakeFloat, SkipBlanks, FloatValue, DecimalValue, Numbers, ReadsInts, Blanks;
    StartsWithDigit(c.degrees, DegreeMark, s1);
    IntPart(c.degrees, DegreeMark, s1, atoi);
    IntPart(c.minutes, MinuteMark, s2, atoi);
    SecondsPart(c.seconds, s);
  }

  lemma NumbersSplit(c: Notation, s: seq<byte>)
    ensures Numbers(c) + s == PartText(c.degrees, DegreeMark)
      + (PartText(c.minutes, MinuteMark) + (PartText(c.seconds, SecondMark) + s))
  {
    hide PartText;
  }

  lemma StartsWithDigit(p: Part, mark: Mark, s: seq<byte>)
    requires |p.digits| > 0 && Digit(p.digits[0])
    ensures var t := PartText(p, mark) + s; Digit(Head(t)) && SkipBlanks(t) == t
  {
    var t := PartText(p, mark) + s;
    assert t[0] == p.digits[0];
  }

  /**
   Every notation is understood: blanks anywhere between the pieces, either form of each qualifier, the letter in front
   or behind, leading zeros, and seconds with a fraction.
   */
  lemma NotationRead(c: Notation, minus: byte, plus: byte, s: seq<byte>, atoi: seq<byte> -> int)
    requires Written(c) && ReadsInts(atoi) && 64 < minus < 128 && 64 < plus < 128
    requires c.letter == minus || c.letter == plus
    ensures ParseCoordinate(NotationText(c) + s, minus, plus, atoi)
      == Some((NotationValue(c, minus), if c.before then SkipBlanks(s) else s))
  {
    var tail := if c.before then s else [c.letter] + s;
    var t := Numbers(c) + tail;
    NumbersRead(c, tail, atoi);
    var full := if c.before then [c.letter] + (c.gap + t) else t;
    NotationIs(c, s);
    BlanksSkipped(c.lead, full);
    LetterStays(c.letter, c.gap + t, minus, plus);
    LetterStays(c.letter, s, minus, plus);
    BlanksSkipped(c.gap, t);
    assert ([c.letter] + (c.gap + t))[1..] == c.gap + t && ([c.letter] + s)[1..] == s;
    NotationFrom(c, minus, plus, s, atoi);
    hide *;
  }

  lemma NotationIs(c: Notation, s: seq<byte>)
    ensures var tail := if c.before then s else [c.letter] + s;
      var full := if c.before then [c.letter] + (c.gap + (Numbers(c) + tail)) else Numbers(c) + tail;
      NotationText(c) + s == c.lead + full
  {
    hide Numbers;
  }

  /** The parser from the first character that is not blank. */
  lemma NotationFrom(c: Notation, minus: byte, plus: byte, s: seq<byte>, atoi: seq<byte> -> int)
    requires Written(c) && ReadsInts(atoi) && 64 < minus < 128 && 64 < plus < 128
    requires c.letter == minus || c.letter == plus
    ensures var tail := if c.before then s else [c.letter] + s;
      var full := if c.before then [c.letter] + (c.gap + (Numbers(c) + tail)) else Numbers(c) + tail;
      SkipBlanks(full) == full
      && ParseFrom(full, minus, plus, atoi) == Some((NotationValue(c, minus), if c.before then SkipBlanks(s) else s))
  {
    var tail := if c.before then s else [c.letter] + s;
    var t := Numbers(c) + tail;
    var d, m := DecimalValue(c.degrees.digits), DecimalValue(c.minutes.digits);
    var x := FloatValue(c.seconds.digits);
    var s1 := PartText(c.minutes, MinuteMark) + (PartText(c.seconds, SecondMark) + tail);
    var s2 := PartText(c.seconds, SecondMark) + tail;
    NumbersRead(c, tail, atoi);
    GapIsBlank(c);
    ValueIs(c, minus);
    hide *;
    DigitIsNoLetter(t, minus, plus);
    if c.before {
      LetterStays(c.letter, c.gap + t, minus, plus);
      BlanksSkipped(c.gap, t);
      var full := [c.letter] + (c.gap + t);
      assert full[1..] == c.gap + t;
      LetterFirst(full, t, d, s1, m, s2, x, SkipBlanks(s), minus, plus, c.letter, atoi);
    } else {
      LetterStays(c.letter, s, minus, plus);
      assert tail[1..] == s;
      LetterLast(t, d, s1, m, s2, x, tail, minus, plus, c.letter, atoi);
    }
  }

  lemma GapIsBlank(c: Notation)
    ensures Written(c) ==> Blanks(c.gap)
  {
  }

  lemma ValueIs(c: Notation, minus: byte)
    ensures NotationValue(c, minus) == Signed(c.letter == minus,
      InDegrees(DecimalValue(c.degrees.digits), DecimalValue(c.minutes.digits), FloatValue(c.seconds.digits)))
  {
    hide DecimalValue, FloatValue;
  }

  lemma LetterFirst(
    full: seq<byte>, t0: seq<byte>, d: int, t1: seq<byte>, m: int, t2: seq<byte>, x: real, t3: seq<byte>,
    minus: byte, plus: byte, letter: byte, atoi: seq<byte> -> int)
    requires Letter(full, minus, plus) == Some(letter) && SkipBlanks(full[1..]) == t0
    requires TakeInt(t0, DegreeMark, atoi) == Some((d, t1)) && TakeInt(t1, MinuteMark, atoi) == Some((m, t2))
    requires TakeFloat(t2) == Some((x, t3))
    ensures ParseFrom(full, minus, plus, atoi) == Some((Signed(letter == minus, InDegrees(d, m, x)), t3))
  {
    hide TakeInt, TakeFloat, SkipBlanks, Letter, InDegrees, Signed;
  }

  lemma LetterLast(
    t0: seq<byte>, d: int, t1: seq<byte>, m: int, t2: seq<byte>, x: real, t3: seq<byte>, minus: byte, plus: byte,
    letter: byte, atoi: seq<byte> -> int)
    requires SkipBlanks(t0) == t0 && Letter(t0, minus, plus).None? && Letter(t3, minus, plus) == Some(letter)
    requires TakeInt(t0, DegreeMark, atoi) == Some((d, t1)) && TakeInt(t1, MinuteMark, atoi) == Some((m, t2))
    requires TakeFloat(t2) == Some((x, t3))
    ensures ParseFrom(t0, minus, plus, atoi) == Some((Signed(letter == minus, InDegrees(d, m, x)), t3[1..]))
  {
    Chained(t0, d, t1, m, t2, x, t3, minus, plus, letter, atoi);
  }

  lemma DigitIsNoLetter(t: seq<byte>, minus: byte, plus: byte)
    requires 64 < minus && 64 < plus
    ensures Digit(Head(t)) ==> Letter(t, minus, plus).None?
  {
  }

  /** Latitude and longitude, each in any notation, with anything behind them. */
  lemma TwoNotations(a: Notation, b: Notation, s: seq<byte>, atoi: seq<byte> -> int)
    requires Written(a) && Written(b) && ReadsInts(atoi)
    requires (a.letter == 83 || a.letter == 78) && (b.letter == 87 || b.letter == 69)
    ensures var lt, lg := NotationValue(a, 83), NotationValue(b, 87);
      Parse(NotationText(a) + (NotationText(b) + s), atoi)
        == if -90.0 <= lt <= 90.0 && -180.0 <= lg <= 180.0 then Some((lg, lt)) else None
  {
    hide ParseCoordinate, NotationValue, NotationText, Written, ReadsInts;
    var rest := NotationText(b) + s;
    NotationRead(a, SOUTH, NORTH, rest, atoi);
    NotationRead(b, WEST, EAST, s, atoi);
    SkippedParses(rest, atoi);
  }

  lemma SkippedParses(s: seq<byte>, atoi: seq<byte> -> int)
    ensures ParseCoordinate(SkipBlanks(s), WEST, EAST, atoi) == ParseCoordinate(s, WEST, EAST, atoi)
  {
    SkipTwice(s);
    hide ParseFrom;
  }

  lemma {:induction false} SkipTwice(s: seq<byte>)
    ensures SkipBlanks(SkipBlanks(s)) == SkipBlanks(s)
    decreases |s|
  {
    if Head(s) == SPACE || Head(s) == TAB {
      SkipTwice(s[1..]);
    }
  }

  /** Seconds: a whole number, one with a decimal point, one with a comma, and anything with more than one separator. */
  lemma SecondsMeaning(whole: seq<byte>, fraction: seq<byte>)
    requires Numeral(whole) && Digits(fraction)
    ensures FloatValue(whole) == DecimalValue(whole) as real
    ensures FloatValue(whole + [46] + fraction)
      == DecimalValue(whole) as real + DecimalValue(fraction) as real / Power10(|fraction|)
    ensures FloatValue(whole + [44] + fraction) == DecimalValue(whole) as real
  {
    NoSeparators(whole);
    AllDigits(whole);
    assert whole[..|whole|] == whole;
    WithSeparator(whole, 46, fraction);
    WithSeparator(whole, 44, fraction);
    AllDigits(fraction);
    assert fraction[..|fraction|] == fraction;
    hide DecimalValue, DigitRun, Separators, Power10;
  }

  lemma WithSeparator(whole: seq<byte>, c: byte, fraction: seq<byte>)
    requires Digits(whole) && Digits(fraction) && !Digit(c)
    ensures var r := whole + [c] + fraction;
      Separators(r) == 1 && DigitRun(r) == |whole|
      && r[..|whole|] == whole && r[|whole|] == c && r[|whole| + 1..] == fraction
  {
    NoSeparators(whole);
    NoSeparators(fraction);
    SeparatorsAdd(whole + [c], fraction);
    SeparatorsAdd(whole, [c]);
    assert Separators([c][1..]) == 0;
    DigitRunIs(whole + [c] + fraction, |whole|);
  }

  lemma {:induction false} NoSeparators(s: seq<byte>)
    requires Digits(s)
    ensures Separators(s) == 0
  {
    if |s| > 0 {
      NoSeparators(s[1..]);
    }
  }

  lemma {:induction false} SeparatorsAdd(a: seq<byte>, b: seq<byte>)
    ensures Separators(a + b) == Separators(a) + Separators(b)
  {
    if |a| == 0 {
      assert a + b == b;
    } else {
      assert (a + b)[1..] == a[1..] + b;
      SeparatorsAdd(a[1..], b);
    }
  }

  /** Two separators or more make 61 seconds of anything. */
  lemma ManySeparators(run: seq<byte>)
    requires Separators(run) > 1
    ensures FloatValue(run) == 61.0
  {
  }

  // ----- nothing else is understood -----

  lemma {:induction false} BlanksOf(s: seq<byte>) returns (b: seq<byte>)
    ensures Blanks(b) && s == b + SkipBlanks(s)
    decreases |s|
  {
    b := [];
    if Head(s) == SPACE || Head(s) == TAB {
      b := BlanksOf(s[1..]);
      assert s == [s[0]] + s[1..];
      assert [s[0]] + (b + SkipBlanks(s[1..])) == ([s[0]] + b) + SkipBlanks(s[1..]);
      b := [s[0]] + b;
    }
  }

  lemma QualifierOf(s: seq<byte>, mark: Mark) returns (ascii: bool)
    requires Delimiter(s, mark).Some?
    ensures s == Qualifier(mark, ascii) + Delimiter(s, mark).value
  {
    ascii := |s| > 0 && s[0] == AsciiMark(mark);
  }

  /** A number behind k characters of it: blanks, qualifier, blanks. */
  lemma PartOf(s: seq<byte>, k: nat, mark: Mark) returns (p: Part)
    requires k <= |s| && Delimiter(SkipBlanks(s[k..]), mark).Some?
    ensures PartOk(p) && p.digits == s[..k]
    ensures s == PartText(p, mark) + SkipBlanks(Delimiter(SkipBlanks(s[k..]), mark).value)
  {
    var gap := BlanksOf(s[k..]);
    var marked := SkipBlanks(s[k..]);
    var ascii := QualifierOf(marked, mark);
    var rest := Delimiter(marked, mark).value;
    var after := BlanksOf(rest);
    p := Part(s[..k], gap, ascii, after);
    assert s == s[..k] + s[k..];
    hide SkipBlanks, Delimiter, Qualifier;
    Nested(s[..k], gap, Qualifier(mark, ascii), after, SkipBlanks(rest));
  }

  lemma Nested(a: seq<byte>, b: seq<byte>, c: seq<byte>, d: seq<byte>, e: seq<byte>)
    ensures a + (b + (c + (d + e))) == (a + (b + (c + d))) + e
  {
  }

  lemma IntOf(s: seq<byte>, mark: Mark, atoi: seq<byte> -> int) returns (p: Part)
    requires TakeInt(s, mark, atoi).Some?
    ensures PartOk(p) && Numeral(p.digits)
    ensures s == PartText(p, mark) + TakeInt(s, mark, atoi).value.1
    ensures TakeInt(s, mark, atoi).value.0 == atoi(p.digits)
  {
    var k := DigitRun(s);
    p := PartOf(s, k, mark);
    hide PartText, SkipBlanks, Delimiter;
  }

  lemma SecondsOf(s: seq<byte>) returns (p: Part)
    requires TakeFloat(s).Some?
    ensures PartOk(p) && SecondsRun(p.digits)
    ensures s == PartText(p, SecondMark) + TakeFloat(s).value.1
    ensures TakeFloat(s).value.0 == FloatValue(p.digits)
  {
    var k := FloatRun(s);
    assert k > 0;
    p := PartOf(s, k, SecondMark);
    hide PartText, SkipBlanks, Delimiter, FloatValue;
  }

  lemma NumbersOf(s: seq<byte>, atoi: seq<byte> -> int) returns (d: Part, m: Part, x: Part)
    requires TakeInt(s, DegreeMark, atoi).Some?
    requires TakeInt(TakeInt(s, DegreeMark, atoi).value.1, MinuteMark, atoi).Some?
    requires TakeFloat(TakeInt(TakeInt(s, DegreeMark, atoi).value.1, MinuteMark, atoi).value.1).Some?
    ensures PartOk(d) && PartOk(m) && PartOk(x) && Numeral(d.digits) && Numeral(m.digits) && SecondsRun(x.digits)
    ensures s == (PartText(d, DegreeMark) + (PartText(m, MinuteMark) + PartText(x, SecondMark)))
      + TakeFloat(TakeInt(TakeInt(s, DegreeMark, atoi).value.1, MinuteMark, atoi).value.1).value.1
  {
    hide TakeInt, TakeFloat, PartText;
    var s1 := TakeInt(s, DegreeMark, atoi).value.1;
    var s2 := TakeInt(s1, MinuteMark, atoi).value.1;
    d := IntOf(s, DegreeMark, atoi);
    m := IntOf(s1, MinuteMark, atoi);
    x := SecondsOf(s2);
    var a, b, c, t := PartText(d, DegreeMark), PartText(m, MinuteMark), PartText(x, SecondMark), TakeFloat(s2).value.1;
    assert a + (b + (c + t)) == (a + (b + c)) + t;
  }

  /** Where the numbers start. */
  function NumbersIn(t: seq<byte>, minus: byte, plus: byte): seq<byte> {
    if Letter(t, minus, plus).Some? then SkipBlanks(t[1..]) else t
  }

  lemma PartsTaken(t: seq<byte>, minus: byte, plus: byte, atoi: seq<byte> -> int) returns (tail: seq<byte>)
    requires ParseFrom(t, minus, plus, atoi).Some?
    ensures TakeInt(NumbersIn(t, minus, plus), DegreeMark, atoi).Some?
    ensures TakeInt(TakeInt(NumbersIn(t, minus, plus), DegreeMark, atoi).value.1, MinuteMark, atoi).Some?
    ensures
      var s2 := TakeInt(TakeInt(NumbersIn(t, minus, plus), DegreeMark, atoi).value.1, MinuteMark, atoi).value.1;
      TakeFloat(s2).Some? && TakeFloat(s2).value.1 == tail
    ensures Letter(t, minus, plus).None? ==> Letter(tail, minus, plus).Some?
  {
    hide TakeInt, TakeFloat, SkipBlanks, Letter, InDegrees, Signed;
    var s1 := TakeInt(NumbersIn(t, minus, plus), DegreeMark, atoi).value.1;
    tail := TakeFloat(TakeInt(s1, MinuteMark, atoi).value.1).value.1;
  }

  lemma LetterOf(t: seq<byte>, minus: byte, plus: byte) returns (letter: byte)
    requires Letter(t, minus, plus).Some?
    ensures (letter == minus || letter == plus) && t == [letter] + t[1..]
  {
    letter := t[0];
  }

  lemma LetterInFront(lead: seq<byte>, letter: byte, gap: seq<byte>, d: Part, m: Part, x: Part, tail: seq<byte>)
    ensures var c := Notation(lead, letter, true, gap, d, m, x);
      lead + ([letter] + (gap + (Numbers(c) + tail))) == NotationText(c) + tail
  {
    hide Numbers;
  }

  lemma LetterBehind(lead: seq<byte>, letter: byte, d: Part, m: Part, x: Part, rest: seq<byte>)
    ensures var c := Notation(lead, letter, false, [], d, m, x);
      lead + (Numbers(c) + ([letter] + rest)) == NotationText(c) + rest
  {
    hide Numbers;
  }

  /** Whatever is accepted is a coordinate in one of these notations. */
  lemma OnlyNotations(s: seq<byte>, minus: byte, plus: byte, atoi: seq<byte> -> int)
    returns (c: Notation, rest: seq<byte>)
    requires ParseCoordinate(s, minus, plus, atoi).Some?
    ensures WellFormed(c) && (c.letter == minus || c.letter == plus) && s == NotationText(c) + rest
  {
    var t := SkipBlanks(s);
    hide ParseFrom, TakeInt, TakeFloat, SkipBlanks, PartText, Letter, Numeral, SecondsRun, NotationText, Blanks;
    var lead := BlanksOf(s);
    var tail := PartsTaken(t, minus, plus, atoi);
    var d, m, x := NumbersOf(NumbersIn(t, minus, plus), atoi);
    if Letter(t, minus, plus).Some? {
      var letter := LetterOf(t, minus, plus);
      var gap := BlanksOf(t[1..]);
      c, rest := Notation(lead, letter, true, gap, d, m, x), tail;
      LetterInFront(lead, letter, gap, d, m, x, tail);
    } else {
      var letter := LetterOf(tail, minus, plus);
      c, rest := Notation(lead, letter, false, [], d, m, x), tail[1..];
      NoBlanks();
      LetterBehind(lead, letter, d, m, x, rest);
    }
  }

  lemma NoBlanks()
    ensures Blanks([])
  {
  }
}
