/** gaiaParseDMS and gaiaConvertToDMS as they run: a cursor over the text, and variables updated in turn. */
module DmsText {
  import opened Bytes
  import opened Dms
  import opened Options

  /** dms[i], or the NUL behind the string. */
  function At(dms: seq<byte>, i: nat): byte {
    if i < |dms| then dms[i] else 0
  }

  /** The same for bytes further on: behind gives the memory behind the NUL, which a delimiter test may look at. */
  function Peek(dms: seq<byte>, i: nat, behind: nat -> byte): byte {
    if i <= |dms| then At(dms, i) else behind(i)
  }

  /** consume_blank */
  method ConsumeBlank(dms: seq<byte>, from: nat) returns (p: nat)
    requires from <= |dms|
    ensures from <= p <= |dms| && dms[p..] == SkipBlanks(dms[from..])
  {
    p := from;
    while At(dms, p) == SPACE || At(dms, p) == TAB
      invariant from <= p <= |dms| && SkipBlanks(dms[p..]) == SkipBlanks(dms[from..])
      decreases |dms| - p
    {
      assert dms[p..][1..] == dms[p + 1..];
      p := p + 1;
    }
  }

  /** check_deg_delimiter */
  method CheckDegDelimiter(dms: seq<byte>, from: nat, behind: nat -> byte) returns (ok: bool, p: nat)
    requires from <= |dms|
    ensures p <= |dms| && Delimiter(dms[from..], DegreeMark) == if ok then Some(dms[p..]) else None
  {
    if At(dms, from) == LETTER_D {
      return true, from + 1;
    }
    var ctrl1, ctrl2 := At(dms, from), Peek(dms, from + 1, behind);
    if ctrl1 == 0xC2 && ctrl2 == 0xB0 {
      assert dms[from..][..2] == MarkText(DegreeMark);
      return true, from + 2;
    }
    NoSign(dms[from..], MarkText(DegreeMark));
    return false, from;
  }

  lemma NoSign(s: seq<byte>, sign: seq<byte>)
    ensures sign <= s ==> forall i | 0 <= i < |sign| :: s[i] == sign[i]
  {
  }

  /** check_min_delimiter */
  method CheckMinDelimiter(dms: seq<byte>, from: nat, behind: nat -> byte) returns (ok: bool, p: nat)
    requires from <= |dms|
    ensures p <= |dms| && Delimiter(dms[from..], MinuteMark) == if ok then Some(dms[p..]) else None
  {
    if At(dms, from) == SQUOTE {
      return true, from + 1;
    }
    var ctrl1, ctrl2, ctrl3 := At(dms, from), Peek(dms, from + 1, behind), Peek(dms, from + 2, behind);
    if ctrl1 == 0xE2 && ctrl2 == 0x80 && ctrl3 == 0xB2 {
      assert dms[from..][..3] == MarkText(MinuteMark);
      return true, from + 3;
    }
    NoSign(dms[from..], MarkText(MinuteMark));
    return false, from;
  }

  /** check_sec_delimiter */
  method CheckSecDelimiter(dms: seq<byte>, from: nat, behind: nat -> byte) returns (ok: bool, p: nat)
    requires from <= |dms|
    ensures p <= |dms| && Delimiter(dms[from..], SecondMark) == if ok then Some(dms[p..]) else None
  {
    if At(dms, from) == DQUOTE {
      return true, from + 1;
    }
    var ctrl1, ctrl2, ctrl3 := At(dms, from), Peek(dms, from + 1, behind), Peek(dms, from + 2, behind);
    if ctrl1 == 0xE2 && ctrl2 == 0x80 && ctrl3 == 0xB3 {
      assert dms[from..][..3] == MarkText(SecondMark);
      return true, from + 3;
    }
    NoSign(dms[from..], MarkText(SecondMark));
    return false, from;
  }

  /** consume_int */
  method ConsumeInt(dms: seq<byte>, from: nat, atoi: seq<byte> -> int) returns (p: nat, value: int)
    requires from <= |dms|
    ensures p == from + DigitRun(dms[from..]) && p <= |dms|
    ensures value == if p == from then 181 else atoi(dms[from..p])
  {
    p := from;
    var len := 0;
    while Digit(At(dms, p))
      invariant from <= p <= |dms| && p == from + len
      invariant DigitRun(dms[from..]) == len + DigitRun(dms[p..])
      decreases |dms| - p
    {
      assert dms[p..][1..] == dms[p + 1..];
      len, p := len + 1, p + 1;
    }
    if len == 0 {
      return p, 181;
    }
    value := atoi(dms[from..p]);
  }

  /** consume_float */
  method ConsumeFloat(dms: seq<byte>, from: nat) returns (p: nat, value: real)
    requires from <= |dms|
    ensures p == from + FloatRun(dms[from..]) && p <= |dms| && value == FloatValue(dms[from..p])
  {
    p := from;
    var len, pt := 0, 0;
    while FloatByte(At(dms, p))
      invariant from <= p <= |dms| && p == from + len
      invariant FloatRun(dms[from..]) == len + FloatRun(dms[p..])
      invariant pt == Separators(dms[from..p])
      decreases |dms| - p
    {
      assert dms[p..][1..] == dms[p + 1..];
      assert dms[from..p + 1] == dms[from..p] + [dms[p]];
      OneMore(dms[from..p], dms[p]);
      if !Digit(At(dms, p)) {
        pt := pt + 1;
      }
      len, p := len + 1, p + 1;
    }
    if len == 0 || pt > 1 {
      return p, 61.0;
    }
    value := Atof(dms[from..p]);
  }

  lemma {:induction false} OneMore(s: seq<byte>, c: byte)
    ensures Separators(s + [c]) == Separators(s) + if Digit(c) then 0 else 1
  {
    if |s| > 0 {
      assert (s + [c])[1..] == s[1..] + [c];
      OneMore(s[1..], c);
    }
  }

  method CheckDelimiter(dms: seq<byte>, from: nat, mark: Mark, behind: nat -> byte) returns (ok: bool, p: nat)
    requires from <= |dms|
    ensures p <= |dms| && Delimiter(dms[from..], mark) == if ok then Some(dms[p..]) else None
  {
    match mark
    case DegreeMark => ok, p := CheckDegDelimiter(dms, from, behind);
    case MinuteMark => ok, p := CheckMinDelimiter(dms, from, behind);
    case SecondMark => ok, p := CheckSecDelimiter(dms, from, behind);
  }

  lemma Slices(dms: seq<byte>, from: nat, p: nat)
    requires from <= p <= |dms|
    ensures dms[from..p] == dms[from..][..p - from] && dms[p..] == dms[from..][p - from..]
  {
  }

  lemma IntTaken(s: seq<byte>, mark: Mark, atoi: seq<byte> -> int)
    ensures DigitRun(s) == 0 ==> TakeInt(s, mark, atoi) == None
    ensures DigitRun(s) > 0 ==> var rest := Delimiter(SkipBlanks(s[DigitRun(s)..]), mark);
      TakeInt(s, mark, atoi)
        == if rest.None? then None else Some((atoi(s[..DigitRun(s)]), SkipBlanks(rest.value)))
  {
  }

  /** The steps of gaiaParseDMS for degrees or minutes. */
  method ParseInt(dms: seq<byte>, from: nat, mark: Mark, atoi: seq<byte> -> int, behind: nat -> byte)
    returns (ok: bool, value: int, p: nat)
    requires from <= |dms|
    ensures p <= |dms| && TakeInt(dms[from..], mark, atoi) == if ok then Some((value, dms[p..])) else None
  {
    RunOfDigits(dms[from..]);
    IntTaken(dms[from..], mark, atoi);
    assert At(dms, from) == Head(dms[from..]);
    hide *;
    ok, value, p := false, 0, from;
    if Digit(At(dms, p)) {
      p, value := ConsumeInt(dms, p, atoi);
      Slices(dms, from, p);
      p := ConsumeBlank(dms, p);
      ok, p := CheckDelimiter(dms, p, mark, behind);
      if ok {
        p := ConsumeBlank(dms, p);
      }
    }
  }

  /** The steps of gaiaParseDMS for seconds. */
  method ParseFloat(dms: seq<byte>, from: nat, behind: nat -> byte) returns (ok: bool, value: real, p: nat)
    requires from <= |dms|
    ensures p <= |dms| && TakeFloat(dms[from..]) == if ok then Some((value, dms[p..])) else None
  {
    hide SkipBlanks, Delimiter, FloatRun, FloatValue;
    ok, value, p := false, 0.0, from;
    if Digit(At(dms, p)) {
      p, value := ConsumeFloat(dms, p);
      assert dms[from..p] == dms[from..][..p - from] && dms[p..] == dms[from..][p - from..];
      p := ConsumeBlank(dms, p);
      ok, p := CheckDelimiter(dms, p, SecondMark, behind);
      if ok {
        p := ConsumeBlank(dms, p);
      }
    }
  }

  /** The half of gaiaParseDMS for one coordinate. */
  method ParsePart(
    dms: seq<byte>, from: nat, minus: byte, plus: byte, atoi: seq<byte> -> int, behind: nat -> byte)
    returns (ok: bool, value: real, p: nat)
    requires from <= |dms| && minus != 0 && plus != 0
    ensures p <= |dms|
    ensures ParseCoordinate(dms[from..], minus, plus, atoi) == if ok then Some((value, dms[p..])) else None
  {
    hide SkipBlanks, InDegrees, TakeInt, TakeFloat;
    ok, value := false, 0.0;
    var prefix: byte := 0;
    p := ConsumeBlank(dms, from);
    if At(dms, p) == minus || At(dms, p) == plus {
      prefix := At(dms, p);
      assert dms[p..][1..] == dms[p + 1..];
      p := ConsumeBlank(dms, p + 1);
    }
    var d, m, s, found;
    found, d, p := ParseInt(dms, p, DegreeMark, atoi, behind);
    if !found {
      return;
    }
    found, m, p := ParseInt(dms, p, MinuteMark, atoi, behind);
    if !found {
      return;
    }
    found, s, p := ParseFloat(dms, p, behind);
    if !found {
      return;
    }
    if prefix == 0 {
      if At(dms, p) == minus || At(dms, p) == plus {
        prefix := At(dms, p);
        assert dms[p..][1..] == dms[p + 1..];
        p := p + 1;
      } else {
        return;
      }
    }
    value := InDegrees(d, m, s);
    if prefix == minus {
      value := value * -1.0;
    }
    ok := true;
  }

  lemma RunOfDigits(s: seq<byte>)
    ensures DigitRun(s) == 0 <==> !Digit(Head(s))
  {
  }

  /** gaiaParseDMS, for whatever atoi makes of digits that no int can hold and whatever is behind the string. */
  method ParseDMS(dms: seq<byte>, atoi: seq<byte> -> int, behind: nat -> byte)
    returns (ok: bool, longitude: real, latitude: real)
    ensures Parse(dms, atoi) == if ok then Some((longitude, latitude)) else None
  {
    hide ParseCoordinate;
    ok, longitude, latitude := false, 0.0, 0.0;
    assert dms[0..] == dms;
    var found, lt, p := ParsePart(dms, 0, SOUTH, NORTH, atoi, behind);
    if !found || lt < -90.0 || lt > 90.0 {
      return;
    }
    var lg;
    found, lg, p := ParsePart(dms, p, WEST, EAST, atoi, behind);
    if !found || lg < -180.0 || lg > 180.0 {
      return;
    }
    return true, lg, lt;
  }

  /** Whole degrees, minutes and seconds of a coordinate that is not negative. */
  method Split(x: real) returns (d: nat, m: nat, s: nat)
    requires x >= 0.0
    ensures d == Degrees(x) && m == Minutes(x) && s == Seconds(x)
  {
    PartsInRange(x);
    d := x.Floor;
    var val := 60.0 * (x - d as real);
    m := val.Floor;
    val := 60.0 * (val - m as real);
    var seconds := val.Floor;
    if val - seconds as real > 0.5 {
      seconds := seconds + 1;
    }
    s := seconds;
  }

  /** gaiaConvertToDMS */
  method ConvertToDMS(longitude: real, latitude: real) returns (dms: Option<seq<byte>>)
    ensures dms == Format(longitude, latitude)
    ensures dms.None? <==> longitude < -180.0 || longitude > 180.0 || latitude < -90.0 || latitude > 90.0
    ensures dms.Some? ==> forall atoi | ReadsInts(atoi) :: Parse(dms.value, atoi).Some?
  {
    FormatRefuses(longitude, latitude);
    var lg, lt, longPrefix, latPrefix := longitude, latitude, EAST, NORTH;
    if longitude < -180.0 || longitude > 180.0 {
      return None;
    }
    if latitude < -90.0 || latitude > 90.0 {
      return None;
    }
    if lg < 0.0 {
      longPrefix := WEST;
      lg := lg * -1.0;
    }
    if lt < 0.0 {
      latPrefix := SOUTH;
      lt := lt * -1.0;
    }
    FormatIs(longitude, latitude);
    forall atoi | ReadsInts(atoi) ensures Parse(Format(longitude, latitude).value, atoi).Some? {
      FormatParses(longitude, latitude, atoi);
    }
    assert lg == Abs(longitude) && lt == Abs(latitude);
    hide Degrees, Minutes, Seconds, CoordinateText, Parse, Format, Abs, ReadsInts;
    var longD, longM, longS := Split(lg);
    var latD, latM, latS := Split(lt);
    dms := Some(CoordinateText(latD, 2, latM, latS, latPrefix) + [SPACE]
                + CoordinateText(longD, 3, longM, longS, longPrefix));
  }
}
