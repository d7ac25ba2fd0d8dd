/** output_quoted_escaped_string and unused_string, and what SQL makes of their output. */
module SqlLiteralPrinter {
  import opened Bytes
  import opened Options
  import opened Pigeonhole
  import opened SqlLiteral

  // ----- evaluating the text -----

  lemma {:induction false} LexBack(s: seq<byte>, rest: seq<byte>)
    requires |rest| > 0 ==> rest[0] != QUOTE
    ensures Lex(Doubled(s, QUOTE) + [QUOTE] + rest) == Some((s, rest))
  {
    var t := Doubled(s, QUOTE) + [QUOTE] + rest;
    if |s| == 0 {
      assert t == [QUOTE] + rest && t[1..] == rest;
    } else {
      var t' := Doubled(s[1..], QUOTE) + [QUOTE] + rest;
      LexBack(s[1..], rest);
      assert [s[0]] + s[1..] == s;
      if s[0] == QUOTE {
        assert t == [QUOTE, QUOTE] + t' && t[2..] == t';
      } else {
        assert t == [s[0]] + t' && t[1..] == t';
      }
    }
  }

  lemma EvalLiteral(s: seq<byte>)
    requires |s| > 0 && s[0] == QUOTE
    ensures Eval(s) == Lex(s[1..])
  {
  }

  lemma LiteralBack(s: seq<byte>, rest: seq<byte>)
    requires |rest| > 0 ==> rest[0] != QUOTE
    ensures Eval([QUOTE] + Doubled(s, QUOTE) + [QUOTE] + rest) == Some((s, rest))
  {
    hide Eval, Lex, Doubled;
    LexBack(s, rest);
    EvalLiteral([QUOTE] + Doubled(s, QUOTE) + [QUOTE] + rest);
    assert ([QUOTE] + Doubled(s, QUOTE) + [QUOTE] + rest)[1..] == Doubled(s, QUOTE) + [QUOTE] + rest;
  }

  lemma {:induction false} DoubledPlain(s: seq<byte>)
    requires QUOTE !in s
    ensures Doubled(s, QUOTE) == s
  {
    if |s| > 0 {
      DoubledPlain(s[1..]);
      assert [s[0]] + s[1..] == s;
    }
  }

  lemma CharBack(c: byte, rest: seq<byte>)
    requires 0 < c < 128
    ensures Eval(Ascii("char(") + Decimal(c) + [RPAR] + rest) == Some(([c], rest))
  {
    var s := Ascii("char(") + Decimal(c) + [RPAR] + rest;
    var t := Decimal(c) + [RPAR] + rest;
    assert s[..5] == Ascii("char(") && s[5..] == t && s[0] == 99;
    DigitRunIs(t, |Decimal(c)|);
    assert t[..|Decimal(c)|] == Decimal(c) && t[|Decimal(c)| + 1..] == rest;
    DecimalRoundTrip(c);
  }

  lemma TailPieces(y: seq<byte>, c: byte)
    ensures CallTail(y, c)
      == [COMMA] + ([QUOTE] + y + [QUOTE] + ([COMMA] + (Ascii("char(") + Decimal(c) + [RPAR] + [RPAR])))
  {
  }

  lemma EvalCall(s: seq<byte>)
    ensures Ascii("replace(") <= Ascii("replace(") + s && !(Ascii("char(") <= Ascii("replace(") + s)
    ensures (Ascii("replace(") + s)[0] != QUOTE && (Ascii("replace(") + s)[8..] == s
  {
    var t := Ascii("replace(") + s;
    assert t[0] == 114 && Ascii("char(")[0] == 99;
  }

  lemma CallPieces(s: seq<byte>, y: seq<byte>, c: byte, rest: seq<byte>)
    ensures var s4 := Ascii("char(") + Decimal(c) + [RPAR] + ([RPAR] + rest);
      var s2 := [QUOTE] + y + [QUOTE] + ([COMMA] + s4);
      Call(s, y, c) + rest == Ascii("replace(") + (s + ([COMMA] + s2))
      && CallTail(y, c) + rest == [COMMA] + s2
  {
    hide Ascii, CallTail;
    TailPieces(y, c);
  }

  lemma ReplaceBackCall(s: seq<byte>, x: seq<byte>, y: seq<byte>, c: byte, rest: seq<byte>)
    requires Eval(s + (CallTail(y, c) + rest)) == Some((x, CallTail(y, c) + rest)) && QUOTE !in y && 0 < c < 128
    ensures Eval(Call(s, y, c) + rest) == Some((Replace(x, y, [c]), rest))
  {
    hide Replace, Ascii, Lex, Doubled, CallTail, Call, EvalChar;
    CallPieces(s, y, c, rest);
    var s5 := [RPAR] + rest;
    var s4 := Ascii("char(") + Decimal(c) + [RPAR] + s5;
    var s3 := [COMMA] + s4;
    var s2 := [QUOTE] + y + [QUOTE] + s3;
    EvalCall(s + ([COMMA] + s2));
    DoubledPlain(y);
    LiteralBack(y, s3);
    CharBack(c, s5);
    ExpectBack(COMMA, s2);
    ExpectBack(COMMA, s4);
    ExpectBack(RPAR, rest);
    hide Expect;
    assert Eval(s2) == Some((y, s3)) && Eval(s4) == Some(([c], s5));
  }

  lemma ExpectBack(c: byte, s: seq<byte>)
    ensures Expect(c, [c] + s) == Some(s)
  {
  }

  lemma TailStart(y: seq<byte>, c: byte)
    ensures |CallTail(y, c)| > 0 && CallTail(y, c)[0] == COMMA
  {
  }

  lemma NoQuotes(p: seq<byte>, letter: byte, digit: byte)
    requires OneOfTwo(letter, digit) && Placeholder(p, letter, digit)
    ensures QUOTE !in p && CR !in p && LF !in p
  {
  }

  /** Running the printed SQL gives the original string. */
  lemma TextBack(z: seq<byte>, nl: seq<byte>, cr: seq<byte>)
    requires LF in z ==> Placeholder(nl, LETTER_N, ZERO + 2) && !Contains(z, nl)
    requires CR in z ==> Placeholder(cr, LETTER_R, ZERO + 5) && !Contains(z, cr)
    ensures Eval(SqlText(z, nl, cr)) == Some((z, []))
  {
    hide Placeholder, Contains, Replace, Eval, CallTail, Call, Doubled, Subst;
    BothReplaced(z, nl, cr);
    var x := Subst(z, CR, cr, LF, nl);
    var lit := Literal(z, nl, cr);
    var tail := if LF in z then CallTail(nl, LF) + [] else [];
    TailStart(nl, LF);
    var inner, x1 := lit, x;
    if CR in z {
      TailStart(cr, CR);
      LiteralBack(x, CallTail(cr, CR) + tail);
      NoQuotes(cr, LETTER_R, ZERO + 5);
      ReplaceBackCall(lit, x, cr, CR, tail);
      inner, x1 := Call(lit, cr, CR), Replace(x, cr, [CR]);
    } else {
      LiteralBack(x, tail);
    }
    if LF in z {
      NoQuotes(nl, LETTER_N, ZERO + 2);
      ReplaceBackCall(inner, x1, nl, LF, []);
    }
    assert SqlText(z, nl, cr) + [] == SqlText(z, nl, cr);
  }

  // ----- unused_string -----

  method StrStr(z: seq<byte>, y: seq<byte>) returns (found: bool)
    ensures found <==> Contains(z, y)
  {
    var i := 0;
    while i <= |z|
      invariant i <= |z| + 1 && forall k | 0 <= k < i :: !(y <= z[k..])
    {
      if y <= z[i..] {
        return true;
      }
      i := i + 1;
    }
    return false;
  }

  lemma WholeCandidate(a: seq<byte>, i: nat)
    requires |a| == 2 && i < 0x1_0000_0000
    ensures Candidate(a, i) == [LPAR] + a + Decimal(i) + [RPAR]
  {
    assert Pow10(10) == 10_000_000_000;
    DecimalLength(i, 10, Pow10(10));
  }

  /** Different candidates never start at the same place. */
  lemma CandidatesApart(s: seq<byte>, a: seq<byte>, i: nat, j: nat)
    requires |a| == 2 && i < 0x1_0000_0000 && j < 0x1_0000_0000
    requires Candidate(a, i) <= s && Candidate(a, j) <= s
    ensures i == j
  {
    WholeCandidate(a, i);
    WholeCandidate(a, j);
    var t := s[3..];
    CandidateRun(s, a, i);
    CandidateRun(s, a, j);
    DecimalRoundTrip(i);
    DecimalRoundTrip(j);
  }

  lemma CandidateRun(s: seq<byte>, a: seq<byte>, i: nat)
    requires |a| == 2 && [LPAR] + a + Decimal(i) + [RPAR] <= s
    ensures |s| >= 3 && s[3..][..DigitRun(s[3..])] == Decimal(i)
  {
    var d := Decimal(i);
    var c := [LPAR] + a + d + [RPAR];
    assert s[..|c|] == c;
    assert s[3..][..|d| + 1] == c[3..] == d + [RPAR];
    assert forall k | 0 <= k < |d| :: s[3..][k] == (d + [RPAR])[k] == d[k];
    assert s[3..][|d|] == (d + [RPAR])[|d|];
    DigitRunIs(s[3..], |d|);
    assert s[3..][..|d|] == d;
  }

  /** Occurrences of the first i candidates, one for each. */
  ghost predicate Occur(z: seq<byte>, a: seq<byte>, ps: seq<nat>) {
    forall k | 0 <= k < |ps| :: ps[k] <= |z| && Candidate(a, k) <= z[ps[k]..]
  }

  /** By the pigeonhole principle a string has room for no more candidates than it has bytes. */
  lemma RoomFor(z: seq<byte>, a: seq<byte>, ps: seq<nat>)
    requires |a| == 2 && |z| < 0xFFFF_FFFF && |ps| <= |z| + 1 && Occur(z, a, ps)
    ensures |ps| <= |z|
  {
    forall i | 0 <= i < |ps| ensures ps[i] < |z| {
      WholeCandidate(a, i);
      assert |z[ps[i]..]| >= 5;
    }
    forall i, j | 0 <= i < j < |ps| ensures ps[i] != ps[j] {
      if ps[i] == ps[j] {
        CandidatesApart(z[ps[i]..], a, i, j);
      }
    }
    DistinctBelow(ps, |z|);
  }

  /** What unused_string promises: the first of its choices that is nowhere in z. */
  ghost predicate FirstUnused(z: seq<byte>, a: seq<byte>, b: seq<byte>, r: seq<byte>) {
    if !Contains(z, a) then r == a
    else if !Contains(z, b) then r == b
    else exists i: nat :: i <= |z| && IsFirst(z, a, i) && r == Candidate(a, i)
  }

  ghost predicate IsFirst(z: seq<byte>, a: seq<byte>, i: nat) {
    !Contains(z, Candidate(a, i)) && forall k: nat | k < i :: Contains(z, Candidate(a, k))
  }

  lemma NumberedIs(z: seq<byte>, a: seq<byte>, r: seq<byte>, i: nat)
    requires |a| == 2 && i <= |z| < 0xFFFF_FFFF && r == Candidate(a, i)
    ensures exists i: nat :: i <= |z| && r == [40] + a + Decimal(i) + [41]
  {
    WholeCandidate(a, i);
    hide Candidate;
  }

  lemma OccurMore(z: seq<byte>, a: seq<byte>, ps: seq<nat>, p: nat)
    requires Occur(z, a, ps) && p <= |z| && Candidate(a, |ps|) <= z[p..]
    ensures Occur(z, a, ps + [p])
  {
    hide Candidate;
    var qs := ps + [p];
    forall k | 0 <= k < |qs| ensures qs[k] <= |z| && Candidate(a, k) <= z[qs[k]..] {
    }
  }

  /** unused_string: it stops after at most |z| + 1 candidates. */
  method UnusedString(z: seq<byte>, a: seq<byte>, b: seq<byte>) returns (r: seq<byte>)
    requires |a| == 2 && |z| < 0xFFFF_FFFF
    ensures FirstUnused(z, a, b, r)
    ensures !Contains(z, r)
    ensures !Contains(z, a) ==> r == a
    ensures Contains(z, a) && !Contains(z, b) ==> r == b
    ensures Contains(z, a) && Contains(z, b) ==> exists i: nat :: i <= |z| && r == [40] + a + Decimal(i) + [41]
  {
    hide Candidate;
    var found := StrStr(z, a);
    if !found {
      return a;
    }
    found := StrStr(z, b);
    if !found {
      return b;
    }
    var i := 0;
    ghost var ps: seq<nat> := [];
    while true
      invariant i == |ps| <= |z| && Occur(z, a, ps)
      invariant forall k: nat | k < i :: Contains(z, Candidate(a, k))
      decreases |z| - i
    {
      hide Candidate, Contains, Occur;
      r := Candidate(a, i);
      found := StrStr(z, r);
      if !found {
        assert IsFirst(z, a, i);
        NumberedIs(z, a, r, i);
        return;
      }
      var p := Occurrence(z, r);
      OccurMore(z, a, ps, p);
      ps := ps + [p];
      i := i + 1;
      RoomFor(z, a, ps);
    }
  }

  lemma Occurrence(z: seq<byte>, y: seq<byte>) returns (p: nat)
    requires Contains(z, y)
    ensures p <= |z| && y <= z[p..]
  {
    p :| 0 <= p <= |z| && y <= z[p..];
  }

  lemma UnusedIsPlaceholder(z: seq<byte>, r: seq<byte>, letter: byte, digit: byte)
    requires |z| < 0xFFFF_FFFF
    requires FirstUnused(z, [BACKSLASH, letter], [BACKSLASH, ZERO, ZERO + 1, digit], r)
    ensures Placeholder(r, letter, digit)
  {
    hide Contains;
    var a: seq<byte> := [BACKSLASH, letter];
    if r != a && r != [BACKSLASH, ZERO, ZERO + 1, digit] {
      var i: nat :| i <= |z| && IsFirst(z, a, i) && r == Candidate(a, i);
      WholeCandidate(a, i);
    }
  }

  // ----- output_quoted_escaped_string -----

  predicate Special(c: byte) {
    c == QUOTE || c == LF || c == CR
  }

  function Body(z: seq<byte>, nl: seq<byte>, cr: seq<byte>): seq<byte> {
    Doubled(Subst(z, CR, cr, LF, nl), QUOTE)
  }

  lemma TailOfConcat(s: seq<byte>, t: seq<byte>)
    requires |s| > 0
    ensures (s + t)[1..] == s[1..] + t && (s + t)[0] == s[0]
  {
  }

  lemma {:induction false} DoubledConcat(s: seq<byte>, t: seq<byte>)
    ensures Doubled(s + t, QUOTE) == Doubled(s, QUOTE) + Doubled(t, QUOTE)
  {
    if |s| == 0 {
      assert s + t == t;
    } else {
      DoubledConcat(s[1..], t);
      TailOfConcat(s, t);
      DoubledStep(s, QUOTE);
      DoubledStep(s + t, QUOTE);
      hide Doubled;
      Regroup(if s[0] == QUOTE then [QUOTE, QUOTE] else [s[0]], Doubled(s[1..], QUOTE), Doubled(t, QUOTE));
    }
  }

  lemma {:induction false} BodyPlain(w: seq<byte>, rest: seq<byte>, nl: seq<byte>, cr: seq<byte>)
    requires forall k | 0 <= k < |w| :: !Special(w[k])
    ensures Body(w + rest, nl, cr) == w + Body(rest, nl, cr)
  {
    if |w| == 0 {
      assert w + rest == rest;
    } else {
      BodyPlain(w[1..], rest, nl, cr);
      assert (w + rest)[1..] == w[1..] + rest;
      DoubledConcat([w[0]], Subst(w[1..] + rest, CR, cr, LF, nl));
      assert Doubled([w[0]], QUOTE) == [w[0]];
      assert [w[0]] + w[1..] == w;
    }
  }

  lemma BodySpecial(c: byte, rest: seq<byte>, nl: seq<byte>, cr: seq<byte>)
    requires Special(c) && (c == LF ==> QUOTE !in nl) && (c == CR ==> QUOTE !in cr)
    ensures Body([c] + rest, nl, cr)
      == (if c == QUOTE then [QUOTE, QUOTE] else if c == LF then nl else cr) + Body(rest, nl, cr)
  {
    var t := Token(c, CR, cr, LF, nl);
    assert ([c] + rest)[1..] == rest;
    DoubledConcat(t, Subst(rest, CR, cr, LF, nl));
    if c == QUOTE {
      assert Doubled([QUOTE], QUOTE) == [QUOTE, QUOTE] + Doubled([], QUOTE);
    } else {
      DoubledPlain(t);
    }
  }

  /** One turn of the loop between the quotes: a run of plain text and the character that ends it. */
  method PrintRun(z: seq<byte>, nl: seq<byte>, cr: seq<byte>) returns (piece: seq<byte>, n: nat)
    requires |z| > 0 && (LF in z ==> QUOTE !in nl) && (CR in z ==> QUOTE !in cr)
    ensures 0 < n <= |z| && Body(z, nl, cr) == piece + Body(z[n..], nl, cr)
  {
    hide Body;
    var i := 0;
    while i < |z| && !Special(z[i])
      invariant i <= |z| && forall k | 0 <= k < i :: !Special(z[k])
    {
      i := i + 1;
    }
    assert z == z[..i] + z[i..];
    BodyPlain(z[..i], z[i..], nl, cr);
    if i == |z| {
      return z, |z|;
    }
    var c := z[i];
    assert z[i..] == [c] + z[i + 1..];
    BodySpecial(c, z[i + 1..], nl, cr);
    n := i + 1;
    if c == QUOTE {
      piece := z[..i + 1] + [QUOTE];
      assert piece == z[..i] + [QUOTE, QUOTE];
    } else if c == LF {
      piece := z[..i] + nl;
    } else {
      piece := z[..i] + cr;
    }
  }

  /** The loop that prints the text between the quotes. */
  method PrintBody(s: seq<byte>, nl: seq<byte>, cr: seq<byte>) returns (out: seq<byte>)
    requires (LF in s ==> QUOTE !in nl) && (CR in s ==> QUOTE !in cr)
    ensures out == Body(s, nl, cr)
  {
    hide Body;
    var z := s;
    out := [];
    while |z| > 0
      invariant (LF in z ==> QUOTE !in nl) && (CR in z ==> QUOTE !in cr)
      invariant out + Body(z, nl, cr) == Body(s, nl, cr)
      decreases |z|
    {
      var piece, n := PrintRun(z, nl, cr);
      out := out + piece;
      z := z[n..];
    }
    BodyEmpty(nl, cr);
  }

  lemma BodyEmpty(nl: seq<byte>, cr: seq<byte>)
    ensures Body([], nl, cr) == []
  {
  }

  method CountLineEnds(z: seq<byte>) returns (nNL: nat, nCR: nat)
    ensures (nNL > 0 <==> LF in z) && (nCR > 0 <==> CR in z)
  {
    nNL, nCR := 0, 0;
    for k := 0 to |z|
      invariant (nNL > 0 <==> LF in z[..k]) && (nCR > 0 <==> CR in z[..k])
    {
      assert z[..k + 1] == z[..k] + [z[k]];
      if z[k] == LF {
        nNL := nNL + 1;
      }
      if z[k] == CR {
        nCR := nCR + 1;
      }
    }
    assert z[..|z|] == z;
  }

  lemma PlainText(z: seq<byte>)
    requires forall k | 0 <= k < |z| :: !Special(z[k])
    ensures SqlText(z, [], []) == [QUOTE] + z + [QUOTE]
  {
    BodyPlain(z, [], [], []);
    BodyEmpty([], []);
    assert z + [] == z;
  }

  /** The text in full: what stands for CR and LF is named behind the literal, with the character it stands for. */
  lemma TextForms(z: seq<byte>, nl: seq<byte>, cr: seq<byte>)
    ensures SqlText(z, nl, cr)
      == (if 10 in z then Ascii("replace(") else []) + (if 13 in z then Ascii("replace(") else [])
        + ([39] + Body(z, nl, cr) + [39])
        + (if 13 in z then Ascii(",'") + cr + Ascii("',char(13))") else [])
        + (if 10 in z then Ascii(",'") + nl + Ascii("',char(10))") else [])
  {
    TextIs(z, nl, cr);
    LiteralIs(z, nl, cr);
    TailForm(cr, CR, "',char(13))");
    TailForm(nl, LF, "',char(10))");
    hide *;
  }

  lemma TailForm(y: seq<byte>, c: byte, end: string)
    requires (c == 10 && end == "',char(10))") || (c == 13 && end == "',char(13))")
    ensures forall i | 0 <= i < |end| :: end[i] < 128 as char
    ensures CallTail(y, c) == Ascii(",'") + y + Ascii(end)
  {
    TailEnd(c, end);
    TailRegrouped(y, c);
    hide Decimal, CallTail;
    assert [44, 39] == Ascii(",'");
    hide Ascii;
  }

  lemma TailEnd(c: byte, end: string)
    requires (c == 10 && end == "',char(10))") || (c == 13 && end == "',char(13))")
    ensures forall i | 0 <= i < |end| :: end[i] < 128 as char
    ensures [39, 44] + Ascii("char(") + Decimal(c) + [41, 41] == Ascii(end)
  {
    assert Decimal(1) == [49] && Decimal(c) == Decimal(1) + [48 + c % 10];
    hide Decimal;
  }

  lemma TailRegrouped(y: seq<byte>, c: byte)
    ensures CallTail(y, c) == [44, 39] + y + ([39, 44] + Ascii("char(") + Decimal(c) + [41, 41])
  {
    hide Ascii, Decimal;
  }

  /** output_quoted_escaped_string: SQL text without line ends whose value is z. */
  method OutputQuotedEscapedString(z: seq<byte>) returns (out: seq<byte>, ghost nl: seq<byte>, ghost cr: seq<byte>)
    requires 0 !in z && |z| < 0xFFFF_FFFF
    ensures Eval(out) == Some((z, [])) && out == SqlText(z, nl, cr)
    ensures LF in z ==> FirstUnused(z, [92, 110], [92, 48, 49, 50], nl)
    ensures CR in z ==> FirstUnused(z, [92, 114], [92, 48, 49, 53], cr)
    ensures LF !in out && CR !in out
  {
    hide Eval, SqlText, Contains, Placeholder, FirstUnused, Body, Literal, Ascii, CallTail;
    var i := 0;
    while i < |z| && !Special(z[i])
      invariant i <= |z| && forall k | 0 <= k < i :: !Special(z[k])
    {
      i := i + 1;
    }
    if i == |z| {
      out, nl, cr := [QUOTE] + z + [QUOTE], [], [];
      PlainText(z);
      TextBack(z, [], []);
      return;
    }
    var nNL, nCR := CountLineEnds(z);
    var zNL, zCR: seq<byte> := [], [];
    out := [];
    if nNL > 0 {
      out := out + Ascii("replace(");
      zNL := UnusedString(z, [BACKSLASH, LETTER_N], [BACKSLASH, ZERO, ZERO + 1, ZERO + 2]);
      UnusedIsPlaceholder(z, zNL, LETTER_N, ZERO + 2);
      NoQuotes(zNL, LETTER_N, ZERO + 2);
    }
    if nCR > 0 {
      out := out + Ascii("replace(");
      zCR := UnusedString(z, [BACKSLASH, LETTER_R], [BACKSLASH, ZERO, ZERO + 1, ZERO + 5]);
      UnusedIsPlaceholder(z, zCR, LETTER_R, ZERO + 5);
      NoQuotes(zCR, LETTER_R, ZERO + 5);
    }
    var body := PrintBody(z, zNL, zCR);
    out := out + ([QUOTE] + body + [QUOTE]);
    LiteralIs(z, zNL, zCR);
    if nCR > 0 {
      out := out + CallTail(zCR, CR);
    }
    if nNL > 0 {
      out := out + CallTail(zNL, LF);
    }
    TextIs(z, zNL, zCR);
    nl, cr := zNL, zCR;
    assert out == SqlText(z, zNL, zCR);
    TextBack(z, zNL, zCR);
    TextHasNoLineEnds(z, zNL, zCR);
  }

  lemma LiteralIs(z: seq<byte>, nl: seq<byte>, cr: seq<byte>)
    ensures Literal(z, nl, cr) == [QUOTE] + Body(z, nl, cr) + [QUOTE]
  {
  }

  lemma TextIs(z: seq<byte>, nl: seq<byte>, cr: seq<byte>)
    ensures SqlText(z, nl, cr)
      == (if LF in z then Ascii("replace(") else []) + (if CR in z then Ascii("replace(") else []) + Literal(z, nl, cr)
        + (if CR in z then CallTail(cr, CR) else []) + (if LF in z then CallTail(nl, LF) else [])
  {
    hide Literal, Ascii, CallTail;
    var r, lit, t1, t2 := Ascii("replace("), Literal(z, nl, cr), CallTail(cr, CR), CallTail(nl, LF);
    if CR in z && LF in z {
      assert r + (r + lit + t1) + t2 == r + r + lit + t1 + t2;
    } else if CR in z {
      assert [] + r + lit + t1 + [] == r + lit + t1;
    } else if LF in z {
      assert r + [] + lit + [] + t2 == r + lit + t2;
    } else {
      assert [] + [] + lit + [] + [] == lit;
    }
  }

  ghost predicate OneLine(s: seq<byte>) {
    LF !in s && CR !in s
  }

  lemma {:induction false} BodyOneLine(z: seq<byte>, nl: seq<byte>, cr: seq<byte>)
    requires (LF in z ==> OneLine(nl) && QUOTE !in nl) && (CR in z ==> OneLine(cr) && QUOTE !in cr)
    ensures OneLine(Body(z, nl, cr))
  {
    if |z| > 0 {
      hide Body;
      BodyOneLine(z[1..], nl, cr);
      assert [z[0]] + z[1..] == z;
      if Special(z[0]) {
        BodySpecial(z[0], z[1..], nl, cr);
      } else {
        BodyPlain([z[0]], z[1..], nl, cr);
      }
    } else {
      BodyEmpty(nl, cr);
    }
  }

  lemma CallOneLine(s: seq<byte>, y: seq<byte>, c: byte)
    requires OneLine(s) && OneLine(y)
    ensures OneLine(Call(s, y, c))
  {
  }

  lemma TextHasNoLineEnds(z: seq<byte>, nl: seq<byte>, cr: seq<byte>)
    requires (LF in z ==> OneLine(nl) && QUOTE !in nl) && (CR in z ==> OneLine(cr) && QUOTE !in cr)
    ensures OneLine(SqlText(z, nl, cr))
  {
    BodyOneLine(z, nl, cr);
    assert OneLine(Literal(z, nl, cr));
    hide OneLine, Call, Literal, Body;
    var lit := Literal(z, nl, cr);
    if CR in z {
      CallOneLine(lit, cr, CR);
    }
    if LF in z {
      CallOneLine(if CR in z then Call(lit, cr, CR) else lit, nl, LF);
    }
  }
}
