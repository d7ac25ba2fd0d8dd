/**
 String literals that hide newlines from line-ending translation, as .dump prints them, and the SQL evaluator
 that has to give the original string back.
 */
module SqlLiteral {
  import opened Bytes
  import opened Options

  const LF: byte := 10
  const CR: byte := 13
  const QUOTE: byte := 39
  const LPAR: byte := 40
  const RPAR: byte := 41
  const COMMA: byte := 44
  const ZERO: byte := 48
  const BACKSLASH: byte := 92
  const LETTER_N: byte := 110
  const LETTER_R: byte := 114

  function Ascii(s: string): (b: seq<byte>)
    requires forall i | 0 <= i < |s| :: s[i] < 128 as char
    ensures |b| == |s| && forall i | 0 <= i < |s| :: b[i] == s[i] as int
  {
    seq(|s|, i requires 0 <= i < |s| => s[i] as int)
  }

  // ----- SQL: replace(), char(), string literals -----

  /** replace(x, y, w): leftmost occurrences that do not overlap. */
  function Replace(x: seq<byte>, y: seq<byte>, w: seq<byte>): seq<byte> {
    if |y| == 0 || |x| == 0 then x
    else if y <= x then w + Replace(x[|y|..], y, w)
    else [x[0]] + Replace(x[1..], y, w)
  }

  /** The body of a literal after its opening quote, and what follows the closing one. */
  function Lex(s: seq<byte>): (r: Option<(seq<byte>, seq<byte>)>)
    ensures r.Some? ==> |r.value.1| < |s|
  {
    if |s| == 0 then None
    else if s[0] != QUOTE then
      match Lex(s[1..])
      case None => None
      case Some((body, rest)) => Some(([s[0]] + body, rest))
    else if |s| > 1 && s[1] == QUOTE then
      match Lex(s[2..])
      case None => None
      case Some((body, rest)) => Some(([QUOTE] + body, rest))
    else Some(([], s[1..]))
  }

  /** char(<n>) for an ASCII code. */
  function EvalChar(s: seq<byte>): (r: Option<(seq<byte>, seq<byte>)>)
    ensures r.Some? ==> |r.value.1| < |s|
  {
    var k := DigitRun(s);
    var n := DecimalValue(s[..k]);
    if 0 < k < |s| && s[k] == RPAR && 0 < n < 128 then Some(([n], s[k + 1..])) else None
  }

  function Expect(c: byte, s: seq<byte>): (r: Option<seq<byte>>)
    ensures r.Some? ==> |r.value| < |s|
  {
    if |s| > 0 && s[0] == c then Some(s[1..]) else None
  }

  /** The value of the expression s starts with, and what follows it. */
  function Eval(s: seq<byte>): (r: Option<(seq<byte>, seq<byte>)>)
    ensures r.Some? ==> |r.value.1| < |s|
    decreases |s|
  {
    if |s| > 0 && s[0] == QUOTE then Lex(s[1..])
    else if Ascii("char(") <= s then EvalChar(s[5..])
    else if Ascii("replace(") <= s then
      match Eval(s[8..])
      case None => None
      case Some((x, s1)) =>
        match Expect(COMMA, s1)
        case None => None
        case Some(s2) =>
          match Eval(s2)
          case None => None
          case Some((y, s3)) =>
            match Expect(COMMA, s3)
            case None => None
            case Some(s4) =>
              match Eval(s4)
              case None => None
              case Some((w, s5)) =>
                match Expect(RPAR, s5)
                case None => None
                case Some(s6) => Some((Replace(x, y, w), s6))
    else None
  }

  // ----- the printer -----

  ghost predicate Contains(z: seq<byte>, y: seq<byte>) {
    exists i | 0 <= i <= |z| :: y <= z[i..]
  }

  /** sqlite3_snprintf(20, zBuf, "(%s%u)", zA, i) */
  function Candidate(a: seq<byte>, i: nat): seq<byte> {
    var text := [LPAR] + a + Decimal(i) + [RPAR];
    if |text| > 19 then text[..19] else text
  }

  /** The characters a and b written as ta and tb. */
  function Subst(z: seq<byte>, a: byte, ta: seq<byte>, b: byte, tb: seq<byte>): seq<byte> {
    if |z| == 0 then [] else Token(z[0], a, ta, b, tb) + Subst(z[1..], a, ta, b, tb)
  }

  function Token(c: byte, a: byte, ta: seq<byte>, b: byte, tb: seq<byte>): seq<byte> {
    if c == a then ta else if c == b then tb else [c]
  }

  /** ,'<y>',char(<c>)) */
  function CallTail(y: seq<byte>, c: byte): seq<byte> {
    [COMMA, QUOTE] + y + [QUOTE, COMMA] + Ascii("char(") + Decimal(c) + [RPAR, RPAR]
  }

  /** replace(<s>,'<y>',char(<c>)) */
  function Call(s: seq<byte>, y: seq<byte>, c: byte): seq<byte> {
    Ascii("replace(") + s + CallTail(y, c)
  }

  /** The characters of z between quotes, with the placeholders nl and cr. */
  function Literal(z: seq<byte>, nl: seq<byte>, cr: seq<byte>): seq<byte> {
    [QUOTE] + Doubled(Subst(z, CR, cr, LF, nl), QUOTE) + [QUOTE]
  }

  /** Everything printed for z. */
  function SqlText(z: seq<byte>, nl: seq<byte>, cr: seq<byte>): seq<byte> {
    var inner := if CR in z then Call(Literal(z, nl, cr), cr, CR) else Literal(z, nl, cr);
    if LF in z then Call(inner, nl, LF) else inner
  }

  // ----- replace() finds the placeholders and nothing else -----

  ghost predicate Differ(a: seq<byte>, b: seq<byte>) {
    exists k | 0 <= k < |a| && k < |b| :: a[k] != b[k]
  }

  /** No occurrence of q can start in plain text and run into the placeholder p. */
  ghost predicate NoStraddle(q: seq<byte>, p: seq<byte>) {
    forall j | 1 <= j < |q| :: Differ(q[j..], p)
  }

  /** No occurrence of q can start inside p, at its start included. */
  ghost predicate NoInside(q: seq<byte>, p: seq<byte>) {
    forall k | 0 <= k < |p| :: Differ(q, p[k..])
  }

  lemma DifferNoMatch(q: seq<byte>, t: seq<byte>, rest: seq<byte>)
    requires Differ(q, t)
    ensures !(q <= t + rest)
  {
  }

  /** The tail of a placeholder found in the printed text is a piece of the original. */
  lemma {:induction false} MatchIsOriginal(
    z: seq<byte>, a: byte, ta: seq<byte>, b: byte, tb: seq<byte>, j: nat)
    requires 1 <= j <= |ta| && NoStraddle(ta, ta) && NoStraddle(ta, tb)
    requires ta[j..] <= Subst(z, a, ta, b, tb)
    ensures ta[j..] <= z
    decreases |z|
  {
    if j < |ta| {
      var t, rest := Token(z[0], a, ta, b, tb), Subst(z[1..], a, ta, b, tb);
      if z[0] == a || z[0] == b {
        DifferNoMatch(ta[j..], t, rest);
      } else {
        assert ta[j..][0] == z[0] && ta[j..][1..] == ta[j + 1..];
        assert ([z[0]] + rest)[1..] == rest;
        assert ta[j + 1..] <= rest;
        MatchIsOriginal(z[1..], a, ta, b, tb, j + 1);
        assert [ta[j]] + ta[j + 1..] <= [z[0]] + z[1..] == z;
      }
    }
  }

  lemma MatchHere(z: seq<byte>, a: byte, ta: seq<byte>, b: byte, tb: seq<byte>)
    requires |z| > 0 && z[0] != a && z[0] != b && |ta| > 0
    requires NoStraddle(ta, ta) && NoStraddle(ta, tb)
    requires ta <= Subst(z, a, ta, b, tb)
    ensures ta <= z
  {
    var rest := Subst(z[1..], a, ta, b, tb);
    assert ([z[0]] + rest)[1..] == rest && ta[1..] <= rest;
    MatchIsOriginal(z[1..], a, ta, b, tb, 1);
    assert [ta[0]] + ta[1..] <= [z[0]] + z[1..] == z;
  }

  lemma NoMatchHere(z: seq<byte>, a: byte, ta: seq<byte>, b: byte, tb: seq<byte>)
    requires |z| > 0 && z[0] != a && z[0] != b && |ta| > 0 && !Contains(z, ta)
    requires NoStraddle(ta, ta) && NoStraddle(ta, tb)
    ensures !(ta <= Subst(z, a, ta, b, tb))
  {
    assert z[0..] == z;
    if ta <= Subst(z, a, ta, b, tb) {
      MatchHere(z, a, ta, b, tb);
    }
  }

  lemma {:induction false} ReplaceSkips(t: seq<byte>, rest: seq<byte>, q: seq<byte>, w: seq<byte>)
    requires NoInside(q, t)
    ensures Replace(t + rest, q, w) == t + Replace(rest, q, w)
  {
    if |t| == 0 {
      assert t + rest == rest;
    } else {
      assert t[0..] == t;
      DifferNoMatch(q, t, rest);
      assert (t + rest)[1..] == t[1..] + rest;
      forall k | 0 <= k < |t[1..]| ensures Differ(q, t[1..][k..]) {
        assert t[1..][k..] == t[k + 1..];
      }
      ReplaceSkips(t[1..], rest, q, w);
    }
  }

  lemma ContainsTail(z: seq<byte>, y: seq<byte>)
    requires |z| > 0 && !Contains(z, y)
    ensures !Contains(z[1..], y)
  {
  }

  /** Replacing the placeholder of a by a itself restores exactly the a's. */
  lemma {:induction false} ReplaceBack(z: seq<byte>, a: byte, ta: seq<byte>, b: byte, tb: seq<byte>)
    requires a != b && |ta| > 0 && !Contains(z, ta)
    requires NoStraddle(ta, ta) && NoStraddle(ta, tb) && NoInside(ta, tb)
    ensures Replace(Subst(z, a, ta, b, tb), ta, [a]) == Subst(z, a, [a], b, tb)
    decreases |z|
  {
    hide NoStraddle, NoInside, Contains;
    if |z| > 0 {
      var rest := Subst(z[1..], a, ta, b, tb);
      ContainsTail(z, ta);
      ReplaceBack(z[1..], a, ta, b, tb);
      if z[0] == a {
        assert ta <= ta + rest && (ta + rest)[|ta|..] == rest;
      } else if z[0] == b {
        ReplaceSkips(tb, rest, ta, [a]);
      } else {
        NoMatchHere(z, a, ta, b, tb);
        assert ([z[0]] + rest)[1..] == rest;
      }
    }
  }

  lemma {:induction false} SubstSwap(z: seq<byte>, a: byte, ta: seq<byte>, b: byte, tb: seq<byte>)
    requires a != b
    ensures Subst(z, a, ta, b, tb) == Subst(z, b, tb, a, ta)
  {
    if |z| > 0 {
      SubstSwap(z[1..], a, ta, b, tb);
    }
  }

  lemma {:induction false} SubstSelf(z: seq<byte>, a: byte, ta: seq<byte>, b: byte, tb: seq<byte>)
    requires (a in z ==> ta == [a]) && (b in z ==> tb == [b])
    ensures Subst(z, a, ta, b, tb) == z
  {
    if |z| > 0 {
      SubstSelf(z[1..], a, ta, b, tb);
      assert [z[0]] + z[1..] == z;
    }
  }

  // ----- the placeholders in use -----

  /** What unused_string can return for "\\<letter>" and "\\01<digit>". */
  ghost predicate Placeholder(p: seq<byte>, letter: byte, digit: byte) {
    || p == [BACKSLASH, letter]
    || p == [BACKSLASH, ZERO, ZERO + 1, digit]
    || (exists u: nat {:trigger Decimal(u)} :: p == [LPAR] + [BACKSLASH, letter] + Decimal(u) + [RPAR])
  }

  predicate OneOfTwo(letter: byte, digit: byte) {
    (letter == LETTER_N && digit == ZERO + 2) || (letter == LETTER_R && digit == ZERO + 5)
  }

  /** What the clash arguments need to know of a placeholder. */
  ghost predicate Shape(p: seq<byte>, letter: byte, digit: byte) {
    && |p| >= 2 && (p[0] == BACKSLASH || p[0] == LPAR)
    && (p[0] == BACKSLASH ==> |p| == 2 || (|p| == 4 && p[3] == digit))
    && (p[0] == BACKSLASH ==> p[1] == if |p| == 2 then letter else ZERO)
    && (p[0] == LPAR ==> |p| >= 4 && p[1] == BACKSLASH && p[2] == letter)
    && (forall i | 1 <= i < |p| :: p[i] != LPAR && p[i] != QUOTE && p[i] != CR && p[i] != LF && p[i] != 0)
    && (forall i | (if p[0] == LPAR then 2 else 1) <= i < |p| :: p[i] != BACKSLASH)
  }

  lemma PlaceholderShape(p: seq<byte>, letter: byte, digit: byte)
    requires OneOfTwo(letter, digit) && Placeholder(p, letter, digit)
    ensures Shape(p, letter, digit)
  {
  }

  /** Placeholders overlap neither themselves nor each other. */
  lemma NoStraddling(q: seq<byte>, p: seq<byte>, lq: byte, dq: byte, lp: byte, dp: byte)
    requires OneOfTwo(lq, dq) && OneOfTwo(lp, dp) && Shape(q, lq, dq) && Shape(p, lp, dp)
    requires q == p || lq != lp
    ensures NoStraddle(q, p)
  {
  }

  lemma NotInside(q: seq<byte>, p: seq<byte>, lq: byte, dq: byte, lp: byte, dp: byte)
    requires OneOfTwo(lq, dq) && OneOfTwo(lp, dp) && Shape(q, lq, dq) && Shape(p, lp, dp) && lq != lp
    ensures NoInside(q, p)
  {
  }

  lemma PlainCharacter(q: seq<byte>, lq: byte, dq: byte, c: byte)
    requires OneOfTwo(lq, dq) && Shape(q, lq, dq) && (c == LF || c == CR)
    ensures NoStraddle(q, [c]) && NoInside(q, [c])
  {
    forall j | 1 <= j < |q| ensures Differ(q[j..], [c]) {
      assert q[j..][0] != [c][0];
    }
    assert [c][0..] == [c] && q[0] != [c][0];
  }

  /** The two nested replace() calls undo the substitution. */
  lemma BothReplaced(z: seq<byte>, nl: seq<byte>, cr: seq<byte>)
    requires LF in z ==> Placeholder(nl, LETTER_N, ZERO + 2) && !Contains(z, nl)
    requires CR in z ==> Placeholder(cr, LETTER_R, ZERO + 5) && !Contains(z, cr)
    ensures var t := Subst(z, CR, cr, LF, nl);
      var t1 := if CR in z then Replace(t, cr, [CR]) else t;
      (if LF in z then Replace(t1, nl, [LF]) else t1) == z
  {
    hide Shape, NoStraddle, NoInside, Contains, Placeholder, Replace;
    var cr' := if CR in z then cr else [CR];
    var nl' := if LF in z then nl else [LF];
    SubstUnused(z, cr, nl, cr', nl');
    if CR in z {
      PlaceholderShape(cr, LETTER_R, ZERO + 5);
      NoStraddling(cr, cr, LETTER_R, ZERO + 5, LETTER_R, ZERO + 5);
      if LF in z {
        PlaceholderShape(nl, LETTER_N, ZERO + 2);
        NoStraddling(cr, nl, LETTER_R, ZERO + 5, LETTER_N, ZERO + 2);
        NotInside(cr, nl, LETTER_R, ZERO + 5, LETTER_N, ZERO + 2);
      } else {
        PlainCharacter(cr, LETTER_R, ZERO + 5, LF);
      }
      NotEmpty(cr, LETTER_R, ZERO + 5);
      ReplaceBack(z, CR, cr, LF, nl');
    }
    SubstSwap(z, CR, [CR], LF, nl');
    if LF in z {
      PlaceholderShape(nl, LETTER_N, ZERO + 2);
      NoStraddling(nl, nl, LETTER_N, ZERO + 2, LETTER_N, ZERO + 2);
      PlainCharacter(nl, LETTER_N, ZERO + 2, CR);
      NotEmpty(nl, LETTER_N, ZERO + 2);
      ReplaceBack(z, LF, nl, CR, [CR]);
    }
    SubstSelf(z, LF, [LF], CR, [CR]);
  }

  lemma NotEmpty(p: seq<byte>, letter: byte, digit: byte)
    requires Placeholder(p, letter, digit)
    ensures |p| > 0
  {
  }

  /** A placeholder for a character that z does not have plays no part. */
  lemma {:induction false} SubstUnused(z: seq<byte>, cr: seq<byte>, nl: seq<byte>, cr': seq<byte>, nl': seq<byte>)
    requires (CR in z ==> cr == cr') && (LF in z ==> nl == nl')
    ensures Subst(z, CR, cr, LF, nl) == Subst(z, CR, cr', LF, nl')
  {
    if |z| > 0 {
      SubstUnused(z[1..], cr, nl, cr', nl');
    }
  }
}
