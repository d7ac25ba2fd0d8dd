/** Every way of writing the arguments of a dot-command, and what each comes to. */
module DotArguments {
  import opened Bytes
  import opened DotCommand

  // ----- characters and escapes -----

  /** A character, a backslash and a letter, a backslash and octal digits, or a backslash and something to keep. */
  datatype Piece = Plain(c: byte) | Letter(c: byte) | Code(digits: seq<byte>) | Kept(c: byte)

  function PieceText(p: Piece): (t: seq<byte>)
    ensures p.Code? || |t| > 0
  {
    match p
    case Plain(c) => [c]
    case Letter(c) => [92, c]
    case Code(digits) => [92] + digits
    case Kept(c) => [92, c]
  }

  /** The control characters of C: a, b, t, n, v, f and r. */
  function Control(c: byte): byte {
    match c
    case 97 => 7
    case 98 => 8
    case 116 => 9
    case 110 => 10
    case 118 => 11
    case 102 => 12
    case _ => 13
  }

  predicate Controls(c: byte) {
    c == 97 || c == 98 || c == 116 || c == 110 || c == 118 || c == 102 || c == 114
  }

  predicate OctalDigit(c: byte) {
    48 <= c <= 55
  }

  function OctalValue(digits: seq<byte>): int
  {
    if |digits| == 0 then 0 else 8 * OctalValue(digits[..|digits| - 1]) + (digits[|digits| - 1] as int - 48)
  }

  /** A lone backslash is plain only where nothing follows. */
  predicate PieceOk(p: Piece) {
    match p
    case Plain(c) => true
    case Letter(c) => Controls(c)
    case Code(digits) => 1 <= |digits| <= 3 && forall i | 0 <= i < |digits| :: OctalDigit(digits[i])
    case Kept(c) => !Controls(c) && !OctalDigit(c)
  }

  /** The byte a piece stands for; codes are taken modulo 256. */
  function PieceValue(p: Piece): byte
    requires PieceOk(p)
  {
    match p
    case Plain(c) => c
    case Letter(c) => Control(c)
    case Code(digits) => OctalValue(digits) % 256
    case Kept(c) => c
  }

  function Text(ps: seq<Piece>): seq<byte> {
    if |ps| == 0 then [] else PieceText(ps[0]) + Text(ps[1..])
  }

  /** Short codes are not followed by a digit, plain backslashes by nothing. */
  predicate Follows(p: Piece, rest: seq<byte>) {
    && (p.Code? && |p.digits| < 3 && |rest| > 0 ==> !OctalDigit(rest[0]))
    && (p == Plain(92) ==> rest == [])
  }

  predicate PiecesOk(ps: seq<Piece>)
    decreases |ps|
  {
    |ps| > 0 ==> PieceOk(ps[0]) && Follows(ps[0], Text(ps[1..])) && PiecesOk(ps[1..])
  }

  function Values(ps: seq<Piece>): (v: seq<byte>)
    requires PiecesOk(ps)
    ensures |v| == |ps|
  {
    if |ps| == 0 then [] else [PieceValue(ps[0])] + Values(ps[1..])
  }

  lemma PieceResolved(p: Piece, rest: seq<byte>)
    requires PieceOk(p) && Follows(p, rest)
    ensures |PieceText(p)| > 0
    ensures Length(PieceText(p) + rest) == |PieceText(p)| && Denotes(PieceText(p) + rest) == PieceValue(p)
  {
    var s := PieceText(p) + rest;
    if p.Code? {
      CodeResolved(p.digits, rest);
    }
  }

  lemma OneDigit(s: seq<byte>)
    requires |s| > 1 && s[0] == 92 && OctalDigit(s[1]) && (|s| > 2 ==> !OctalDigit(s[2]))
    ensures Length(s) == 2 && Denotes(s) as int == s[1] as int - 48
  {
  }

  lemma TwoDigits(s: seq<byte>)
    requires |s| > 2 && s[0] == 92 && OctalDigit(s[1]) && OctalDigit(s[2]) && (|s| > 3 ==> !OctalDigit(s[3]))
    ensures Length(s) == 3 && Denotes(s) as int == 8 * (s[1] as int - 48) + (s[2] as int - 48)
  {
  }

  lemma ThreeDigits(s: seq<byte>)
    requires |s| > 3 && s[0] == 92 && OctalDigit(s[1]) && OctalDigit(s[2]) && OctalDigit(s[3])
    ensures Length(s) == 4
    ensures Denotes(s) as int == (64 * (s[1] as int - 48) + 8 * (s[2] as int - 48) + (s[3] as int - 48)) % 256
  {
  }

  lemma CodeResolved(digits: seq<byte>, rest: seq<byte>)
    requires PieceOk(Code(digits)) && Follows(Code(digits), rest)
    ensures var s := [92] + digits + rest;
      Length(s) == 1 + |digits| && Denotes(s) == OctalValue(digits) % 256
  {
    hide Length, Denotes, OctalValue;
    var s := [92] + digits + rest;
    OctalShort(digits);
    assert s[1] == digits[0];
    if |digits| == 1 {
      assert |rest| > 0 ==> s[2] == rest[0];
      OneDigit(s);
    } else if |digits| == 2 {
      assert s[2] == digits[1] && (|rest| > 0 ==> s[3] == rest[0]);
      TwoDigits(s);
    } else {
      assert s[2] == digits[1] && s[3] == digits[2];
      ThreeDigits(s);
    }
  }

  lemma OctalShort(digits: seq<byte>)
    requires 1 <= |digits| <= 3
    ensures OctalValue(digits) == if |digits| == 1 then digits[0] as int - 48
      else if |digits| == 2 then 8 * (digits[0] as int - 48) + (digits[1] as int - 48)
      else 64 * (digits[0] as int - 48) + 8 * (digits[1] as int - 48) + (digits[2] as int - 48)
  {
    if |digits| > 1 {
      OctalShort(digits[..|digits| - 1]);
    } else {
      assert digits[..0] == [];
    }
  }

  /** Resolving backslashes gives the values. */
  lemma {:induction false} ResolvePieces(ps: seq<Piece>)
    requires PiecesOk(ps)
    ensures Resolve(Text(ps)) == Values(ps)
  {
    hide Length, Denotes, PieceText, PieceValue, PieceOk, Follows;
    if |ps| > 0 {
      var t, rest := PieceText(ps[0]), Text(ps[1..]);
      PieceResolved(ps[0], rest);
      assert (t + rest)[|t|..] == rest;
      ResolvePieces(ps[1..]);
    }
  }

  /** What the shell prints for a byte: itself, a letter behind a backslash, or exactly three octal digits. */
  lemma EscapeForms(c: byte)
    ensures 32 <= c <= 126 && c != 34 && c != 92 ==> Escape(c) == [c]
    ensures c == 34 || c == 92 ==> Escape(c) == [92, c]
    ensures c == 9 ==> Escape(c) == [92, 116]
    ensures c == 10 ==> Escape(c) == [92, 110]
    ensures c == 13 ==> Escape(c) == [92, 114]
    ensures (c < 32 && c != 9 && c != 10 && c != 13) || c > 126 ==>
      exists a: byte, b: byte, d: byte | OctalDigit(a) && OctalDigit(b) && OctalDigit(d) ::
        Escape(c) == [92, a, b, d] && 64 * (a - 48) + 8 * (b - 48) + (d - 48) == c
  {
    assert Escape(c) == [92, 48 + c / 64, 48 + c / 8 % 8, 48 + c % 8] || 32 <= c <= 126 || c == 9 || c == 10 || c == 13;
  }

  // ----- arguments -----

  /** C text in double quotes, text in single quotes, or a bare word; closed says whether the quote is closed. */
  datatype Written = Double(ps: seq<Piece>, closed: bool) | Single(s: seq<byte>, closed: bool) | Bare(ps: seq<Piece>)

  /** Inside double quotes neither quotes nor backslashes are plain. */
  predicate InDouble(ps: seq<Piece>) {
    forall i | 0 <= i < |ps| :: ps[i] != Plain(34) && ps[i] != Plain(92)
  }

  predicate WrittenOk(w: Written) {
    match w
    case Double(ps, _) => PiecesOk(ps) && InDouble(ps)
    case Single(s, _) => 39 !in s
    case Bare(ps) =>
      && PiecesOk(ps) && |Text(ps)| > 0 && Text(ps)[0] != 34 && Text(ps)[0] != 39
      && forall i | 0 <= i < |Text(ps)| :: !IsSpace(Text(ps)[i])
  }

  function ArgumentText(w: Written): seq<byte> {
    match w
    case Double(ps, closed) => [34] + (Text(ps) + if closed then [34] else [])
    case Single(s, closed) => [39] + (s + if closed then [39] else [])
    case Bare(ps) => Text(ps)
  }

  /** In single quotes backslashes are kept; elsewhere they are resolved. */
  function ArgumentValue(w: Written): seq<byte>
    requires WrittenOk(w)
  {
    match w
    case Double(ps, _) => Values(ps)
    case Single(s, _) => s
    case Bare(ps) => Values(ps)
  }

  /** What may stand behind an argument. */
  predicate Closes(w: Written, rest: seq<byte>) {
    match w
    case Double(_, closed) => closed || rest == []
    case Single(_, closed) => closed || rest == []
    case Bare(_) => rest == [] || IsSpace(rest[0])
  }

  lemma PieceQuoted(p: Piece, more: seq<byte>)
    requires PieceOk(p) && p != Plain(34) && p != Plain(92)
    ensures Quoted(PieceText(p) + more, DQUOTE) == |PieceText(p)| + Quoted(more, DQUOTE)
  {
    var t := PieceText(p) + more;
    match p
    case Plain(c) => assert t[1..] == more;
    case Letter(c) => assert t[2..] == more;
    case Kept(c) => assert t[2..] == more;
    case Code(digits) => CodeQuoted(digits, more);
  }

  lemma CodeQuoted(digits: seq<byte>, more: seq<byte>)
    requires PieceOk(Code(digits))
    ensures Quoted([92] + digits + more, DQUOTE) == 1 + |digits| + Quoted(more, DQUOTE)
  {
    var t := [92] + digits + more;
    DigitsQuoted(digits[1..], more);
    assert t[2..] == digits[1..] + more;
  }

  lemma {:induction false} DigitsQuoted(digits: seq<byte>, more: seq<byte>)
    requires forall i | 0 <= i < |digits| :: OctalDigit(digits[i])
    ensures Quoted(digits + more, DQUOTE) == |digits| + Quoted(more, DQUOTE)
  {
    if |digits| == 0 {
      assert digits + more == more;
    } else {
      assert (digits + more)[1..] == digits[1..] + more;
      DigitsQuoted(digits[1..], more);
    }
  }

  lemma {:induction false} PiecesQuoted(ps: seq<Piece>, more: seq<byte>)
    requires PiecesOk(ps) && InDouble(ps) && (|more| > 0 ==> more[0] == 34)
    ensures Quoted(Text(ps) + more, DQUOTE) == |Text(ps)|
  {
    hide PieceOk, Follows, PieceText;
    if |ps| == 0 {
      assert Text(ps) + more == more;
    } else {
      hide Quoted;
      assert Text(ps) + more == PieceText(ps[0]) + (Text(ps[1..]) + more);
      PieceQuoted(ps[0], Text(ps[1..]) + more);
      PiecesQuoted(ps[1..], more);
    }
  }

  lemma {:induction false} SingleQuoted(s: seq<byte>, more: seq<byte>)
    requires 39 !in s && (|more| > 0 ==> more[0] == 39)
    ensures Quoted(s + more, SQUOTE) == |s|
  {
    if |s| == 0 {
      assert s + more == more;
    } else {
      assert (s + more)[1..] == s[1..] + more;
      SingleQuoted(s[1..], more);
    }
  }

  lemma {:induction false} WordEnds(s: seq<byte>, more: seq<byte>)
    requires (forall i | 0 <= i < |s| :: !IsSpace(s[i])) && (|more| > 0 ==> IsSpace(more[0]))
    ensures Word(s + more) == |s|
  {
    if |s| == 0 {
      assert s + more == more;
    } else {
      assert (s + more)[1..] == s[1..] + more;
      WordEnds(s[1..], more);
    }
  }

  /** What First makes of a quoted argument: content, perhaps the closing quote, and what follows. */
  lemma FirstInQuotes(delim: byte, content: seq<byte>, closed: bool, rest: seq<byte>)
    requires delim == 34 || delim == 39
    requires Quoted(content + ((if closed then [delim] else []) + rest), delim) == |content|
    requires closed || rest == []
    ensures var t := [delim] + (content + if closed then [delim] else []) + rest;
      && First(t).value == (if delim == 34 then Resolve(content) else content)
      && (if First(t).to < |t| then t[First(t).to + 1..] else []) == rest
  {
    hide Quoted, Word, Resolve;
    var t := [delim] + (content + if closed then [delim] else []) + rest;
    assert t[1..] == content + ((if closed then [delim] else []) + rest);
    assert t[1..1 + |content|] == content;
    if closed {
      assert t[|content| + 2..] == rest;
    }
  }

  lemma FirstBare(text: seq<byte>, rest: seq<byte>)
    requires |text| > 0 && text[0] != 34 && text[0] != 39 && forall i | 0 <= i < |text| :: !IsSpace(text[i])
    requires rest == [] || IsSpace(rest[0])
    ensures var t := text + rest;
      && !IsSpace(t[0]) && First(t).value == Resolve(text)
      && (if First(t).to < |t| then t[First(t).to + 1..] else []) == if |rest| > 0 then rest[1..] else rest
  {
    WordEnds(text, rest);
    hide Word, Resolve, Quoted, IsSpace;
    var t := text + rest;
    assert t[0] == text[0] && t[..|text|] == text;
    if |rest| > 0 {
      assert t[|text| + 1..] == rest[1..];
    }
  }

  /** The first argument of a text, and what is left behind it: for a word, less the space that ends it. */
  lemma FirstWritten(w: Written, rest: seq<byte>)
    requires WrittenOk(w) && Closes(w, rest)
    ensures var t := ArgumentText(w) + rest;
      |t| > 0 && !IsSpace(t[0])
      && First(t).value == ArgumentValue(w)
      && (if First(t).to < |t| then t[First(t).to + 1..] else [])
        == if w.Bare? && |rest| > 0 then rest[1..] else rest
  {
    hide First, Quoted, Word, Resolve, PiecesOk, Text, Values, InDouble;
    match w
    case Double(ps, closed) =>
      PiecesQuoted(ps, (if closed then [34] else []) + rest);
      FirstInQuotes(34, Text(ps), closed, rest);
      ResolvePieces(ps);
    case Single(s, closed) =>
      SingleQuoted(s, (if closed then [39] else []) + rest);
      FirstInQuotes(39, s, closed, rest);
    case Bare(ps) =>
      FirstBare(Text(ps), rest);
      ResolvePieces(ps);
  }

  // ----- lines -----

  /** Arguments, each behind the blanks that set it apart. */
  datatype Item = Item(gap: seq<byte>, w: Written)

  function LineText(items: seq<Item>, end: seq<byte>): seq<byte> {
    if |items| == 0 then end else items[0].gap + (ArgumentText(items[0].w) + LineText(items[1..], end))
  }

  /** Blanks between arguments, at least one behind a word; an open quote only at the very end. */
  predicate LineOk(items: seq<Item>, end: seq<byte>)
    decreases |items|
  {
    if |items| == 0 then Blank(end)
    else
      && Blank(items[0].gap) && WrittenOk(items[0].w) && LineOk(items[1..], end)
      && Closes(items[0].w, LineText(items[1..], end))
  }

  function LineValues(items: seq<Item>): seq<seq<byte>>
    requires forall i | 0 <= i < |items| :: WrittenOk(items[i].w)
  {
    if |items| == 0 then [] else [ArgumentValue(items[0].w)] + LineValues(items[1..])
  }

  lemma {:induction false} AllWritten(items: seq<Item>, end: seq<byte>)
    requires LineOk(items, end)
    ensures forall i | 0 <= i < |items| :: WrittenOk(items[i].w)
  {
    hide WrittenOk, Blank, Closes;
    if |items| > 0 {
      AllWritten(items[1..], end);
      assert forall i | 1 <= i < |items| :: items[i] == items[1..][i - 1];
    }
  }

  lemma {:induction false} OnlyBlanks(s: seq<byte>)
    requires Blank(s)
    ensures Spaces(s) == |s|
  {
    if |s| > 0 {
      OnlyBlanks(s[1..]);
    }
  }

  /** A blank more in front makes no difference. */
  lemma ArgumentsAfterBlank(s: seq<byte>, room: nat)
    requires |s| > 0 && IsSpace(s[0])
    ensures Arguments(s, room) == Arguments(s[1..], room)
  {
    hide First;
    assert s[Spaces(s)..] == s[1..][Spaces(s[1..])..];
  }

  lemma ArgumentsTaken(gap: seq<byte>, w: Written, rest: seq<byte>, room: nat)
    requires Blank(gap) && WrittenOk(w) && Closes(w, rest) && room > 0
    ensures Arguments(gap + (ArgumentText(w) + rest), room) == [ArgumentValue(w)] + Arguments(rest, room - 1)
  {
    hide *;
    var t := ArgumentText(w) + rest;
    FirstWritten(w, rest);
    BareClosed(w, rest);
    SpacesSkipped(gap, t);
    assert (gap + t)[|gap|..] == t;
    ArgumentOff(gap + t, t, room);
    if w.Bare? && |rest| > 0 {
      ArgumentsAfterBlank(rest, room - 1);
    }
  }

  lemma BareClosed(w: Written, rest: seq<byte>)
    requires Closes(w, rest)
    ensures w.Bare? && |rest| > 0 ==> IsSpace(rest[0])
  {
  }

  lemma ArgumentOff(s: seq<byte>, t: seq<byte>, room: nat)
    requires t == s[Spaces(s)..] && |t| > 0 && !IsSpace(t[0]) && room > 0
    ensures First(t).to <= |t|
    ensures Arguments(s, room)
      == [First(t).value] + Arguments(if First(t).to < |t| then t[First(t).to + 1..] else [], room - 1)
  {
    hide First, Spaces;
  }

  /**
   Arguments written in any of the three ways, mixed on a line: each comes back with its value, as many as azArg has
   room for.
   */
  lemma {:induction false} LineRead(items: seq<Item>, end: seq<byte>, room: nat)
    requires LineOk(items, end)
    ensures forall i | 0 <= i < |items| :: WrittenOk(items[i].w)
    ensures Arguments(LineText(items, end), room) == Front(LineValues(items), room)
    decreases |items|
  {
    hide *;
    AllWritten(items, end);
    if |items| == 0 {
      NothingBehind(items, end, room);
    } else if room == 0 {
      NoArguments(LineText(items, end), room);
      NoFront(LineValues(items));
    } else {
      LineStep(items, end);
      LineRead(items[1..], end, room - 1);
      ArgumentsTaken(items[0].gap, items[0].w, LineText(items[1..], end), room);
      FrontStep(LineValues(items), room);
      assert LineValues(items)[1..] == LineValues(items[1..]);
    }
  }

  lemma NoFront(v: seq<seq<byte>>)
    ensures Front(v, 0) == []
  {
  }

  lemma LineStep(items: seq<Item>, end: seq<byte>)
    requires LineOk(items, end) && |items| > 0
    requires forall i | 0 <= i < |items| :: WrittenOk(items[i].w)
    ensures Blank(items[0].gap) && LineOk(items[1..], end) && Closes(items[0].w, LineText(items[1..], end))
    ensures LineText(items, end) == items[0].gap + (ArgumentText(items[0].w) + LineText(items[1..], end))
    ensures forall i | 0 <= i < |items| - 1 :: WrittenOk(items[1..][i].w)
    ensures LineValues(items) == [ArgumentValue(items[0].w)] + LineValues(items[1..])
  {
    hide WrittenOk, Blank, Closes, ArgumentText, ArgumentValue;
  }

  lemma NothingBehind(items: seq<Item>, end: seq<byte>, room: nat)
    requires LineOk(items, end) && |items| == 0
    ensures Arguments(LineText(items, end), room) == Front(LineValues(items), room) == []
  {
    OnlyBlanks(end);
    hide First;
  }
}
