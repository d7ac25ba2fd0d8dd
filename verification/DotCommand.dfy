/** C-quoted strings as the shell prints them, and how the dot-command tokenizer reads them back. */
module DotCommand {
  import opened Bytes

  const TAB: byte := 9
  const LF: byte := 10
  const CR: byte := 13
  const SPACE: byte := 32
  const DQUOTE: byte := 34
  const SQUOTE: byte := 39
  const ZERO: byte := 48
  const BACKSLASH: byte := 92

  /** isprint in the C locale. */
  predicate Printable(c: byte) {
    32 <= c <= 126
  }

  /** isspace in the C locale. */
  predicate IsSpace(c: byte) {
    c == 32 || 9 <= c <= 13
  }

  predicate Octal(c: byte) {
    ZERO <= c <= ZERO + 7
  }

  /** "\\%03o" */
  function OctalEscape(c: byte): seq<byte> {
    [BACKSLASH, ZERO + c / 64, ZERO + c / 8 % 8, ZERO + c % 8]
  }

  function Escape(c: byte): (e: seq<byte>)
    ensures |e| > 0
  {
    if c == BACKSLASH then [BACKSLASH, BACKSLASH]
    else if c == DQUOTE then [BACKSLASH, DQUOTE]
    else if c == TAB then [BACKSLASH, 116]
    else if c == LF then [BACKSLASH, 110]
    else if c == CR then [BACKSLASH, 114]
    else if !Printable(c) then OctalEscape(c)
    else [c]
  }

  function Escaped(s: seq<byte>): seq<byte> {
    if |s| == 0 then [] else Escape(s[0]) + Escaped(s[1..])
  }

  /** output_c_string */
  function CText(s: seq<byte>): seq<byte> {
    [DQUOTE] + Escaped(s) + [DQUOTE]
  }

  // ----- resolve_backslashes -----

  /** The character that a backslash and c stand for, octal digits aside. */
  function Simple(c: byte): byte {
    if c == 97 then 7 else if c == 98 then 8 else if c == 116 then TAB else if c == 110 then LF
    else if c == 118 then 11 else if c == 102 then 12 else if c == 114 then CR else c
  }

  /** How many bytes the first character of s takes up, and which byte it denotes. */
  function Length(s: seq<byte>): (n: nat)
    requires |s| > 0
    ensures 0 < n <= |s|
  {
    if s[0] != BACKSLASH || |s| == 1 then 1
    else if !Octal(s[1]) || |s| == 2 || !Octal(s[2]) then 2
    else if |s| == 3 || !Octal(s[3]) then 3
    else 4
  }

  function Denotes(s: seq<byte>): byte
    requires |s| > 0
  {
    if s[0] != BACKSLASH || |s| == 1 then s[0]
    else if !Octal(s[1]) then Simple(s[1])
    else if Length(s) == 2 then s[1] - ZERO
    else if Length(s) == 3 then 8 * (s[1] - ZERO) + s[2] - ZERO
    else (64 * (s[1] - ZERO) as int + 8 * (s[2] - ZERO) + (s[3] - ZERO)) % 256
  }

  function Resolve(s: seq<byte>): (r: seq<byte>)
    ensures |r| <= |s|
  {
    if |s| == 0 then [] else [Denotes(s)] + Resolve(s[Length(s)..])
  }

  // ----- the tokenizer of do_meta_command -----

  function Spaces(s: seq<byte>): (k: nat)
    ensures k <= |s| && (k < |s| ==> !IsSpace(s[k]))
  {
    if |s| == 0 || !IsSpace(s[0]) then 0 else 1 + Spaces(s[1..])
  }

  function Word(s: seq<byte>): (k: nat)
    ensures k <= |s| && (k < |s| ==> IsSpace(s[k]))
  {
    if |s| == 0 || IsSpace(s[0]) then 0 else 1 + Word(s[1..])
  }

  /** How far a quoted argument reaches; in double quotes a backslash protects the next byte. */
  function Quoted(s: seq<byte>, delim: byte): (k: nat)
    ensures k <= |s| && (k < |s| ==> s[k] == delim)
  {
    if |s| == 0 || s[0] == delim then 0
    else if s[0] == BACKSLASH && delim == DQUOTE && |s| > 1 then 2 + Quoted(s[2..], delim)
    else 1 + Quoted(s[1..], delim)
  }

  /** The first argument of a text that does not start with a space: where it starts and ends, and its value. */
  datatype Argument = Argument(from: nat, to: nat, value: seq<byte>)

  function First(s: seq<byte>): (a: Argument)
    requires |s| > 0 && !IsSpace(s[0])
    ensures a.from <= a.to <= |s| && a.to > 0 && |a.value| <= a.to - a.from
  {
    if s[0] == SQUOTE then
      var k := Quoted(s[1..], SQUOTE);
      Argument(1, 1 + k, s[1..1 + k])
    else if s[0] == DQUOTE then
      var k := Quoted(s[1..], DQUOTE);
      Argument(1, 1 + k, Resolve(s[1..1 + k]))
    else Argument(0, Word(s), Resolve(s[..Word(s)]))
  }

  /** The arguments of s, at most room of them. */
  function Arguments(s: seq<byte>, room: nat): (args: seq<seq<byte>>)
    ensures |args| <= room
    decreases |s|
  {
    var t := s[Spaces(s)..];
    if |t| == 0 || room == 0 then []
    else
      var a := First(t);
      [a.value] + Arguments(if a.to < |t| then t[a.to + 1..] else [], room - 1)
  }

  // ----- printing and reading back -----

  lemma OctalBack(c: byte, rest: seq<byte>)
    ensures Length(OctalEscape(c) + rest) == 4 && Denotes(OctalEscape(c) + rest) == c
  {
    var s := OctalEscape(c) + rest;
    assert s[1] == ZERO + c / 64 && s[2] == ZERO + c / 8 % 8 && s[3] == ZERO + c % 8;
  }

  lemma EscapeBack(c: byte, rest: seq<byte>)
    ensures Length(Escape(c) + rest) == |Escape(c)| && Denotes(Escape(c) + rest) == c
  {
    if Escape(c) == OctalEscape(c) {
      OctalBack(c, rest);
    }
  }

  /** Resolving what was escaped gives the string back, digits after an octal escape included. */
  lemma {:induction false} ResolveEscaped(s: seq<byte>)
    ensures Resolve(Escaped(s)) == s
  {
    hide Length, Denotes, Escape;
    if |s| > 0 {
      var e, rest := Escape(s[0]), Escaped(s[1..]);
      EscapeBack(s[0], rest);
      assert (e + rest)[|e|..] == rest;
      ResolveEscaped(s[1..]);
      assert [s[0]] + s[1..] == s;
    }
  }

  lemma EscapeSkipped(c: byte, more: seq<byte>)
    ensures Quoted(Escape(c) + more, DQUOTE) == |Escape(c)| + Quoted(more, DQUOTE)
  {
    var e := Escape(c);
    if |e| == 4 {
      OctalSkipped(c, more);
    } else {
      assert (e + more)[|e|..] == more;
    }
  }

  /** The closing quote of a printed string is the first one the tokenizer sees as such. */
  lemma {:induction false} QuotedEscaped(s: seq<byte>, rest: seq<byte>)
    ensures Quoted(Escaped(s) + ([DQUOTE] + rest), DQUOTE) == |Escaped(s)|
  {
    hide Escape;
    var t := Escaped(s) + ([DQUOTE] + rest);
    if |s| == 0 {
      assert t[0] == DQUOTE;
    } else {
      var e, more := Escape(s[0]), Escaped(s[1..]) + ([DQUOTE] + rest);
      assert t == e + more;
      QuotedEscaped(s[1..], rest);
      EscapeSkipped(s[0], more);
    }
  }

  lemma OctalSkipped(c: byte, more: seq<byte>)
    ensures Quoted(OctalEscape(c) + more, DQUOTE) == 4 + Quoted(more, DQUOTE)
  {
    var t := OctalEscape(c) + more;
    assert t[2] != DQUOTE && t[2] != BACKSLASH && t[3] != DQUOTE && t[3] != BACKSLASH;
    assert t[2..][1..] == t[3..] && t[3..][1..] == more;
    assert Quoted(t, DQUOTE) == 2 + Quoted(t[2..], DQUOTE);
    assert Quoted(t[2..], DQUOTE) == 1 + Quoted(t[3..], DQUOTE);
    assert Quoted(t[3..], DQUOTE) == 1 + Quoted(more, DQUOTE);
  }

  lemma FirstPrinted(s: seq<byte>, rest: seq<byte>)
    ensures var t := CText(s) + rest;
      First(t) == Argument(1, |CText(s)| - 1, s) && t[|CText(s)|..] == rest
  {
    hide Escaped, Quoted, Resolve;
    var t := CText(s) + rest;
    assert t[1..] == Escaped(s) + ([DQUOTE] + rest);
    QuotedEscaped(s, rest);
    assert t[1..1 + |Escaped(s)|] == Escaped(s);
    ResolveEscaped(s);
  }

  predicate Blank(s: seq<byte>) {
    forall i | 0 <= i < |s| :: IsSpace(s[i])
  }

  /** Strings in C quotes, each after the blanks that separate it from the one before. */
  function Printed(ss: seq<seq<byte>>, gaps: seq<seq<byte>>): seq<byte>
    requires |gaps| == |ss|
  {
    if |ss| == 0 then [] else gaps[0] + CText(ss[0]) + Printed(ss[1..], gaps[1..])
  }

  lemma {:induction false} SpacesSkipped(gap: seq<byte>, t: seq<byte>)
    requires Blank(gap) && (|t| > 0 ==> !IsSpace(t[0]))
    ensures Spaces(gap + t) == |gap|
  {
    if |gap| == 0 {
      assert gap + t == t;
    } else {
      assert (gap + t)[1..] == gap[1..] + t;
      SpacesSkipped(gap[1..], t);
    }
  }

  lemma ArgumentsStep(gap: seq<byte>, one: seq<byte>, rest: seq<byte>, room: nat)
    requires Blank(gap) && room > 0
    ensures Arguments(gap + CText(one) + rest, room) == [one] + Arguments(rest, room - 1)
  {
    hide First, CText, Blank, Spaces;
    var t := CText(one) + rest;
    StartsQuoted(one, rest);
    SpacesSkipped(gap, t);
    assert gap + CText(one) + rest == gap + t && (gap + t)[|gap|..] == t;
    FirstPrinted(one, rest);
  }

  lemma NoArguments(s: seq<byte>, room: nat)
    ensures |s| == 0 || room == 0 ==> Arguments(s, room) == []
  {
  }

  function Front<T>(s: seq<T>, n: nat): seq<T> {
    if |s| <= n then s else s[..n]
  }

  lemma FrontStep<T>(s: seq<T>, n: nat)
    requires |s| > 0 && n > 0
    ensures Front(s, n) == [s[0]] + Front(s[1..], n - 1)
  {
  }

  /** Every printed string comes back as one argument, up to the size of azArg. */
  lemma {:induction false} ArgumentsBack(ss: seq<seq<byte>>, gaps: seq<seq<byte>>, room: nat)
    requires |gaps| == |ss| && forall i | 0 <= i < |ss| :: Blank(gaps[i])
    ensures Arguments(Printed(ss, gaps), room) == Front(ss, room)
    decreases |ss|
  {
    hide CText, Blank, Arguments, Printed;
    if |ss| == 0 || room == 0 {
      NothingPrinted(ss, gaps);
      NoArguments(Printed(ss, gaps), room);
    } else {
      PrintedStep(ss, gaps);
      ArgumentsStep(gaps[0], ss[0], Printed(ss[1..], gaps[1..]), room);
      ArgumentsBack(ss[1..], gaps[1..], room - 1);
      FrontStep(ss, room);
    }
  }

  lemma NothingPrinted(ss: seq<seq<byte>>, gaps: seq<seq<byte>>)
    requires |gaps| == |ss|
    ensures |ss| == 0 ==> Printed(ss, gaps) == []
  {
  }

  lemma PrintedStep(ss: seq<seq<byte>>, gaps: seq<seq<byte>>)
    requires |gaps| == |ss| > 0
    ensures Printed(ss, gaps) == gaps[0] + CText(ss[0]) + Printed(ss[1..], gaps[1..])
  {
  }

  lemma StartsQuoted(s: seq<byte>, rest: seq<byte>)
    ensures var t := CText(s) + rest; |CText(s)| > 0 && |t| > 0 && !IsSpace(t[0])
  {
  }
}
