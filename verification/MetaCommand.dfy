/** The printer of C strings and the in-place tokenizer of dot-commands, on NUL-terminated buffers. */
module MetaCommand {
  import opened Bytes
  import opened DotCommand

  /** What is printed for one character. */
  method EscapeOf(c: byte) returns (e: seq<byte>)
    ensures e == Escape(c)
  {
    if c == BACKSLASH {
      e := [c, c];
    } else if c == DQUOTE {
      e := [BACKSLASH, DQUOTE];
    } else if c == TAB {
      e := [BACKSLASH, 116];
    } else if c == LF {
      e := [BACKSLASH, 110];
    } else if c == CR {
      e := [BACKSLASH, 114];
    } else if !Printable(c) {
      e := OctalEscape(c);
    } else {
      e := [c];
    }
  }

  /** output_c_string */
  method OutputCString(z: seq<byte>) returns (out: seq<byte>)
    ensures out == CText(z)
  {
    out := [DQUOTE];
    var i := 0;
    assert z[0..] == z;
    while i < |z|
      invariant i <= |z| && out + Escaped(z[i..]) == [DQUOTE] + Escaped(z)
    {
      hide Escape;
      var c := z[i];
      assert z[i..][1..] == z[i + 1..];
      assert out + Escaped(z[i..]) == (out + Escape(c)) + Escaped(z[i + 1..]);
      var e := EscapeOf(c);
      out := out + e;
      i := i + 1;
    }
    out := out + [DQUOTE];
  }

  /** mem holds value at the offset at, with a NUL behind it. */
  ghost predicate Stored(mem: seq<byte>, at: nat, value: seq<byte>) {
    at + |value| < |mem| && mem[at..at + |value|] == value && mem[at + |value|] == 0
  }

  /** A line in a buffer: no NUL before the one at its end. */
  ghost predicate Terminated(mem: seq<byte>, from: nat, end: nat) {
    from <= end < |mem| && mem[end] == 0 && forall i | from <= i < end :: mem[i] != 0
  }

  lemma PlainOne(s: seq<byte>)
    requires |s| > 0 && s[0] != BACKSLASH
    ensures Length(s) == 1 && Denotes(s) == s[0]
  {
  }

  lemma {:induction false} ResolvePlain(w: seq<byte>, rest: seq<byte>)
    requires BACKSLASH !in w
    ensures Resolve(w + rest) == w + Resolve(rest)
  {
    hide Length, Denotes;
    if |w| == 0 {
      assert w + rest == rest;
    } else {
      PlainOne(w + rest);
      assert (w + rest)[1..] == w[1..] + rest;
      ResolvePlain(w[1..], rest);
      assert [w[0]] + w[1..] == w;
    }
  }

  lemma ResolveStep(t: seq<byte>, k: nat)
    requires k < |t|
    ensures Resolve(t[k..]) == [Denotes(t[k..])] + Resolve(t[k + Length(t[k..])..])
  {
  }

  /** What the line says about the byte at k + n of an argument. */
  lemma ByteAt(mem: seq<byte>, k: nat, n: nat, end: nat)
    requires Terminated(mem, k, end) && k + n <= end
    ensures mem[k + n] == 0 <==> k + n == end
    ensures k + n < end ==> n < |mem[k..end]| && mem[k..end][n] == mem[k + n]
  {
  }

  /** c = (c << 3) + digit - '0', in an eight-bit char. */
  function Next(c: byte, digit: byte): byte {
    (c as int * 8 + digit as int - ZERO) % 256
  }

  /** How far an octal escape goes and what it denotes, by the bytes that follow. */
  lemma OctalIs(mem: seq<byte>, k: nat, end: nat)
    requires k + 1 < end && Terminated(mem, k, end) && mem[k] == BACKSLASH && Octal(mem[k + 1])
    ensures end < |mem|
    ensures 0 <= mem[k + 1] - ZERO < 8
    ensures var s, c1 := mem[k..end], mem[k + 1] - ZERO; var c2 := Next(c1, mem[k + 2]);
      if !Octal(mem[k + 2]) then Length(s) == 2 && Denotes(s) == c1
      else k + 2 < end && if !Octal(mem[k + 3]) then Length(s) == 3 && Denotes(s) == c2
      else k + 3 < end && Length(s) == 4 && Denotes(s) == Next(c2, mem[k + 3])
  {
    ByteAt(mem, k, 0, end);
    ByteAt(mem, k, 1, end);
    ByteAt(mem, k, 2, end);
    if k + 3 <= end {
      ByteAt(mem, k, 3, end);
    }
    hide Terminated;
  }

  /** Up to three octal digits from a[k + 1] on, combined in an eight-bit char. */
  method OctalAt(a: array<byte>, k: nat, ghost end: nat) returns (c: byte, i: nat)
    requires k + 1 < end && Terminated(a[..], k, end) && a[k] == BACKSLASH && Octal(a[k + 1])
    ensures k <= i < end && i + 1 == k + Length(a[k..end]) && c == Denotes(a[k..end])
  {
    OctalIs(a[..], k, end);
    assert a[..][k..end] == a[k..end];
    hide Terminated, Length, Denotes, Next, Octal;
    i := k + 1;
    c := a[i] - ZERO;
    if Octal(a[i + 1]) {
      i := i + 1;
      c := Next(c, a[i]);
      if Octal(a[i + 1]) {
        i := i + 1;
        c := Next(c, a[i]);
      }
    }
  }

  /** The character at a[k] and the offset of its last byte. */
  method DecodeAt(a: array<byte>, k: nat, ghost end: nat) returns (c: byte, i: nat)
    requires k < end && Terminated(a[..], k, end)
    ensures k <= i < end && i + 1 == k + Length(a[k..end]) && c == Denotes(a[k..end])
  {
    ByteAt(a[..], k, 0, end);
    ByteAt(a[..], k, 1, end);
    i := k;
    c := a[i];
    if c == BACKSLASH && a[i + 1] != 0 {
      i := i + 1;
      c := a[i];
      if c == 97 {
        c := 7;
      } else if c == 98 {
        c := 8;
      } else if c == 116 {
        c := TAB;
      } else if c == 110 {
        c := LF;
      } else if c == 118 {
        c := 11;
      } else if c == 102 {
        c := 12;
      } else if c == 114 {
        c := CR;
      } else if c == DQUOTE {
        c := DQUOTE;
      } else if c == SQUOTE {
        c := SQUOTE;
      } else if c == BACKSLASH {
        c := BACKSLASH;
      } else if Octal(c) {
        c, i := OctalAt(a, k, end);
      }
    }
  }

  /** One turn of the copying loop: a character read at i, written at j. */
  method CopyOne(a: array<byte>, i: nat, j: nat, ghost end: nat) returns (next: nat)
    requires j <= i < end && Terminated(a[..], i, end)
    modifies a
    ensures i < next <= end && next == i + Length(old(a[i..end])) && a[j] == Denotes(old(a[i..end]))
    ensures a[..j] == old(a[..j]) && a[next..] == old(a[next..])
  {
    var c, last := DecodeAt(a, i, end);
    a[j] := c;
    next := last + 1;
  }

  lemma TerminatedTail(m: seq<byte>, n: seq<byte>, from: nat, i: nat, end: nat)
    requires Terminated(m, from, end) && from <= i <= end && |m| == |n| && m[i..] == n[i..]
    ensures Terminated(n, i, end) && n[i..end] == m[i..end]
  {
  }

  /** The copying loop of resolve_backslashes, from the first backslash on. */
  method CopyResolved(a: array<byte>, z: nat, ghost end: nat)
    requires Terminated(a[..], z, end)
    modifies a
    ensures Stored(a[..], z, Resolve(old(a[z..end])))
    ensures a[..z] == old(a[..z]) && a[end..] == old(a[end..])
  {
    hide Resolve, Length, Denotes;
    ghost var m, t := a[..], a[z..end];
    var i, j := z, z;
    assert t[0..] == t;
    while a[i] != 0
      invariant z <= j <= i <= end && a[..z] == m[..z] && a[i..] == m[i..]
      invariant a[z..j] + Resolve(t[i - z..]) == Resolve(t)
      invariant Terminated(a[..], i, end)
      decreases end - i
    {
      ghost var done, n := a[z..j], a[..];
      TerminatedTail(m, a[..], z, i, end);
      assert a[i..end] == t[i - z..];
      ResolveStep(t, i - z);
      i := CopyOne(a, i, j, end);
      j := j + 1;
      TerminatedTail(m, a[..], z, i, end);
      assert a[z..j - 1] == done;
      assert a[z..j] == done + [a[j - 1]];
    }
    ResolveNothing();
    assert t[i - z..] == [] && a[z..j] == Resolve(t);
    if j < i {
      a[j] := 0;
    }
  }

  lemma ResolveNothing()
    ensures Resolve([]) == []
  {
  }

  /** Skip to the first backslash. */
  method SkipPlain(a: array<byte>, from: nat, ghost end: nat) returns (z: nat)
    requires Terminated(a[..], from, end)
    ensures from <= z <= end && BACKSLASH !in a[from..z] && Terminated(a[..], z, end)
  {
    z := from;
    while a[z] != 0 && a[z] != BACKSLASH
      invariant from <= z <= end && BACKSLASH !in a[from..z]
      decreases end - z
    {
      z := z + 1;
    }
  }

  /** resolve_backslashes: the string at a[from] is rewritten where it stands. */
  method ResolveBackslashes(a: array<byte>, from: nat, ghost end: nat)
    requires Terminated(a[..], from, end)
    modifies a
    ensures Stored(a[..], from, Resolve(old(a[from..end])))
    ensures a[..from] == old(a[..from]) && a[end..] == old(a[end..])
  {
    hide Resolve, Stored;
    var z := SkipPlain(a, from, end);
    ghost var m := a[..];
    ghost var w, t := m[from..z], m[z..end];
    assert m[from..end] == w + t;
    ResolvePlain(w, t);
    CopyResolved(a, z, end);
    assert a[from..z] == a[..z][from..] == m[..z][from..] == w;
    assert a[..from] == a[..z][..from] == m[..z][..from];
    StoredBehind(a[..], from, z, w, Resolve(t));
  }

  lemma StoredBehind(mem: seq<byte>, from: nat, z: nat, w: seq<byte>, r: seq<byte>)
    requires from <= z <= |mem| && mem[from..z] == w && Stored(mem, z, r)
    ensures Stored(mem, from, w + r)
  {
  }

  lemma QuotedStep(s: seq<byte>, delim: byte)
    requires |s| > 0 && s[0] != delim
    ensures var n := if s[0] == BACKSLASH && delim == DQUOTE && |s| > 1 then 2 else 1;
      Quoted(s, delim) == n + Quoted(s[n..], delim)
  {
  }

  lemma QuotedStops(s: seq<byte>, delim: byte)
    requires |s| == 0 || s[0] == delim
    ensures Quoted(s, delim) == 0
  {
  }

  /** The loop over a quoted argument. */
  method ScanQuoted(a: array<byte>, from: nat, delim: byte, ghost end: nat) returns (h: nat)
    requires Terminated(a[..], from, end) && delim != 0
    ensures h == from + Quoted(a[from..end], delim)
  {
    hide Quoted;
    h := from;
    while a[h] != 0 && a[h] != delim
      invariant from <= h <= end
      invariant Quoted(a[from..end], delim) == h - from + Quoted(a[h..end], delim)
      decreases end - h
    {
      QuotedStep(a[h..end], delim);
      assert a[h..end][1..] == a[h + 1..end];
      if a[h] == BACKSLASH && delim == DQUOTE && a[h + 1] != 0 {
        assert a[h..end][2..] == a[h + 2..end];
        h := h + 1;
      }
      h := h + 1;
    }
    QuotedStops(a[h..end], delim);
  }

  method ScanWord(a: array<byte>, from: nat, ghost end: nat) returns (h: nat)
    requires Terminated(a[..], from, end)
    ensures h == from + Word(a[from..end])
  {
    h := from;
    while a[h] != 0 && !IsSpace(a[h])
      invariant from <= h <= end
      invariant Word(a[from..end]) == h - from + Word(a[h..end])
      decreases end - h
    {
      assert a[h..end][1..] == a[h + 1..end];
      h := h + 1;
    }
  }

  method ScanSpaces(a: array<byte>, from: nat, ghost end: nat) returns (h: nat)
    requires Terminated(a[..], from, end)
    ensures h == from + Spaces(a[from..end])
  {
    h := from;
    while IsSpace(a[h])
      invariant from <= h <= end
      invariant Spaces(a[from..end]) == h - from + Spaces(a[h..end])
      decreases end - h
    {
      assert a[h..end][1..] == a[h + 1..end];
      h := h + 1;
    }
  }

  /** Put a NUL behind an argument that ends at stop, and step over it unless the line ends there. */
  method Cut(a: array<byte>, start: nat, stop: nat, ghost end: nat) returns (h: nat)
    requires start <= stop && Terminated(a[..], start, end) && stop <= end
    modifies a
    ensures h == if stop < end then stop + 1 else end
    ensures Terminated(a[..], start, stop) && a[start..stop] == old(a[start..stop])
    ensures a[..start] == old(a[..start]) && a[h..] == old(a[h..])
  {
    h := stop;
    if a[h] != 0 {
      a[h] := 0;
      h := h + 1;
    }
  }

  lemma KeptAround(m: seq<byte>, n: seq<byte>, start: nat, stop: nat, from: nat, h: nat)
    requires |m| == |n| && from <= start <= stop <= h <= |m|
    requires m[..start] == n[..start] && m[stop..] == n[stop..]
    ensures m[..from] == n[..from] && m[h..] == n[h..]
  {
  }

  /** End an argument in place and, where backslashes mean something, resolve them. */
  method Finish(a: array<byte>, start: nat, stop: nat, escapes: bool, ghost end: nat) returns (h: nat)
    requires start <= stop && Terminated(a[..], start, end) && stop <= end
    modifies a
    ensures h == if stop < end then stop + 1 else end
    ensures Stored(a[..], start, if escapes then Resolve(old(a[start..stop])) else old(a[start..stop]))
    ensures a[..start] == old(a[..start]) && a[h..] == old(a[h..])
  {
    hide Resolve;
    h := Cut(a, start, stop, end);
    if escapes {
      ghost var m := a[..];
      ResolveBackslashes(a, start, stop);
      KeptAround(m, a[..], start, stop, start, h);
    }
  }

  /** One turn of the token loop, at a byte that is not a space. */
  method OneArgument(a: array<byte>, from: nat, ghost end: nat) returns (start: nat, h: nat)
    requires from < end && Terminated(a[..], from, end) && !IsSpace(a[from])
    modifies a
    ensures var f := First(old(a[from..end]));
      && start == from + f.from && h == (if from + f.to < end then from + f.to + 1 else end)
      && Stored(a[..], start, f.value) && start + |f.value| <= from + f.to
    ensures a[..from] == old(a[..from]) && a[h..] == old(a[h..])
  {
    hide Resolve, Quoted, Word, Stored;
    ghost var m, t := a[..], a[from..end];
    start := from;
    var stop, escapes := from, true;
    if a[from] == SQUOTE || a[from] == DQUOTE {
      start := from + 1;
      assert t[1..] == a[start..end];
      stop := ScanQuoted(a, start, a[from], end);
      escapes := a[from] == DQUOTE;
      assert a[start..stop] == t[1..][..stop - start] == t[1..stop - from];
    } else {
      stop := ScanWord(a, from, end);
      assert a[start..stop] == t[..stop - start];
    }
    assert Terminated(a[..], start, end);
    h := Finish(a, start, stop, escapes, end);
    assert a[..from] == a[..start][..from] == m[..start][..from];
  }

  /** Arguments found so far: each in the part of the buffer already passed. */
  ghost predicate AllStored(mem: seq<byte>, at: seq<nat>, args: seq<seq<byte>>, lim: nat) {
    |at| == |args| && forall k | 0 <= k < |at| :: at[k] + |args[k]| < lim && Stored(mem, at[k], args[k])
  }

  lemma AllStoredMore(
    m: seq<byte>, n: seq<byte>, at: seq<nat>, args: seq<seq<byte>>, lim: nat, start: nat, value: seq<byte>, lim': nat)
    requires AllStored(m, at, args, lim) && lim <= |m| == |n| && m[..lim] == n[..lim]
    requires Stored(n, start, value) && lim <= lim' && start + |value| < lim'
    ensures AllStored(n, at + [start], args + [value], lim')
  {
  }

  lemma ArgumentsTurn(s: seq<byte>, room: nat)
    requires room > 0 && Spaces(s) < |s|
    ensures var t := s[Spaces(s)..]; var f := First(t);
      Arguments(s, room) == [f.value] + Arguments(if f.to < |t| then t[f.to + 1..] else [], room - 1)
  {
    hide First, Spaces;
  }

  /** The text after the dot of a whole line. */
  function Line(mem: seq<byte>): seq<byte>
    requires |mem| >= 2
  {
    mem[1..|mem| - 1]
  }

  /**
   Where the token loop stands: m0 is the line as it came, mem as it is now, args the arguments so far, lim the
   end of the part of the buffer they live in, h the next byte to look at.
   */
  ghost predicate Progress(
    m0: seq<byte>, mem: seq<byte>, at: seq<nat>, args: seq<seq<byte>>, h: nat, lim: nat, end: nat)
  {
    && 1 <= h <= end < |mem| == |m0| == end + 1 && |args| <= 50
    && Terminated(mem, h, end) && mem[h..] == m0[h..]
    && (lim == h || (h == end && lim == end + 1))
    && AllStored(mem, at, args, lim)
    && Arguments(Line(m0), 50) == args + Arguments(mem[h..end], 50 - |args|)
  }

  lemma ProgressStart(m0: seq<byte>, end: nat)
    requires 1 <= end < |m0| == end + 1 && Terminated(m0, 0, end)
    ensures Progress(m0, m0, [], [], 1, 1, end)
  {
  }

  lemma ProgressEnd(m0: seq<byte>, mem: seq<byte>, at: seq<nat>, args: seq<seq<byte>>, h: nat, lim: nat, end: nat)
    requires Progress(m0, mem, at, args, h, lim, end)
    requires |args| == 50 || Spaces(mem[h..end]) == end - h
    ensures AllStored(mem, at, Arguments(Line(m0), 50), end + 1)
  {
  }

  lemma ProgressTurn(
    m0: seq<byte>, mem: seq<byte>, n: seq<byte>, at: seq<nat>, args: seq<seq<byte>>, h: nat, lim: nat, end: nat,
    k: nat, start: nat, next: nat) returns (lim': nat)
    requires Progress(m0, mem, at, args, h, lim, end) && |args| < 50
    requires k == h + Spaces(mem[h..end]) < end
    requires next <= |n| == |mem| && n[..k] == mem[..k] && n[next..] == mem[next..]
    requires var f := First(mem[k..end]);
      start == k + f.from && next == (if k + f.to < end then k + f.to + 1 else end)
      && Stored(n, start, f.value) && start + |f.value| <= k + f.to
    ensures Progress(m0, n, at + [start], args + [First(mem[k..end]).value], next, lim', end)
  {
    hide Arguments, AllStored, Spaces, First, Stored;
    var t := mem[k..end];
    var f := First(t);
    ArgumentsTurn(mem[h..end], 50 - |args|);
    lim' := if k + f.to < end then next else end + 1;
    TerminatedTail(mem, n, h, next, end);
    SamePrefix(n, mem, k, lim);
    SameSuffix(m0, mem, n, h, next);
    Slices(mem, h, k, end);
    if f.to < |t| {
      Slices(mem, k, k + f.to + 1, end);
    }
    AllStoredMore(mem, n, at, args, lim, start, f.value, lim');
    var rest := Arguments(n[next..end], 50 - |args| - 1);
    assert args + ([f.value] + rest) == (args + [f.value]) + rest;
  }

  lemma SamePrefix(n: seq<byte>, mem: seq<byte>, k: nat, lim: nat)
    requires lim <= k <= |n| == |mem| && n[..k] == mem[..k]
    ensures n[..lim] == mem[..lim]
  {
    assert n[..lim] == n[..k][..lim] && mem[..lim] == mem[..k][..lim];
  }

  lemma SameSuffix(m0: seq<byte>, mem: seq<byte>, n: seq<byte>, h: nat, next: nat)
    requires h <= next <= |n| == |mem| == |m0| && mem[h..] == m0[h..] && n[next..] == mem[next..]
    ensures n[next..] == m0[next..]
  {
    assert mem[next..] == mem[h..][next - h..] && m0[next..] == m0[h..][next - h..];
  }

  lemma Slices(mem: seq<byte>, h: nat, k: nat, end: nat)
    requires h <= k <= end <= |mem|
    ensures mem[h..end][k - h..] == mem[k..end]
  {
  }

  /** One turn of the token loop: skip spaces and, unless the line ends there, take an argument. */
  method TokenTurn(
    zLine: array<byte>, h0: nat, ghost m: seq<byte>, ghost at: seq<nat>, ghost args: seq<seq<byte>>,
    ghost lim: nat, ghost end: nat)
    returns (start: nat, h: nat, ghost value: seq<byte>, ghost lim': nat)
    requires Progress(m, zLine[..], at, args, h0, lim, end) && |args| < 50 && h0 < zLine.Length && zLine[h0] != 0
    modifies zLine
    ensures h == h0 ==> zLine[..] == old(zLine[..]) && AllStored(zLine[..], at, Arguments(Line(m), 50), end + 1)
    ensures h != h0 ==> h0 < h <= end && Progress(m, zLine[..], at + [start], args + [value], h, lim', end)
  {
    ghost var mem := zLine[..];
    start, lim', value := 0, lim, [];
    ProgressTerminated(m, mem, at, args, h0, lim, end);
    hide *;
    var k := ScanSpaces(zLine, h0, end);
    TerminatedFrom(mem, h0, k, end);
    if zLine[k] == 0 {
      AtNul(mem, k, end);
      ProgressEnd(m, mem, at, args, h0, lim, end);
      return start, h0, [], lim;
    }
    BeforeNul(mem, k, end);
    SpacesStop(mem, h0, k, end);
    assert mem[k..end] == zLine[k..end];
    start, h := OneArgument(zLine, k, end);
    value := First(mem[k..end]).value;
    lim' := ProgressTurn(m, mem, zLine[..], at, args, h0, lim, end, k, start, h);
    ProgressTerminated(m, zLine[..], at + [start], args + [value], h, lim', end);
  }

  /** azArg[nArg++] = start */
  method Put(azArg: array<nat>, n: nat, start: nat)
    requires n < azArg.Length
    modifies azArg
    ensures azArg[..n + 1] == old(azArg[..n]) + [start]
  {
    azArg[n] := start;
  }

  /** The token loop of do_meta_command: azArg points at every argument inside the line. */
  method ParseArguments(zLine: array<byte>) returns (azArg: array<nat>, nArg: nat)
    requires zLine.Length >= 2 && Terminated(zLine[..], 0, zLine.Length - 1)
    modifies zLine
    ensures fresh(azArg) && nArg <= azArg.Length == 50
    ensures AllStored(
      zLine[..], azArg[..nArg], Arguments(Line(old(zLine[..])), 50), zLine.Length)
  {
    azArg := new nat[50](_ => 0);
    nArg := 0;
    var h := 1;
    ghost var end, m := zLine.Length - 1, zLine[..];
    ghost var args: seq<seq<byte>>, lim := [], 1;
    ProgressStart(m, end);
    hide *;
    while zLine[h] != 0 && nArg < azArg.Length
      invariant 1 <= h <= end && nArg <= 50 && nArg == |args|
      invariant Progress(m, zLine[..], azArg[..nArg], args, h, lim, end)
      decreases end - h
    {
      ghost var at := azArg[..nArg];
      var start, next, value, lim' := TokenTurn(zLine, h, m, at, args, lim, end);
      if next == h {
        return;
      }
      Put(azArg, nArg, start);
      nArg := nArg + 1;
      h, args, lim := next, args + [value], lim';
    }
    ProgressFinish(m, zLine[..], azArg[..nArg], args, h, lim, end);
  }

  lemma ProgressFinish(m0: seq<byte>, mem: seq<byte>, at: seq<nat>, args: seq<seq<byte>>, h: nat, lim: nat, end: nat)
    requires Progress(m0, mem, at, args, h, lim, end) && h < |mem| && (|args| == 50 || mem[h] == 0)
    ensures AllStored(mem, at, Arguments(Line(m0), 50), end + 1)
  {
  }

  lemma ProgressTerminated(
    m0: seq<byte>, mem: seq<byte>, at: seq<nat>, args: seq<seq<byte>>, h: nat, lim: nat, end: nat)
    requires Progress(m0, mem, at, args, h, lim, end)
    ensures Terminated(mem, h, end) && h <= end < |mem|
  {
  }

  lemma TerminatedFrom(mem: seq<byte>, from: nat, i: nat, end: nat)
    requires Terminated(mem, from, end) && i == from + Spaces(mem[from..end])
    ensures i <= end && Terminated(mem, i, end)
  {
  }

  lemma AtNul(mem: seq<byte>, h: nat, end: nat)
    requires h <= end < |mem| && Terminated(mem, h, end) && mem[h] == 0
    ensures h == end && Spaces(mem[h..end]) == 0
  {
  }

  lemma BeforeNul(mem: seq<byte>, h: nat, end: nat)
    requires h <= end < |mem| && Terminated(mem, h, end) && mem[h] != 0
    ensures h < end
  {
  }

  lemma SpacesStop(mem: seq<byte>, from: nat, h: nat, end: nat)
    requires from <= h < end < |mem| && h == from + Spaces(mem[from..end])
    ensures !IsSpace(mem[h])
  {
  }
}
