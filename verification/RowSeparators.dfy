/**
 Row separators other than LF: the reader treats any of them as it treats LF. With the two bytes exchanged in a file,
 everything read from it is the same with the two bytes exchanged.
 */
module RowSeparators {
  import opened Bytes
  import opened Csv
  import opened Options

  /** A row separator that the reader can tell from quotes, carriage returns and the column separator. */
  predicate RowByte(r: byte, sep: byte) {
    0 < r < 128 && r != 10 && r != 13 && r != 34 && r != sep
  }

  /** LF and r exchanged; EOF stays. */
  function Swap(c: int, r: byte): (d: int)
    ensures 0 <= c < 256 ==> 0 <= d < 256
  {
    if c == 10 then r as int else if c == r as int then 10 else c
  }

  function Swapped(s: seq<byte>, r: byte): (t: seq<byte>)
    ensures |t| == |s| && forall i | 0 <= i < |s| :: t[i] as int == Swap(s[i] as int, r)
  {
    seq(|s|, i requires 0 <= i < |s| => if s[i] == 10 then r else if s[i] == r then 10 else s[i])
  }

  lemma SwappedParts(s: seq<byte>, r: byte, k: nat)
    requires k <= |s|
    ensures Swapped(s[k..], r) == Swapped(s, r)[k..] && Swapped(s[..k], r) == Swapped(s, r)[..k]
  {
  }

  lemma SwappedMore(z: seq<byte>, c: byte, d: byte, r: byte)
    requires d as int == Swap(c as int, r)
    ensures Swapped(z + [c], r) == Swapped(z, r) + [d]
  {
  }

  function SwapCell(z: Cell, r: byte): Cell {
    if z.Some? then Some(Swapped(z.value, r)) else None
  }

  function SwapRow(row: seq<Cell>, r: byte): (t: seq<Cell>)
    ensures |t| == |row|
  {
    seq(|row|, i requires 0 <= i < |row| => SwapCell(row[i], r))
  }

  function SwapRows(rows: seq<seq<Cell>>, r: byte): seq<seq<Cell>> {
    seq(|rows|, i requires 0 <= i < |rows| => SwapRow(rows[i], r))
  }

  function SwapReading(f: Reading, r: byte): Reading {
    Reading(SwapCell(f.z, r), Swap(f.term, r), Swapped(f.next, r))
  }

  // ----- one field -----

  lemma {:induction false} BeforeLastQuoteSwapped(z: seq<byte>, r: byte)
    requires r != 34
    ensures BeforeLastQuote(Swapped(z, r)) == Swapped(BeforeLastQuote(z), r)
  {
    if |z| > 0 {
      SwappedParts(z, r, |z| - 1);
      if z[|z| - 1] != 34 {
        BeforeLastQuoteSwapped(z[..|z| - 1], r);
      }
    }
  }

  /** Where a quoted field ends. */
  lemma EndsSwapped(c: int, pc: int, ppc: int, sep: byte, r: byte)
    requires Separator(sep) && RowByte(r, sep)
    ensures EndsQuoted(Swap(c, r), Swap(pc, r), Swap(ppc, r), sep, r) <==> EndsQuoted(c, pc, ppc, sep, LF)
    ensures (Swap(c, r) == QUOTE <==> c == QUOTE) && (Swap(pc, r) == QUOTE <==> pc == QUOTE)
    ensures Swap(EOF, r) == EOF && Swap(0, r) == 0
  {
  }

  lemma {:induction false} QuotedSwapped(s: seq<byte>, z: seq<byte>, pc: int, ppc: int, sep: byte, r: byte)
    requires Separator(sep) && RowByte(r, sep)
    ensures ReadQuoted(Swapped(s, r), Swapped(z, r), Swap(pc, r), Swap(ppc, r), sep, r)
      == SwapReading(ReadQuoted(s, z, pc, ppc, sep, LF), r)
    decreases |s|
  {
    var t := Swapped(s, r);
    EndsSwapped(if |s| == 0 then EOF else s[0], pc, ppc, sep, r);
    BeforeLastQuoteSwapped(z, r);
    if |s| > 0 {
      SwappedParts(s, r, 1);
      SwappedMore(z, s[0], t[0], r);
      QuotedSwapped(s[1..], z, 0, ppc, sep, r);
      QuotedSwapped(s[1..], z + [s[0]], s[0], pc, sep, r);
    }
    hide EndsQuoted, BeforeLastQuote, Swapped;
  }

  lemma WithoutCRSwapped(z: seq<byte>, r: byte)
    requires r != 13
    ensures WithoutCR(Swapped(z, r)) == Swapped(WithoutCR(z), r)
  {
  }

  lemma {:induction false} PlainSwapped(s: seq<byte>, z: seq<byte>, sep: byte, r: byte)
    requires Separator(sep) && RowByte(r, sep)
    ensures ReadPlain(Swapped(s, r), Swapped(z, r), sep, r) == SwapReading(ReadPlain(s, z, sep, LF), r)
    decreases |s|
  {
    WithoutCRSwapped(z, r);
    if |s| > 0 {
      SwappedParts(s, r, 1);
      SwappedMore(z, s[0], Swapped(s, r)[0], r);
      PlainSwapped(s[1..], z + [s[0]], sep, r);
    }
    hide WithoutCR;
  }

  lemma {:induction false} FieldSwapped(s: seq<byte>, notFirst: bool, sep: byte, r: byte)
    requires Separator(sep) && RowByte(r, sep)
    ensures ReadField(Swapped(s, r), notFirst, sep, r) == SwapReading(ReadField(s, notFirst, sep, LF), r)
    decreases |s|
  {
    if |s| > 0 {
      SwappedParts(s, r, 1);
      assert Swapped([], r) == [];
      QuotedSwapped(s[1..], [], 0, 0, sep, r);
      PlainSwapped(s, [], sep, r);
      if StartsWithBom(s) {
        SwappedParts(s, r, 3);
        FieldSwapped(s[3..], true, sep, r);
      }
    }
    hide ReadQuoted, ReadPlain;
  }

  // ----- rows -----

  lemma {:induction false} CStringSwapped(z: seq<byte>, r: byte)
    requires r != 0
    ensures CString(Swapped(z, r)) == Swapped(CString(z), r)
  {
    if |z| > 0 {
      SwappedParts(z, r, 1);
      CStringSwapped(z[1..], r);
    }
  }

  lemma BoundSwapped(z: Cell, r: byte)
    requires r != 0
    ensures Bound(SwapCell(z, r)) == SwapCell(Bound(z), r)
  {
    if z.Some? {
      CStringSwapped(z.value, r);
    }
  }

  lemma BindSwapped(bind: seq<Cell>, i: nat, z: Cell, r: byte)
    requires i < |bind| && r != 0
    ensures SwapRow(bind, r)[i := Bound(SwapCell(z, r))] == SwapRow(bind[i := Bound(z)], r)
    ensures var b := bind[i := Bound(z)];
      SwapRow(b[..i + 1] + Nulls(|bind| - i - 1), r) == SwapRow(b, r)[..i + 1] + Nulls(|bind| - i - 1)
  {
    BoundSwapped(z, r);
    hide Bound;
  }

  lemma {:induction false} ColumnsSwapped(
    s: seq<byte>, notFirst: bool, sep: byte, r: byte, i: nat, bind: seq<Cell>, term: int)
    requires Separator(sep) && RowByte(r, sep) && i <= |bind|
    ensures var a, b := ReadColumns(Swapped(s, r), notFirst, sep, r, i, SwapRow(bind, r), Swap(term, r)),
        ReadColumns(s, notFirst, sep, LF, i, bind, term);
      b.complete == a.complete && a.bind == SwapRow(b.bind, r) && a.term == Swap(b.term, r)
      && a.next == Swapped(b.next, r)
    decreases |bind| - i
  {
    hide ReadField, Swapped, SwapRow, Bound;
    if i < |bind| {
      var f := ReadField(s, notFirst, sep, LF);
      FieldSwapped(s, notFirst, sep, r);
      BindSwapped(bind, i, f.z, r);
      ColumnsSwapped(f.next, notFirst || |s| > 0, sep, r, i + 1, bind[i := Bound(f.z)], f.term);
    }
  }

  lemma {:induction false} ExtrasSwapped(s: seq<byte>, sep: byte, r: byte, term: int)
    requires Separator(sep) && RowByte(r, sep)
    ensures SkipExtras(Swapped(s, r), sep, r, Swap(term, r)) == SwapReading(SkipExtras(s, sep, LF, term), r)
    decreases |s|
  {
    hide ReadField, Swapped;
    if term == sep as int {
      var f := ReadField(s, true, sep, LF);
      FieldSwapped(s, true, sep, r);
      if f.term == sep as int {
        ExtrasSwapped(f.next, sep, r, f.term);
      }
    }
  }

  lemma LineSwapped(s: seq<byte>, notFirst: bool, sep: byte, r: byte, bind: seq<Cell>)
    requires Separator(sep) && RowByte(r, sep) && |bind| > 0
    ensures var a, b := ReadLine(Swapped(s, r), notFirst, sep, r, SwapRow(bind, r)),
        ReadLine(s, notFirst, sep, LF, bind);
      a.rows == SwapRows(b.rows, r) && a.bind == SwapRow(b.bind, r) && a.term == Swap(b.term, r)
      && a.next == Swapped(b.next, r)
  {
    hide ReadColumns, SkipExtras, Swapped, SwapRow;
    var c := ReadColumns(s, notFirst, sep, LF, 0, bind, EOF);
    ColumnsSwapped(s, notFirst, sep, r, 0, bind, EOF);
    ExtrasSwapped(c.next, sep, r, c.term);
  }

  /** Importing any file whatever: LF is nothing special. */
  lemma {:induction false} AnyRowSeparator(s: seq<byte>, notFirst: bool, sep: byte, r: byte, bind: seq<Cell>)
    requires Separator(sep) && RowByte(r, sep) && |bind| > 0
    ensures ImportRows(Swapped(s, r), notFirst, sep, r, SwapRow(bind, r))
      == SwapRows(ImportRows(s, notFirst, sep, LF, bind), r)
    decreases |s|
  {
    hide ReadLine, Swapped, SwapRow;
    var b := ReadLine(s, notFirst, sep, LF, bind);
    LineSwapped(s, notFirst, sep, r, bind);
    if b.term != EOF {
      AnyRowSeparator(b.next, true, sep, r, b.bind);
    }
  }
}
