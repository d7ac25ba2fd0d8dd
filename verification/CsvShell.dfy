/** The shell's CSV output mode and its .import command, as they run: one byte at a time over streams. */
module CsvShell {
  import opened Bytes
  import opened Csv
  import opened Options

  class ShellState {
    var out: seq<byte>
    var colSeparator: seq<byte>
    var rowSeparator: seq<byte>
    var nullValue: seq<byte>
    var showHeader: bool
    var cnt: nat

    constructor (colSeparator: seq<byte>, rowSeparator: seq<byte>, nullValue: seq<byte>, showHeader: bool)
      ensures out == [] && cnt == 0
      ensures this.colSeparator == colSeparator && this.rowSeparator == rowSeparator
      ensures this.nullValue == nullValue && this.showHeader == showHeader
    {
      out, cnt := [], 0;
      this.colSeparator, this.rowSeparator := colSeparator, rowSeparator;
      this.nullValue, this.showHeader := nullValue, showHeader;
    }

    /** The scan of output_csv: zero when the field has to be quoted. */
    method Scan(z: seq<byte>) returns (i: nat)
      ensures i == 0 <==> Quoting(z, colSeparator)
    {
      i := 0;
      while i < |z|
        invariant i <= |z| && forall k | 0 <= k < i :: !Forces(z, k, colSeparator)
      {
        if Forces(z, i, colSeparator) {
          return 0;
        }
        i := i + 1;
      }
    }

    method PutQuoted(z: seq<byte>)
      modifies this`out
      ensures out == old(out) + ([QUOTE] + Doubled(z, QUOTE) + [QUOTE])
    {
      out := out + [QUOTE];
      var i := 0;
      assert z[0..] == z;
      while i < |z|
        invariant i <= |z| && out + Doubled(z[i..], QUOTE) == old(out) + ([QUOTE] + Doubled(z, QUOTE))
      {
        ghost var before := out;
        assert z[i..][1..] == z[i + 1..];
        if z[i] == QUOTE {
          out := out + [QUOTE];
        }
        out := out + [z[i]];
        assert out + Doubled(z[i + 1..], QUOTE) == before + Doubled(z[i..], QUOTE);
        i := i + 1;
      }
      assert out == old(out) + ([QUOTE] + Doubled(z, QUOTE));
      out := out + [QUOTE];
    }

    /** output_csv */
    method OutputCsv(z: Cell, bSep: bool)
      modifies this`out
      ensures out == old(out) + CellText(z, colSeparator, nullValue) + (if bSep then colSeparator else [])
    {
      if z.None? {
        out := out + nullValue;
      } else {
        var i := Scan(z.value);
        if i == 0 {
          PutQuoted(z.value);
        } else {
          out := out + z.value;
        }
      }
      if bSep {
        out := out + colSeparator;
      }
    }

    method PutRow(row: seq<Cell>)
      modifies this`out
      ensures out == old(out) + CellsText(row, colSeparator, rowSeparator, nullValue)
    {
      hide CellText, CellsText;
      var i := 0;
      assert row[0..] == row;
      while i < |row|
        invariant i <= |row|
        invariant old(out) + CellsText(row, colSeparator, rowSeparator, nullValue)
          == out + CellsText(row[i..], colSeparator, rowSeparator, nullValue)
      {
        ghost var before := out;
        OutputCsv(row[i], i < |row| - 1);
        CellsStep(row, i, colSeparator, rowSeparator, nullValue);
        i := i + 1;
      }
      CellsEnd(row, colSeparator, rowSeparator, nullValue);
      out := out + rowSeparator;
    }

    /** The callback for one result row in CSV mode. */
    method Callback(azArg: seq<Cell>, azCol: seq<seq<byte>>)
      modifies this`out, this`cnt
      ensures cnt == old(cnt) + 1
      ensures out == old(out)
        + (if old(cnt) == 0 && showHeader then RowText(azCol, colSeparator, rowSeparator) else [])
        + (if |azArg| > 0 then CellsText(azArg, colSeparator, rowSeparator, nullValue) else [])
    {
      if cnt == 0 && showHeader {
        CellsAreFields(azCol, colSeparator, rowSeparator, nullValue);
        PutRow(Somes(azCol));
      }
      cnt := cnt + 1;
      if |azArg| > 0 {
        PutRow(azArg);
      }
    }

    /** The row loop of exec_prepared_stmt: everything one query adds to the output. */
    method ExecRows(azCol: seq<seq<byte>>, rows: seq<seq<Cell>>)
      requires cnt == 0 && |azCol| > 0 && forall k | 0 <= k < |rows| :: |rows[k]| == |azCol|
      modifies this`out, this`cnt
      ensures cnt == |rows|
      ensures out == old(out) + ResultText(Shown(azCol, rows, showHeader), colSeparator, rowSeparator, nullValue)
    {
      hide ResultText, RowText, Shown, CellsText;
      var i := 0;
      ShownNothing(azCol, showHeader, colSeparator, rowSeparator, nullValue);
      assert rows[..0] == [];
      while i < |rows|
        invariant i <= |rows| && cnt == i
        invariant out == old(out)
          + ResultText(Shown(azCol, rows[..i], showHeader), colSeparator, rowSeparator, nullValue)
      {
        ShownMore(azCol, rows[..i], rows[i], showHeader, colSeparator, rowSeparator, nullValue);
        assert rows[..i + 1] == rows[..i] + [rows[i]];
        Callback(rows[i], azCol);
        i := i + 1;
      }
      assert rows[..|rows|] == rows;
    }
  }

  /** The header, if wanted and there are rows, and the rows. */
  function Shown(azCol: seq<seq<byte>>, rows: seq<seq<Cell>>, header: bool): seq<seq<Cell>> {
    if |rows| == 0 then [] else (if header then [Somes(azCol)] else []) + rows
  }

  ghost function ResultText(rows: seq<seq<Cell>>, sep: seq<byte>, rowSep: seq<byte>, nullValue: seq<byte>): seq<byte> {
    if |rows| == 0 then []
    else CellsText(rows[0], sep, rowSep, nullValue) + ResultText(rows[1..], sep, rowSep, nullValue)
  }

  lemma ShownNothing(azCol: seq<seq<byte>>, header: bool, sep: seq<byte>, rowSep: seq<byte>, nullValue: seq<byte>)
    ensures ResultText(Shown(azCol, [], header), sep, rowSep, nullValue) == []
  {
  }

  lemma ShownMore(azCol: seq<seq<byte>>, rows: seq<seq<Cell>>, row: seq<Cell>, header: bool, sep: seq<byte>,
                  rowSep: seq<byte>, nullValue: seq<byte>)
    ensures ResultText(Shown(azCol, rows + [row], header), sep, rowSep, nullValue)
      == ResultText(Shown(azCol, rows, header), sep, rowSep, nullValue)
        + (if |rows| == 0 && header then RowText(azCol, sep, rowSep) else []) + CellsText(row, sep, rowSep, nullValue)
  {
    ShownNothing(azCol, header, sep, rowSep, nullValue);
    hide CellsText, ResultText, RowText, Somes;
    if |rows| == 0 {
      var none: seq<seq<Cell>> := [];
      assert rows == none && none + [row] == [row];
      ResultSnoc(none, row, sep, rowSep, nullValue);
      ShownNothing(azCol, false, sep, rowSep, nullValue);
      if header {
        CellsAreFields(azCol, sep, rowSep, nullValue);
        ResultSnoc([Somes(azCol)], row, sep, rowSep, nullValue);
        ResultSnoc(none, Somes(azCol), sep, rowSep, nullValue);
        assert none + [Somes(azCol)] == [Somes(azCol)];
      }
    } else {
      var before := Shown(azCol, rows, header);
      ResultSnoc(before, row, sep, rowSep, nullValue);
      assert Shown(azCol, rows + [row], header) == before + [row];
    }
  }

  lemma {:induction false} ResultSnoc(
    rows: seq<seq<Cell>>, row: seq<Cell>, sep: seq<byte>, rowSep: seq<byte>, nullValue: seq<byte>)
    ensures ResultText(rows + [row], sep, rowSep, nullValue)
      == ResultText(rows, sep, rowSep, nullValue) + CellsText(row, sep, rowSep, nullValue)
  {
    hide CellsText;
    if |rows| == 0 {
      assert rows + [row] == [row];
      assert [row][1..] == [];
    } else {
      ResultSnoc(rows[1..], row, sep, rowSep, nullValue);
      assert (rows + [row])[1..] == rows[1..] + [row];
    }
  }

  function SomeRows(rows: seq<seq<seq<byte>>>): seq<seq<Cell>> {
    seq(|rows|, k requires 0 <= k < |rows| => Somes(rows[k]))
  }

  /** A result without NULL cells is the text of a table of fields, the header its first row. */
  lemma {:induction false} ResultIsTable(
    rows: seq<seq<seq<byte>>>, sep: seq<byte>, rowSep: seq<byte>, nullValue: seq<byte>)
    ensures ResultText(SomeRows(rows), sep, rowSep, nullValue) == TableText(rows, sep, rowSep)
  {
    hide CellsText, RowText;
    if |rows| > 0 {
      CellsAreFields(rows[0], sep, rowSep, nullValue);
      ResultIsTable(rows[1..], sep, rowSep, nullValue);
      assert SomeRows(rows)[1..] == SomeRows(rows[1..]);
    }
  }

  /** Printed and imported again, a result without NULL cells comes back cell for cell, its header as the first row. */
  lemma ResultRoundTrip(
    azCol: seq<seq<byte>>, rows: seq<seq<seq<byte>>>, header: bool, sep: byte, rowSep: seq<byte>, nullValue: seq<byte>,
    bind: seq<Cell>)
    requires Separator(sep) && Line(rowSep) && |bind| == |azCol| > 0
    requires forall j | 0 <= j < |azCol| :: Storable(azCol[j])
    requires forall k | 0 <= k < |rows| :: |rows[k]| == |azCol| && forall j | 0 <= j < |rows[k]| :: Storable(rows[k][j])
    ensures var shown := Shown(azCol, SomeRows(rows), header);
      ImportRows(ResultText(shown, [sep], rowSep, nullValue), false, sep, LF, bind) == shown
  {
    hide Storable, ImportRows, ResultText, TableText;
    var t := if |rows| == 0 then [] else (if header then [azCol] else []) + rows;
    assert Shown(azCol, SomeRows(rows), header) == SomeRows(t);
    ResultIsTable(t, [sep], rowSep, nullValue);
    TableRoundTrip(t, false, sep, rowSep, bind);
  }

  /** Between its separators a NULL cell is the null value as it is, never quoted. */
  lemma NullPrinted(row: seq<Cell>, i: nat, sep: seq<byte>, rowSep: seq<byte>, nullValue: seq<byte>)
    requires i < |row| && row[i].None?
    ensures CellsText(row[i..], sep, rowSep, nullValue)
      == if i + 1 < |row| then nullValue + (sep + CellsText(row[i + 1..], sep, rowSep, nullValue))
        else nullValue + rowSep
  {
    CellsStep(row, i, sep, rowSep, nullValue);
    if i + 1 == |row| {
      CellsEnd(row, sep, rowSep, nullValue);
    }
    hide CellsText;
  }

  ghost function CellText(z: Cell, sep: seq<byte>, nullValue: seq<byte>): seq<byte> {
    if z.None? then nullValue else FieldText(z.value, sep)
  }

  ghost function CellsText(row: seq<Cell>, sep: seq<byte>, rowSep: seq<byte>, nullValue: seq<byte>): seq<byte> {
    if |row| == 0 then rowSep
    else
      CellText(row[0], sep, nullValue) + (if |row| > 1 then sep else [])
      + CellsText(row[1..], sep, rowSep, nullValue)
  }

  lemma CellsStep(row: seq<Cell>, i: nat, sep: seq<byte>, rowSep: seq<byte>, nullValue: seq<byte>)
    requires i < |row|
    ensures CellsText(row[i..], sep, rowSep, nullValue)
      == CellText(row[i], sep, nullValue) + (if i < |row| - 1 then sep else [])
        + CellsText(row[i + 1..], sep, rowSep, nullValue)
  {
  }

  lemma CellsEnd(row: seq<Cell>, sep: seq<byte>, rowSep: seq<byte>, nullValue: seq<byte>)
    ensures CellsText(row[|row|..], sep, rowSep, nullValue) == rowSep
  {
  }

  lemma {:induction false} CellsAreFields(row: seq<seq<byte>>, sep: seq<byte>, rowSep: seq<byte>, nullValue: seq<byte>)
    ensures CellsText(Somes(row), sep, rowSep, nullValue) == RowText(row, sep, rowSep)
  {
    hide FieldText;
    if |row| > 0 {
      CellsAreFields(row[1..], sep, rowSep, nullValue);
      assert Somes(row)[1..] == Somes(row[1..]);
    }
  }

  /** How many row separators are still to come. */
  function Lines(s: seq<byte>, rsep: byte): nat {
    if |s| == 0 then 0 else (if s[0] == rsep then 1 else 0) + Lines(s[1..], rsep)
  }

  class ImportCtx {
    var input: seq<byte>
    var z: seq<byte>
    var nLine: nat
    var bNotFirst: bool
    var cTerm: int
    var cColSep: byte
    var cRowSep: byte

    constructor (file: seq<byte>, cColSep: byte, cRowSep: byte)
      ensures input == file && nLine == 1 && !bNotFirst
      ensures this.cColSep == cColSep && this.cRowSep == cRowSep
    {
      input, z, nLine, bNotFirst, cTerm := file, [], 1, false, 0;
      this.cColSep, this.cRowSep := cColSep, cRowSep;
    }

    ghost predicate Ascii()
      reads this
    {
      0 < cColSep < 128 && 0 < cRowSep < 128
    }

    /** Lines read plus lines to come. */
    ghost function AllLines(): nat
      reads this
    {
      nLine + Lines(input, cRowSep)
    }

    method GetC() returns (c: int)
      modifies this`input
      ensures if old(input) == [] then c == EOF && input == [] else c == old(input)[0] && input == old(input)[1..]
    {
      if |input| == 0 {
        c := EOF;
      } else {
        c := input[0];
        input := input[1..];
      }
    }

    method AppendChar(c: byte)
      modifies this`z
      ensures z == old(z) + [c]
    {
      z := z + [c];
    }

    /** The do-while that walks back to the closing quote. */
    method DropToQuote()
      requires QUOTE in z
      modifies this`z
      ensures z == BeforeLastQuote(old(z))
    {
      var last := z[|z| - 1];
      z := z[..|z| - 1];
      while last != QUOTE
        invariant last == QUOTE || QUOTE in z
        invariant BeforeLastQuote(old(z)) == if last == QUOTE then z else BeforeLastQuote(z)
        decreases |z|
      {
        last := z[|z| - 1];
        z := z[..|z| - 1];
      }
    }

    /** The branch of csv_read_one_field for a field that opened with a quote. */
    method ReadQuotedField()
      requires Ascii() && z == []
      modifies this`input, this`z, this`nLine, this`cTerm
      ensures Reading(Some(z), cTerm, input) == ReadQuoted(old(input), [], 0, 0, cColSep, cRowSep)
      ensures AllLines() == old(AllLines())
    {
      var pc, ppc: int := 0, 0;
      while true
        invariant ReadQuoted(input, z, pc, ppc, cColSep, cRowSep) == ReadQuoted(old(input), [], 0, 0, cColSep, cRowSep)
        invariant AllLines() == old(AllLines())
        invariant pc == QUOTE ==> |z| > 0 && z[|z| - 1] == QUOTE
        invariant pc == CR && ppc == QUOTE ==> QUOTE in z
        decreases |input|
      {
        var c := GetC();
        if c == cRowSep {
          nLine := nLine + 1;
        }
        if c == QUOTE {
          if pc == QUOTE {
            pc := 0;
            continue;
          }
        }
        if (c == cColSep && pc == QUOTE) || (c == cRowSep && pc == QUOTE)
          || (c == cRowSep && pc == CR && ppc == QUOTE) || (c == EOF && pc == QUOTE) {
          DropToQuote();
          cTerm := c;
          break;
        }
        if c == EOF {
          cTerm := c;
          break;
        }
        AppendChar(c);
        ppc := pc;
        pc := c;
      }
    }

    /** The loop of csv_read_one_field for an unquoted field; c is the byte just read. */
    method ReadPlainField(first: int)
      requires Ascii() && EOF <= first < 256 && (first == EOF ==> input == [])
      modifies this`input, this`z, this`nLine, this`cTerm
      ensures Reading(Some(z), cTerm, input) == ReadPlain(Unread(first, old(input)), old(z), cColSep, cRowSep)
      ensures AllLines() == old(nLine) + Lines(Unread(first, old(input)), cRowSep)
    {
      var c := first;
      while c != EOF && c != cColSep && c != cRowSep
        invariant EOF <= c < 256 && (c == EOF ==> input == []) && nLine == old(nLine)
        invariant ReadPlain(Unread(c, input), z, cColSep, cRowSep)
          == ReadPlain(Unread(first, old(input)), old(z), cColSep, cRowSep)
        invariant Lines(Unread(c, input), cRowSep) == Lines(Unread(first, old(input)), cRowSep)
        decreases |Unread(c, input)|
      {
        assert Unread(c, input)[1..] == input;
        AppendChar(c);
        c := GetC();
      }
      if c == cRowSep {
        nLine := nLine + 1;
        if |z| > 0 && z[|z| - 1] == CR {
          z := z[..|z| - 1];
        }
      }
      cTerm := c;
    }

    /** After a first byte 0xEF: the rest of a byte-order mark, or the bytes read in looking for it. */
    method SkipMark() returns (bom: bool, c: int)
      requires z == []
      modifies this`input, this`z
      ensures EOF <= c < 256 && (c == EOF ==> input == [])
      ensures var s := [0xEF] + old(input);
        && bom == StartsWithBom(s) && (bom ==> input == s[3..])
        && (!bom ==> s == z + Unread(c, input) && (z == [0xEF] || z == [0xEF, 0xBB]))
    {
      bom := false;
      AppendChar(0xEF);
      c := GetC();
      GotC(old(input), c, input);
      hide Unread, StartsWithBom;
      if c == 0xBB {
        SecondOfMark(old(input), input);
        AppendChar(c);
        ghost var rest := input;
        c := GetC();
        GotC(rest, c, input);
        ThirdOfMark(old(input), rest, c, input);
        bom := c == 0xBF;
      } else {
        NoMark(old(input), c, input);
      }
    }

    /** csv_read_one_field */
    method ReadOneField() returns (r: Cell)
      requires Ascii()
      modifies this`input, this`z, this`nLine, this`cTerm, this`bNotFirst
      ensures Reading(r, cTerm, input) == ReadField(old(input), old(bNotFirst), cColSep, cRowSep)
      ensures bNotFirst == (old(bNotFirst) || old(input) != [])
      ensures cRowSep != QUOTE ==> AllLines() == old(AllLines())
      decreases |input|
    {
      hide ReadQuoted, ReadPlain, Lines;
      ghost var s := input;
      z := [];
      var c := GetC();
      if c == EOF {
        cTerm := EOF;
        return None;
      }
      if c == QUOTE {
        LinesAfterQuote(s, cRowSep);
        ReadQuotedField();
      } else {
        assert s == Unread(c, input);
        if c == 0xEF && !bNotFirst {
          var bom;
          bom, c := SkipMark();
          if bom {
            bNotFirst := true;
            z := [];
            LinesAfterBom(s, cRowSep);
            r := ReadOneField();
            return;
          }
        }
        NotBom(s, z, Unread(c, input), cColSep, cRowSep);
        ReadPlainField(c);
      }
      bNotFirst := true;
      r := Some(z);
    }
  }

  lemma GotC(before: seq<byte>, c: int, after: seq<byte>)
    requires if before == [] then c == EOF && after == [] else c == before[0] && after == before[1..]
    ensures EOF <= c < 256 && before == Unread(c, after)
  {
  }

  lemma SecondOfMark(input: seq<byte>, rest: seq<byte>)
    requires input == Unread(0xBB, rest)
    ensures input == [0xBB] + rest
  {
  }

  lemma NoMark(input: seq<byte>, c: int, rest: seq<byte>)
    requires EOF <= c < 256 && c != 0xBB && input == Unread(c, rest) && (c == EOF ==> rest == [])
    ensures !StartsWithBom([0xEF] + input)
  {
  }

  lemma ThirdOfMark(input: seq<byte>, rest: seq<byte>, c: int, after: seq<byte>)
    requires EOF <= c < 256 && input == [0xBB] + rest && rest == Unread(c, after) && (c == EOF ==> after == [])
    ensures c == 0xBF <==> StartsWithBom([0xEF] + input)
    ensures c == 0xBF ==> after == ([0xEF] + input)[3..]
    ensures [0xEF] + input == [0xEF, 0xBB] + Unread(c, after)
  {
    if |rest| > 0 {
      assert ([0xEF] + input)[3..] == rest[1..];
    }
  }

  function Unread(c: int, s: seq<byte>): seq<byte>
    requires EOF <= c < 256
  {
    if c == EOF then s else [c] + s
  }

  lemma LinesAfterQuote(s: seq<byte>, rsep: byte)
    requires |s| > 0 && s[0] == QUOTE
    ensures rsep != QUOTE ==> Lines(s, rsep) == Lines(s[1..], rsep)
  {
  }

  lemma LinesAfterBom(s: seq<byte>, rsep: byte)
    requires StartsWithBom(s) && rsep < 128
    ensures Lines(s, rsep) == Lines(s[3..], rsep)
  {
    assert s[1..][1..] == s[2..] && s[2..][1..] == s[3..];
    assert Lines(s[2..], rsep) == Lines(s[3..], rsep);
  }

  /** Bytes looked at for a byte-order mark are read like any others. */
  lemma NotBom(s: seq<byte>, z: seq<byte>, rest: seq<byte>, sep: byte, rsep: byte)
    requires 0 < sep < 128 && 0 < rsep < 128
    requires s == z + rest && (z == [] || z == [0xEF] || z == [0xEF, 0xBB])
    ensures ReadPlain(s, [], sep, rsep) == ReadPlain(rest, z, sep, rsep)
    ensures Lines(s, rsep) == Lines(rest, rsep)
  {
    if |z| == 2 {
      assert s[1..][1..] == rest && s[0] == z[0] && s[1] == z[1] && [] + [s[0]] + [s[1]] == z;
      assert [] + [s[0]] == [s[0]];
      assert ReadPlain(s, [], sep, rsep) == ReadPlain(s[1..], [s[0]], sep, rsep);
    } else if |z| == 1 {
      assert s[1..] == rest && [] + [s[0]] == z;
    } else {
      assert s == rest;
    }
  }

  /** The column loop of .import: i ends below the column count only when the file ended before the row began. */
  method ImportRow(p: ImportCtx, bind: array<Cell>) returns (i: nat)
    requires p.Ascii()
    modifies p`input, p`z, p`nLine, p`cTerm, p`bNotFirst, bind
    ensures RowReading(i >= bind.Length, bind[..], p.cTerm, p.input)
      == ReadColumns(old(p.input), old(p.bNotFirst), p.cColSep, p.cRowSep, 0, old(bind[..]), old(p.cTerm))
    ensures p.cTerm != EOF && bind.Length > 0 ==> p.bNotFirst
    ensures (p.cRowSep != QUOTE ==> p.AllLines() == old(p.AllLines()))
  {
    i := 0;
    while i < bind.Length
      invariant (p.cRowSep != QUOTE ==> p.AllLines() == old(p.AllLines()))
      invariant i == 0 || p.cTerm == EOF || p.bNotFirst
      invariant ReadColumns(old(p.input), old(p.bNotFirst), p.cColSep, p.cRowSep, 0, old(bind[..]), old(p.cTerm))
        == if i <= bind.Length then ReadColumns(p.input, p.bNotFirst, p.cColSep, p.cRowSep, i, bind[..], p.cTerm)
           else RowReading(true, bind[..], p.cTerm, p.input)
      decreases if i <= bind.Length then bind.Length - i else 0
    {
      hide ReadField;
      ghost var s, flag, before := p.input, p.bNotFirst, bind[..];
      var z := p.ReadOneField();
      if z.None? && i == 0 {
        break;
      }
      bind[i] := Bound(z);
      ghost var b := bind[..];
      assert b == before[i := Bound(z)];
      if i < bind.Length - 1 && p.cTerm != p.cColSep {
        i := i + 2;
        FillNull(bind, i);
        assert bind[..] == b[..i - 1] + Nulls(bind.Length - i + 1);
        i := bind.Length + 1;
      }
      i := i + 1;
    }
  }

  /** Bind NULL to the one-based columns i, i + 1, ... */
  method FillNull(bind: array<Cell>, i: nat)
    requires 2 <= i <= bind.Length
    modifies bind
    ensures bind[..] == old(bind[..i - 1]) + Nulls(bind.Length - i + 1)
  {
    var k := i;
    while k <= bind.Length
      invariant i <= k <= bind.Length + 1
      invariant forall j | 0 <= j < bind.Length :: bind[j] == if i - 1 <= j < k - 1 then None else old(bind[j])
    {
      bind[k - 1] := None;
      k := k + 1;
    }
  }

  /** The row loop of .import: the rows inserted. */
  method Import(p: ImportCtx, nCol: nat) returns (rows: seq<seq<Cell>>)
    requires p.Ascii() && nCol > 0
    modifies p`input, p`z, p`nLine, p`cTerm, p`bNotFirst
    ensures rows == ImportRows(old(p.input), old(p.bNotFirst), p.cColSep, p.cRowSep, Nulls(nCol))
    ensures p.cTerm == EOF && (p.cRowSep != QUOTE ==> p.AllLines() == old(p.AllLines()))
  {
    var bind := new Cell[nCol](_ => None);
    rows := [];
    assert bind[..] == Nulls(nCol);
    while true
      invariant p.cRowSep != QUOTE ==> p.AllLines() == old(p.AllLines())
      invariant rows + ImportRows(p.input, p.bNotFirst, p.cColSep, p.cRowSep, bind[..])
        == ImportRows(old(p.input), old(p.bNotFirst), p.cColSep, p.cRowSep, Nulls(nCol))
      decreases |p.input|
    {
      hide ReadLine, ImportRows, Lines;
      ghost var soFar := rows;
      ImportStep(p.input, p.bNotFirst, p.cColSep, p.cRowSep, bind[..]);
      var inserted := ImportLine(p, bind);
      rows := rows + if inserted then [bind[..]] else [];
      if p.cTerm == EOF {
        break;
      }
      Regroup(soFar, if inserted then [bind[..]] else [],
              ImportRows(p.input, true, p.cColSep, p.cRowSep, bind[..]));
    }
  }

  /** One turn of the row loop. */
  method ImportLine(p: ImportCtx, bind: array<Cell>) returns (inserted: bool)
    requires p.Ascii() && bind.Length > 0
    modifies p`input, p`z, p`nLine, p`cTerm, p`bNotFirst, bind
    ensures LineReading(if inserted then [bind[..]] else [], bind[..], p.cTerm, p.input)
      == ReadLine(old(p.input), old(p.bNotFirst), p.cColSep, p.cRowSep, old(bind[..]))
    ensures p.cTerm != EOF ==> p.bNotFirst
    ensures p.cRowSep != QUOTE ==> p.AllLines() == old(p.AllLines())
  {
    hide ReadField, ReadColumns, SkipExtras;
    TermIrrelevant(p.input, p.bNotFirst, p.cColSep, p.cRowSep, bind[..], p.cTerm, EOF);
    var i := ImportRow(p, bind);
    if p.cTerm == p.cColSep {
      i := SkipRest(p, i);
    } else {
      NoExtras(p.input, p.cColSep, p.cRowSep, p.cTerm);
    }
    inserted := i >= bind.Length;
  }

  lemma ImportStep(s: seq<byte>, notFirst: bool, sep: byte, rsep: byte, bind: seq<Cell>)
    requires |bind| > 0
    ensures var r := ReadLine(s, notFirst, sep, rsep, bind);
      ImportRows(s, notFirst, sep, rsep, bind)
        == if r.term == EOF then r.rows else r.rows + ImportRows(r.next, true, sep, rsep, r.bind)
  {
  }

  lemma TermIrrelevant(s: seq<byte>, notFirst: bool, sep: byte, rsep: byte, bind: seq<Cell>, term: int, term': int)
    requires |bind| > 0
    ensures ReadColumns(s, notFirst, sep, rsep, 0, bind, term) == ReadColumns(s, notFirst, sep, rsep, 0, bind, term')
  {
  }

  lemma NoExtras(s: seq<byte>, sep: byte, rsep: byte, term: int)
    requires term != sep
    ensures SkipExtras(s, sep, rsep, term) == Reading(None, term, s)
  {
  }

  /** Read and drop the surplus fields of a line. */
  method SkipRest(p: ImportCtx, count: nat) returns (i: nat)
    requires p.Ascii() && p.cTerm == p.cColSep && p.bNotFirst
    modifies p`input, p`z, p`nLine, p`cTerm, p`bNotFirst
    ensures Reading(None, p.cTerm, p.input) == SkipExtras(old(p.input), p.cColSep, p.cRowSep, old(p.cTerm))
    ensures i >= count && p.bNotFirst && (p.cRowSep != QUOTE ==> p.AllLines() == old(p.AllLines()))
  {
    i := count;
    while true
      invariant i >= count && p.bNotFirst && p.cTerm == p.cColSep
      invariant p.cRowSep != QUOTE ==> p.AllLines() == old(p.AllLines())
      invariant SkipExtras(p.input, p.cColSep, p.cRowSep, p.cTerm)
        == SkipExtras(old(p.input), p.cColSep, p.cRowSep, old(p.cTerm))
      decreases |p.input|
    {
      hide ReadField;
      var z := p.ReadOneField();
      i := i + 1;
      if p.cTerm != p.cColSep {
        break;
      }
    }
  }
}
