/** CSV as the shell writes it and reads it (section 2 of RFC 4180), and why reading undoes writing. */
module Csv {
  import opened Bytes
  import opened Options

  const QUOTE: byte := 34
  const CR: byte := 13
  const LF: byte := 10
  const EOF: int := -1

  // ----- the writer -----

  /** The table needCsvQuote. */
  predicate NeedsQuote(c: byte) {
    c <= 32 || c == QUOTE || c == 39 || c >= 127
  }

  /** A byte that forces quotes around the field z. Longer separators are only looked for at its start. */
  predicate Forces(z: seq<byte>, i: nat, sep: seq<byte>)
    requires i < |z|
  {
    NeedsQuote(z[i])
    || (|sep| > 0 && z[i] == sep[0] && (|sep| == 1 || (|sep| <= |z| && z[..|sep|] == sep)))
  }

  ghost predicate Quoting(z: seq<byte>, sep: seq<byte>) {
    |z| == 0 || exists i | 0 <= i < |z| :: Forces(z, i, sep)
  }

  ghost function FieldText(z: seq<byte>, sep: seq<byte>): seq<byte> {
    if Quoting(z, sep) then [QUOTE] + Doubled(z, QUOTE) + [QUOTE] else z
  }

  /** The fields of a row with separators between them, then the row separator. */
  ghost function RowText(row: seq<seq<byte>>, sep: seq<byte>, rowSep: seq<byte>): seq<byte> {
    if |row| == 0 then rowSep
    else FieldText(row[0], sep) + (if |row| > 1 then sep else []) + RowText(row[1..], sep, rowSep)
  }

  ghost function TableText(rows: seq<seq<seq<byte>>>, sep: seq<byte>, rowSep: seq<byte>): seq<byte> {
    if |rows| == 0 then [] else RowText(rows[0], sep, rowSep) + TableText(rows[1..], sep, rowSep)
  }

  // ----- the reader -----

  /** One field: None at end of file, the byte that ended it or EOF, and what is left. */
  datatype Reading = Reading(z: Option<seq<byte>>, term: int, next: seq<byte>)

  predicate EndsQuoted(c: int, pc: int, ppc: int, sep: byte, rsep: byte) {
    (c == sep && pc == QUOTE) || (c == rsep && pc == QUOTE) || (c == rsep && pc == CR && ppc == QUOTE)
    || (c == EOF && pc == QUOTE)
  }

  /** The accumulated bytes before the last quote among them. */
  function BeforeLastQuote(z: seq<byte>): seq<byte> {
    if |z| == 0 then [] else if z[|z| - 1] == QUOTE then z[..|z| - 1] else BeforeLastQuote(z[..|z| - 1])
  }

  /** After an opening quote: z is accumulated, pc and ppc are the last two bytes as the reader sees them. */
  function ReadQuoted(s: seq<byte>, z: seq<byte>, pc: int, ppc: int, sep: byte, rsep: byte)
    : (r: Reading)
    ensures r.z.Some? && |r.next| <= |s| && (r.term == EOF || |r.next| < |s|)
    decreases |s|
  {
    var c := if |s| == 0 then EOF else s[0];
    if c == QUOTE && pc == QUOTE then ReadQuoted(s[1..], z, 0, ppc, sep, rsep)
    else if EndsQuoted(c, pc, ppc, sep, rsep) then
      Reading(Some(BeforeLastQuote(z)), c, if |s| == 0 then [] else s[1..])
    else if |s| == 0 then Reading(Some(z), EOF, [])
    else ReadQuoted(s[1..], z + [s[0]], s[0], pc, sep, rsep)
  }

  function WithoutCR(z: seq<byte>): seq<byte> {
    if |z| > 0 && z[|z| - 1] == CR then z[..|z| - 1] else z
  }

  function ReadPlain(s: seq<byte>, z: seq<byte>, sep: byte, rsep: byte): (r: Reading)
    ensures r.z.Some? && |r.next| <= |s| && (|s| > 0 ==> |r.next| < |s|) && (r.term != EOF ==> |s| > 0)
    decreases |s|
  {
    if |s| == 0 then Reading(Some(z), EOF, [])
    else if s[0] == rsep then Reading(Some(WithoutCR(z)), rsep, s[1..])
    else if s[0] == sep then Reading(Some(z), sep, s[1..])
    else ReadPlain(s[1..], z + [s[0]], sep, rsep)
  }

  predicate StartsWithBom(s: seq<byte>) {
    |s| >= 3 && s[0] == 0xEF && s[1] == 0xBB && s[2] == 0xBF
  }

  /** csv_read_one_field */
  function ReadField(s: seq<byte>, notFirst: bool, sep: byte, rsep: byte): (r: Reading)
    ensures |r.next| <= |s| && (r.term == EOF || |r.next| < |s|) && (r.z.None? ==> r.term == EOF)
    decreases |s|
  {
    if |s| == 0 then Reading(None, EOF, [])
    else if s[0] == QUOTE then ReadQuoted(s[1..], [], 0, 0, sep, rsep)
    else if !notFirst && StartsWithBom(s) then ReadField(s[3..], true, sep, rsep)
    else ReadPlain(s, [], sep, rsep)
  }

  // ----- what the reader does to the writer's output -----

  /** A separator .import accepts and the reader can tell from quotes and line ends. */
  predicate Separator(sep: byte) {
    0 < sep < 128 && sep != QUOTE && sep != CR && sep != LF
  }

  /** What may follow a field: nothing, a column separator, or LF or CR LF and more. */
  ghost predicate Ends(tail: seq<byte>, sep: byte, term: int, rest: seq<byte>) {
    || (tail == [] && term == EOF && rest == [])
    || (tail == [sep] + rest && term == sep)
    || (tail == [LF] + rest && term == LF)
    || (tail == [CR, LF] + rest && term == LF)
  }

  lemma ClosingQuote(z: seq<byte>, tail: seq<byte>, pc: int, ppc: int, sep: byte, term: int, rest: seq<byte>)
    requires Separator(sep) && Ends(tail, sep, term, rest) && pc != QUOTE && !(pc == CR && ppc == QUOTE)
    ensures ReadQuoted([QUOTE] + tail, z, pc, ppc, sep, LF) == Reading(Some(z), term, rest)
  {
    var zq := z + [QUOTE];
    assert ([QUOTE] + tail)[1..] == tail;
    assert ReadQuoted([QUOTE] + tail, z, pc, ppc, sep, LF) == ReadQuoted(tail, zq, QUOTE, pc, sep, LF);
    assert BeforeLastQuote(zq) == z;
    if |tail| > 1 && tail[0] == CR && tail[1] == LF {
      var zqc := zq + [CR];
      assert zqc[..|zqc| - 1] == zq;
      assert BeforeLastQuote(zqc) == z;
      assert tail[1..][1..] == rest;
      assert ReadQuoted(tail, zq, QUOTE, pc, sep, LF) == ReadQuoted(tail[1..], zqc, CR, QUOTE, sep, LF);
    }
  }

  /** Inside a field a doubled quote is one quote. */
  lemma QuotePair(t: seq<byte>, z: seq<byte>, pc: int, ppc: int, sep: byte)
    requires Separator(sep) && pc != QUOTE && !(pc == CR && ppc == QUOTE)
    ensures ReadQuoted([QUOTE, QUOTE] + t, z, pc, ppc, sep, LF) == ReadQuoted(t, z + [QUOTE], 0, pc, sep, LF)
  {
  }

  /** Any other byte is content. */
  lemma ContentByte(c: byte, t: seq<byte>, z: seq<byte>, pc: int, ppc: int, sep: byte)
    requires c != QUOTE && pc != QUOTE && !(pc == CR && ppc == QUOTE)
    ensures ReadQuoted([c] + t, z, pc, ppc, sep, LF) == ReadQuoted(t, z + [c], c, pc, sep, LF)
  {
  }

  /** The pc and ppc bookkeeping never mistakes content for the end of a quoted field. */
  lemma {:induction false} QuotedBack(
    f: seq<byte>, z: seq<byte>, tail: seq<byte>, pc: int, ppc: int, sep: byte, term: int, rest: seq<byte>)
    requires Separator(sep) && Ends(tail, sep, term, rest) && pc != QUOTE && !(pc == CR && ppc == QUOTE)
    ensures ReadQuoted(Doubled(f, QUOTE) + [QUOTE] + tail, z, pc, ppc, sep, LF) == Reading(Some(z + f), term, rest)
    decreases |f|
  {
    hide ReadQuoted, Ends;
    var s := Doubled(f, QUOTE) + [QUOTE] + tail;
    if |f| == 0 {
      assert s == [QUOTE] + tail && z + f == z;
      ClosingQuote(z, tail, pc, ppc, sep, term, rest);
    } else {
      DoubledStep(f, QUOTE);
      hide Doubled;
      var t := Doubled(f[1..], QUOTE) + [QUOTE] + tail;
      assert z + [f[0]] + f[1..] == z + f;
      if f[0] == QUOTE {
        assert s == [QUOTE, QUOTE] + t;
        QuotePair(t, z, pc, ppc, sep);
        QuotedBack(f[1..], z + [QUOTE], tail, 0, pc, sep, term, rest);
      } else {
        assert s == [f[0]] + t;
        ContentByte(f[0], t, z, pc, ppc, sep);
        QuotedBack(f[1..], z + [f[0]], tail, f[0], pc, sep, term, rest);
      }
    }
  }

  lemma {:induction false} PlainBack(
    f: seq<byte>, z: seq<byte>, tail: seq<byte>, sep: byte, term: int, rest: seq<byte>)
    requires Separator(sep) && Ends(tail, sep, term, rest) && |z + f| > 0 && (z + f)[|z + f| - 1] != CR
    requires forall i | 0 <= i < |f| :: f[i] != sep && f[i] != LF
    ensures ReadPlain(f + tail, z, sep, LF) == Reading(Some(z + f), term, rest)
    decreases |f|
  {
    var s := f + tail;
    if |f| == 0 {
      assert s == tail && z + f == z;
      if |tail| > 1 && tail[0] == CR && tail[1] == LF {
        assert WithoutCR(z + [CR]) == z;
        assert tail[1..][1..] == rest;
        assert ReadPlain(tail, z, sep, LF) == ReadPlain(tail[1..], z + [CR], sep, LF);
      }
    } else {
      assert s[0] == f[0] && s[1..] == f[1..] + tail && z + [f[0]] + f[1..] == z + f;
      PlainBack(f[1..], z + [f[0]], tail, sep, term, rest);
    }
  }

  lemma UnquotedIsPlain(f: seq<byte>, sep: byte)
    requires !Quoting(f, [sep])
    ensures |f| > 0 && forall i | 0 <= i < |f| :: !NeedsQuote(f[i]) && f[i] != sep
  {
    forall i | 0 <= i < |f| ensures !NeedsQuote(f[i]) && f[i] != sep {
      assert !Forces(f, i, [sep]);
    }
  }

  /** A field that does not start with a quote or a byte-order mark is read as it stands. */
  lemma PlainField(s: seq<byte>, notFirst: bool, sep: byte)
    requires |s| > 0 && s[0] != QUOTE && s[0] < 0xEF
    ensures ReadField(s, notFirst, sep, LF) == ReadPlain(s, [], sep, LF)
  {
  }

  /** A written field is read back whole, with the right terminator, wherever it stands. */
  lemma FieldRoundTrip(f: seq<byte>, notFirst: bool, tail: seq<byte>, sep: byte, term: int, rest: seq<byte>)
    requires Separator(sep) && Ends(tail, sep, term, rest)
    ensures ReadField(FieldText(f, [sep]) + tail, notFirst, sep, LF) == Reading(Some(f), term, rest)
  {
    hide ReadQuoted, ReadPlain, Ends, Doubled, Quoting;
    var s := FieldText(f, [sep]) + tail;
    assert [] + f == f;
    if Quoting(f, [sep]) {
      assert s[0] == QUOTE && s[1..] == Doubled(f, QUOTE) + [QUOTE] + tail;
      QuotedBack(f, [], tail, 0, 0, sep, term, rest);
    } else {
      UnquotedIsPlain(f, sep);
      PlainField(s, notFirst, sep);
      PlainBack(f, [], tail, sep, term, rest);
    }
  }

  // ----- rows -----

  type Cell = Option<seq<byte>>

  /** What sqlite3_bind_text stores for a buffer passed with length -1. */
  function CString(z: seq<byte>): seq<byte> {
    if |z| == 0 || z[0] == 0 then [] else [z[0]] + CString(z[1..])
  }

  function Bound(z: Cell): Cell {
    if z.None? then None else Some(CString(z.value))
  }

  function Nulls(n: nat): (b: seq<Cell>)
    ensures |b| == n
  {
    seq(n, _ => None)
  }

  /** One turn of the row loop: whether a row is inserted, the bindings, the last terminator, what is left. */
  datatype RowReading = RowReading(complete: bool, bind: seq<Cell>, term: int, next: seq<byte>)

  /** Columns i, i + 1, ... of a row; a row that ends early is filled with NULL. */
  function ReadColumns(s: seq<byte>, notFirst: bool, sep: byte, rsep: byte, i: nat, bind: seq<Cell>, term: int)
    : (r: RowReading)
    requires i <= |bind|
    ensures |r.bind| == |bind| && |r.next| <= |s| && (!r.complete ==> r.term == EOF)
    ensures i == |bind| || r.term == EOF || |r.next| < |s|
    decreases |bind| - i
  {
    if i == |bind| then RowReading(true, bind, term, s)
    else
      var f := ReadField(s, notFirst, sep, rsep);
      if f.z.None? && i == 0 then RowReading(false, bind, f.term, f.next)
      else
        var b := bind[i := Bound(f.z)];
        if i < |bind| - 1 && f.term != sep then
          RowReading(true, b[..i + 1] + Nulls(|bind| - i - 1), f.term, f.next)
        else ReadColumns(f.next, notFirst || |s| > 0, sep, rsep, i + 1, b, f.term)
  }

  /** Surplus fields up to the end of the line. */
  function SkipExtras(s: seq<byte>, sep: byte, rsep: byte, term: int): (r: Reading)
    ensures |r.next| <= |s| && r.term != sep
    ensures r.term == EOF || |r.next| < |s| || (r.next == s && term != sep)
    decreases |s|
  {
    if term != sep then Reading(None, term, s)
    else
      var f := ReadField(s, true, sep, rsep);
      if f.term != sep then Reading(None, f.term, f.next) else SkipExtras(f.next, sep, rsep, f.term)
  }

  /** One turn of the row loop: at most one row, the bindings kept, and where reading stopped. */
  datatype LineReading = LineReading(rows: seq<seq<Cell>>, bind: seq<Cell>, term: int, next: seq<byte>)

  function ReadLine(s: seq<byte>, notFirst: bool, sep: byte, rsep: byte, bind: seq<Cell>): (r: LineReading)
    requires |bind| > 0
    ensures |r.bind| == |bind| && (r.term == EOF || |r.next| < |s|)
  {
    var r := ReadColumns(s, notFirst, sep, rsep, 0, bind, EOF);
    var e := SkipExtras(r.next, sep, rsep, r.term);
    LineReading(if r.complete then [r.bind] else [], r.bind, e.term, e.next)
  }

  /** All rows .import inserts; bindings stay from row to row. */
  function ImportRows(s: seq<byte>, notFirst: bool, sep: byte, rsep: byte, bind: seq<Cell>): seq<seq<Cell>>
    requires |bind| > 0
    decreases |s|
  {
    var r := ReadLine(s, notFirst, sep, rsep, bind);
    if r.term == EOF then r.rows else r.rows + ImportRows(r.next, true, sep, rsep, r.bind)
  }

  ghost predicate Storable(z: seq<byte>) {
    0 !in z
  }

  ghost predicate Line(rowSep: seq<byte>) {
    rowSep == [LF] || rowSep == [CR, LF]
  }

  function Somes(row: seq<seq<byte>>): (b: seq<Cell>)
    ensures |b| == |row|
  {
    seq(|row|, i requires 0 <= i < |row| => Some(row[i]))
  }

  lemma {:induction false} CStringWhole(z: seq<byte>)
    requires Storable(z)
    ensures CString(z) == z
  {
    if |z| > 0 {
      CStringWhole(z[1..]);
      assert [z[0]] + z[1..] == z;
    }
  }

  /** The rest of a row, from column i on. */
  lemma {:induction false} ColumnsBack(
    row: seq<seq<byte>>, i: nat, more: seq<byte>, notFirst: bool, sep: byte, rowSep: seq<byte>, bind: seq<Cell>,
    term: int)
    requires Separator(sep) && Line(rowSep) && i < |row| == |bind|
    requires forall k | 0 <= k < |row| :: Storable(row[k])
    requires bind[..i] == Somes(row)[..i]
    ensures ReadColumns(RowText(row[i..], [sep], rowSep) + more, notFirst, sep, LF, i, bind, term)
      == RowReading(true, Somes(row), LF, more)
    decreases |row| - i
  {
    hide ReadField, FieldText, Storable;
    var s := RowText(row[i..], [sep], rowSep) + more;
    var f := FieldText(row[i], [sep]);
    var b := bind[i := Some(row[i])];
    CStringWhole(row[i]);
    assert row[i..][1..] == row[i + 1..];
    assert b[..i + 1] == Somes(row)[..i + 1];
    if i + 1 < |row| {
      var rest := RowText(row[i + 1..], [sep], rowSep) + more;
      assert s == f + ([sep] + rest);
      FieldRoundTrip(row[i], notFirst, [sep] + rest, sep, sep as int, rest);
      ColumnsBack(row, i + 1, more, notFirst || |s| > 0, sep, rowSep, b, sep as int);
    } else {
      assert s == f + (rowSep + more);
      FieldRoundTrip(row[i], notFirst, rowSep + more, sep, LF as int, more);
      assert b == Somes(row);
    }
  }

  /** Importing what the writer wrote gives the table back, row for row and field for field. */
  lemma {:induction false} TableRoundTrip(
    rows: seq<seq<seq<byte>>>, notFirst: bool, sep: byte, rowSep: seq<byte>, bind: seq<Cell>)
    requires Separator(sep) && Line(rowSep) && |bind| > 0
    requires forall k | 0 <= k < |rows| :: |rows[k]| == |bind| && forall j | 0 <= j < |rows[k]| :: Storable(rows[k][j])
    ensures ImportRows(TableText(rows, [sep], rowSep), notFirst, sep, LF, bind)
      == seq(|rows|, k requires 0 <= k < |rows| => Somes(rows[k]))
  {
    hide ReadColumns, RowText, Storable;
    if |rows| == 0 {
      NoColumns(notFirst, sep, bind);
    } else {
      var more := TableText(rows[1..], [sep], rowSep);
      var s := RowText(rows[0], [sep], rowSep) + more;
      assert rows[0][0..] == rows[0];
      ColumnsBack(rows[0], 0, more, notFirst, sep, rowSep, bind, EOF);
      TableRoundTrip(rows[1..], true, sep, rowSep, Somes(rows[0]));
      var want := seq(|rows|, k requires 0 <= k < |rows| => Somes(rows[k]));
      var tail := seq(|rows| - 1, k requires 0 <= k < |rows| - 1 => Somes(rows[1..][k]));
      assert want == [Somes(rows[0])] + tail;
      assert |more| < |s|;
    }
  }

  lemma NoColumns(notFirst: bool, sep: byte, bind: seq<Cell>)
    requires |bind| > 0
    ensures ReadColumns([], notFirst, sep, LF, 0, bind, EOF) == RowReading(false, bind, EOF, [])
  {
  }
}
