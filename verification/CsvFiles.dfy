/**
 Importing any file of CSV records, not only what the shell writes: fields quoted or bare, rows of any length, line ends
 of either kind, a byte-order mark in front, and a last line without an end.
 */
module CsvFiles {
  import opened Bytes
  import opened Csv
  import opened Options

  /** Inside quotes: a byte, a doubled quote, or a quote neither doubled nor at the end with the byte behind it. */
  datatype Piece = Plain(c: byte) | Pair | Stray(c: byte)

  /** A field as it stands in a file: well quoted, quoted by whatever means and perhaps never closed, or bare. */
  datatype Field = Quoted(z: seq<byte>) | Loose(ps: seq<Piece>, closed: bool) | Bare(z: seq<byte>)

  predicate PieceOk(p: Piece, sep: byte) {
    match p
    case Plain(c) => c != 34
    case Pair => true
    case Stray(c) => c != 34 && c != sep && c != 10 && c != 13
  }

  function PieceText(p: Piece): seq<byte> {
    match p
    case Plain(c) => [c]
    case Pair => [34, 34]
    case Stray(c) => [34, c]
  }

  function PieceContent(p: Piece): seq<byte> {
    match p
    case Plain(c) => [c]
    case Pair => [34]
    case Stray(c) => [34, c]
  }

  function PiecesText(ps: seq<Piece>): seq<byte> {
    if |ps| == 0 then [] else PieceText(ps[0]) + PiecesText(ps[1..])
  }

  function PiecesContent(ps: seq<Piece>): seq<byte> {
    if |ps| == 0 then [] else PieceContent(ps[0]) + PiecesContent(ps[1..])
  }

  function Written(f: Field): (t: seq<byte>)
    ensures f.Quoted? ==> |t| >= 2 && t[0] == 34
    ensures f.Loose? ==> |t| >= 1 && t[0] == 34
  {
    match f
    case Quoted(z) => [34] + Doubled(z, 34) + [34]
    case Loose(ps, closed) => [34] + (PiecesText(ps) + if closed then [34] else [])
    case Bare(z) => z
  }

  /** What the field holds: strays keep their quote, doubled quotes are one. */
  function Content(f: Field): seq<byte> {
    match f
    case Quoted(z) => z
    case Loose(ps, _) => PiecesContent(ps)
    case Bare(z) => z
  }

  /** Bare fields hold no separator and no line end, and do not start with a quote. */
  predicate FieldOk(f: Field, sep: byte) {
    match f
    case Quoted(_) => true
    case Loose(ps, _) => forall i | 0 <= i < |ps| :: PieceOk(ps[i], sep)
    case Bare(z) =>
      && (forall i | 0 <= i < |z| :: z[i] != sep && z[i] != 10)
      && (|z| > 0 ==> z[0] != 34 && z[|z| - 1] != 13)
  }

  /** A quote that is never closed reaches to the end of the file. */
  predicate Closed(f: Field) {
    f.Loose? ==> f.closed
  }

  lemma StrayQuote(c: byte, t: seq<byte>, z: seq<byte>, pc: int, ppc: int, sep: byte)
    requires Separator(sep) && pc != QUOTE && !(pc == CR && ppc == QUOTE) && PieceOk(Stray(c), sep)
    ensures ReadQuoted([34, c] + t, z, pc, ppc, sep, LF) == ReadQuoted(t, z + [34, c], c, QUOTE, sep, LF)
  {
    var s := [34, c] + t;
    assert s[1..][0] == c && s[1..][1..] == t;
    assert z + [34] + [c] == z + [34, c];
    assert ReadQuoted(s, z, pc, ppc, sep, LF) == ReadQuoted(s[1..], z + [34], QUOTE, pc, sep, LF);
  }

  lemma EndedInside(z: seq<byte>, pc: int, ppc: int, sep: byte)
    requires Separator(sep) && pc != QUOTE
    ensures ReadQuoted([], z, pc, ppc, sep, LF) == Reading(Some(z), EOF, [])
  {
  }

  /** The bytes looked back at behind a piece. */
  function Last(p: Piece): int {
    match p
    case Plain(c) => c as int
    case Pair => 0
    case Stray(c) => c as int
  }

  function BeforeLast(p: Piece, pc: int): int {
    if p.Stray? then QUOTE as int else pc
  }

  lemma PieceRead(p: Piece, t: seq<byte>, z: seq<byte>, pc: int, ppc: int, sep: byte)
    requires Separator(sep) && PieceOk(p, sep) && pc != QUOTE && !(pc == CR && ppc == QUOTE)
    ensures ReadQuoted(PieceText(p) + t, z, pc, ppc, sep, LF)
      == ReadQuoted(t, z + PieceContent(p), Last(p), BeforeLast(p, pc), sep, LF)
    ensures Last(p) != QUOTE && !(Last(p) == CR && BeforeLast(p, pc) == QUOTE)
  {
    hide ReadQuoted;
    match p
    case Plain(c) => ContentByte(c, t, z, pc, ppc, sep);
    case Pair => QuotePair(t, z, pc, ppc, sep);
    case Stray(c) => StrayQuote(c, t, z, pc, ppc, sep);
  }

  lemma PiecesSplit(ps: seq<Piece>, z: seq<byte>, more: seq<byte>)
    requires |ps| > 0
    ensures PiecesText(ps) + more == PieceText(ps[0]) + (PiecesText(ps[1..]) + more)
    ensures z + PiecesContent(ps) == z + PieceContent(ps[0]) + PiecesContent(ps[1..])
  {
    hide PieceText, PieceContent;
    assert PiecesText(ps) == PieceText(ps[0]) + PiecesText(ps[1..]);
    assert PiecesContent(ps) == PieceContent(ps[0]) + PiecesContent(ps[1..]);
    hide PiecesText, PiecesContent;
    Regrouped(PieceText(ps[0]), PiecesText(ps[1..]), more);
    Regrouped(z, PieceContent(ps[0]), PiecesContent(ps[1..]));
  }

  lemma Regrouped(a: seq<byte>, b: seq<byte>, c: seq<byte>)
    ensures (a + b) + c == a + (b + c)
  {
  }

  /** Quoted content, piece by piece, up to the closing quote or the end of the file. */
  lemma {:induction false} PiecesBack(
    ps: seq<Piece>, closed: bool, z: seq<byte>, tail: seq<byte>, pc: int, ppc: int, sep: byte, term: int,
    rest: seq<byte>)
    requires Separator(sep) && Ends(tail, sep, term, rest) && pc != QUOTE && !(pc == CR && ppc == QUOTE)
    requires (forall i | 0 <= i < |ps| :: PieceOk(ps[i], sep)) && (closed || tail == [])
    ensures ReadQuoted(PiecesText(ps) + ((if closed then [34] else []) + tail), z, pc, ppc, sep, LF)
      == Reading(Some(z + PiecesContent(ps)), term, rest)
    decreases |ps|
  {
    hide ReadQuoted, Ends, PieceOk, PieceText, PieceContent, Last, BeforeLast, Separator;
    var close := (if closed then [34] else []) + tail;
    if |ps| == 0 {
      assert PiecesText(ps) + close == close && z + PiecesContent(ps) == z;
      if closed {
        ClosingQuote(z, tail, pc, ppc, sep, term, rest);
      } else {
        assert close == [];
        NothingFollows(tail, sep, term, rest);
        EndedInside(z, pc, ppc, sep);
      }
    } else {
      hide PiecesText, PiecesContent;
      var p := ps[0];
      PieceRead(p, PiecesText(ps[1..]) + close, z, pc, ppc, sep);
      PiecesSplit(ps, z, close);
      PiecesBack(ps[1..], closed, z + PieceContent(p), tail, Last(p), BeforeLast(p, pc), sep, term, rest);
    }
  }

  lemma NothingFollows(tail: seq<byte>, sep: byte, term: int, rest: seq<byte>)
    requires Ends(tail, sep, term, rest) && tail == []
    ensures term == EOF && rest == []
  {
  }

  /** A field whose text is empty is not there when nothing follows. */
  predicate Visible(f: Field) {
    |Written(f)| > 0
  }

  lemma BareRead(z: seq<byte>, tail: seq<byte>, sep: byte, term: int, rest: seq<byte>)
    requires Separator(sep) && Ends(tail, sep, term, rest) && FieldOk(Bare(z), sep) && (|z| > 0 || |tail| > 0)
    ensures ReadPlain(z + tail, [], sep, LF) == Reading(Some(z), term, rest)
  {
    assert [] + z == z;
    if |z| > 0 {
      PlainBack(z, [], tail, sep, term, rest);
    } else {
      assert z + tail == tail;
      if |tail| > 1 && tail[0] == CR && tail[1] == LF {
        assert tail[1..][1..] == rest;
        assert ReadPlain(tail, [], sep, LF) == ReadPlain(tail[1..], [CR], sep, LF);
        assert WithoutCR([CR]) == [];
      }
    }
  }

  lemma BomStays(z: seq<byte>, tail: seq<byte>, sep: byte, term: int, rest: seq<byte>)
    requires Separator(sep) && Ends(tail, sep, term, rest)
    ensures StartsWithBom(z + tail) ==> StartsWithBom(z)
  {
  }

  /** A field is read as it stands, unless it could be taken for a byte-order mark. */
  lemma FieldRead(f: Field, notFirst: bool, tail: seq<byte>, sep: byte, term: int, rest: seq<byte>)
    requires Separator(sep) && Ends(tail, sep, term, rest) && FieldOk(f, sep) && (Visible(f) || |tail| > 0)
    requires (notFirst || !StartsWithBom(Written(f))) && (Closed(f) || tail == [])
    ensures ReadField(Written(f) + tail, notFirst, sep, LF) == Reading(Some(Content(f)), term, rest)
  {
    match f
    case Quoted(z) =>
      hide ReadField, FieldOk;
      QuotedRead(z, notFirst, tail, sep, term, rest);
    case Loose(ps, closed) =>
      LooseRead(ps, closed, notFirst, tail, sep, term, rest);
    case Bare(z) =>
      BomStays(z, tail, sep, term, rest);
      BareRead(z, tail, sep, term, rest);
      FirstByte(z, tail, sep, term, rest);
      hide ReadPlain, StartsWithBom, ReadQuoted, FieldOk, Ends;
      PlainChosen(z + tail, notFirst, sep);
  }

  lemma QuotedRead(z: seq<byte>, notFirst: bool, tail: seq<byte>, sep: byte, term: int, rest: seq<byte>)
    requires Separator(sep) && Ends(tail, sep, term, rest)
    ensures ReadField(Written(Quoted(z)) + tail, notFirst, sep, LF) == Reading(Some(z), term, rest)
  {
    hide ReadQuoted, Ends, Doubled;
    var s := Written(Quoted(z)) + tail;
    assert s[0] == QUOTE && s[1..] == Doubled(z, QUOTE) + [QUOTE] + tail;
    assert [] + z == z;
    QuotedBack(z, [], tail, 0, 0, sep, term, rest);
  }

  lemma LooseRead(
    ps: seq<Piece>, closed: bool, notFirst: bool, tail: seq<byte>, sep: byte, term: int, rest: seq<byte>)
    requires Separator(sep) && Ends(tail, sep, term, rest) && FieldOk(Loose(ps, closed), sep) && (closed || tail == [])
    ensures ReadField(Written(Loose(ps, closed)) + tail, notFirst, sep, LF)
      == Reading(Some(PiecesContent(ps)), term, rest)
  {
    hide ReadQuoted, Ends, PiecesText, PiecesContent;
    var s := Written(Loose(ps, closed)) + tail;
    assert s[0] == QUOTE && s[1..] == PiecesText(ps) + ((if closed then [34] else []) + tail);
    assert [] + PiecesContent(ps) == PiecesContent(ps);
    PiecesBack(ps, closed, [], tail, 0, 0, sep, term, rest);
  }

  lemma PlainChosen(s: seq<byte>, notFirst: bool, sep: byte)
    requires |s| > 0 && s[0] != QUOTE && (notFirst || !StartsWithBom(s))
    ensures ReadField(s, notFirst, sep, LF) == ReadPlain(s, [], sep, LF)
  {
    hide ReadPlain, StartsWithBom;
  }

  lemma FirstByte(z: seq<byte>, tail: seq<byte>, sep: byte, term: int, rest: seq<byte>)
    requires Separator(sep) && Ends(tail, sep, term, rest) && FieldOk(Bare(z), sep) && (|z| > 0 || |tail| > 0)
    ensures |z + tail| > 0 && (z + tail)[0] != QUOTE
  {
  }

  // ----- records -----

  /** The fields of a record from number i on, separators between them, and what follows. */
  function From(row: seq<Field>, i: nat, sep: byte, tail: seq<byte>): seq<byte>
    requires i < |row|
    decreases |row| - i
  {
    Written(row[i]) + if i + 1 < |row| then [sep] + From(row, i + 1, sep, tail) else tail
  }

  /** What becomes of a record in a table of n columns: surplus fields are dropped, missing ones are NULL. */
  function Fitted(row: seq<Field>, n: nat): (cells: seq<Cell>)
    ensures |cells| == n
  {
    seq(n, k requires 0 <= k < n => if k < |row| then Some(CString(Content(row[k]))) else None)
  }

  /** A record that can be read: every field in order, and something to see before the end of the file. */
  ghost predicate RowOk(row: seq<Field>, sep: byte, tail: seq<byte>) {
    && |row| > 0 && (forall k | 0 <= k < |row| :: FieldOk(row[k], sep))
    && (Visible(row[|row| - 1]) || |tail| > 0)
    && forall k | 0 <= k < |row| :: Closed(row[k]) || (k == |row| - 1 && tail == [])
  }

  /** How a record ends: with the file, or with LF or CR LF and more. */
  ghost predicate RowEnds(tail: seq<byte>, term: int, rest: seq<byte>) {
    || (tail == [] && term == EOF && rest == [])
    || (tail == [10] + rest && term == 10)
    || (tail == [13, 10] + rest && term == 10)
  }

  /** One field of a record, with what comes behind it. */
  lemma FromField(row: seq<Field>, i: nat, notFirst: bool, sep: byte, tail: seq<byte>, term: int, rest: seq<byte>)
    requires Separator(sep) && RowOk(row, sep, tail) && RowEnds(tail, term, rest) && i < |row|
    requires notFirst || !StartsWithBom(Written(row[i]))
    ensures var f := ReadField(From(row, i, sep, tail), notFirst, sep, LF);
      f == if i + 1 < |row| then Reading(Some(Content(row[i])), sep as int, From(row, i + 1, sep, tail))
           else Reading(Some(Content(row[i])), term, rest)
    ensures i + 1 < |row| ==> |From(row, i, sep, tail)| > 0
  {
    hide ReadField, Written, FieldOk, StartsWithBom;
    if i + 1 < |row| {
      var next := From(row, i + 1, sep, tail);
      FieldRead(row[i], notFirst, [sep] + next, sep, sep as int, next);
    } else {
      FieldRead(row[i], notFirst, tail, sep, term, rest);
    }
  }

  /** Surplus fields are read and forgotten. */
  lemma {:induction false} ExtrasSkipped(
    row: seq<Field>, i: nat, sep: byte, tail: seq<byte>, term: int, rest: seq<byte>)
    requires Separator(sep) && RowOk(row, sep, tail) && RowEnds(tail, term, rest) && i < |row|
    ensures SkipExtras(From(row, i, sep, tail), sep, LF, sep as int) == Reading(None, term, rest)
    decreases |row| - i
  {
    FromField(row, i, true, sep, tail, term, rest);
    hide ReadField, From, RowOk;
    if i + 1 < |row| {
      ExtrasSkipped(row, i + 1, sep, tail, term, rest);
    }
  }

  /** The columns of a record from number i on. */
  lemma {:induction false} ColumnsRead(
    row: seq<Field>, i: nat, notFirst: bool, sep: byte, tail: seq<byte>, term: int, rest: seq<byte>, bind: seq<Cell>,
    before: int)
    requires Separator(sep) && RowOk(row, sep, tail) && RowEnds(tail, term, rest) && i < |row| && i < |bind|
    requires (notFirst || (i == 0 && !StartsWithBom(Written(row[i])))) && bind[..i] == Fitted(row, |bind|)[..i]
    ensures ReadColumns(From(row, i, sep, tail), notFirst, sep, LF, i, bind, before)
      == if |row| <= |bind| then RowReading(true, Fitted(row, |bind|), term, rest)
         else RowReading(true, Fitted(row, |bind|), sep as int, From(row, |bind|, sep, tail))
    decreases |row| - i
  {
    hide *;
    FromField(row, i, notFirst, sep, tail, term, rest);
    var n := |bind|;
    var b := bind[i := Some(CString(Content(row[i])))];
    NextBound(row, i, bind);
    NoSeparator(sep, tail, term, rest);
    if i + 1 < |row| && i + 1 < n {
      OneColumn(From(row, i, sep, tail), notFirst, sep, i, bind, before,
        Content(row[i]), sep as int, From(row, i + 1, sep, tail));
      ColumnsRead(row, i + 1, true, sep, tail, term, rest, b, sep as int);
    } else if i + 1 < n {
      OneColumn(From(row, i, sep, tail), notFirst, sep, i, bind, before, Content(row[i]), term, rest);
      RestIsNull(row, i, bind);
    } else if i + 1 < |row| {
      OneColumn(From(row, i, sep, tail), notFirst, sep, i, bind, before,
        Content(row[i]), sep as int, From(row, i + 1, sep, tail));
    } else {
      OneColumn(From(row, i, sep, tail), notFirst, sep, i, bind, before, Content(row[i]), term, rest);
    }
  }

  lemma NoSeparator(sep: byte, tail: seq<byte>, term: int, rest: seq<byte>)
    requires Separator(sep) && RowEnds(tail, term, rest)
    ensures term != sep as int
  {
  }

  /** One column of ReadColumns. */
  lemma OneColumn(
    s: seq<byte>, notFirst: bool, sep: byte, i: nat, bind: seq<Cell>, before: int, z: seq<byte>, term: int,
    next: seq<byte>)
    requires i < |bind| && ReadField(s, notFirst, sep, LF) == Reading(Some(z), term, next)
    ensures |next| <= |s|
    ensures var b := bind[i := Some(CString(z))];
      ReadColumns(s, notFirst, sep, LF, i, bind, before)
        == if i + 1 == |bind| then RowReading(true, b, term, next)
           else if term != sep as int then RowReading(true, b[..i + 1] + Nulls(|bind| - i - 1), term, next)
           else ReadColumns(next, notFirst || |s| > 0, sep, LF, i + 1, b, term)
  {
    hide ReadField, CString;
  }

  lemma NextBound(row: seq<Field>, i: nat, bind: seq<Cell>)
    requires i < |row| && i < |bind| && bind[..i] == Fitted(row, |bind|)[..i]
    ensures var b := bind[i := Some(CString(Content(row[i])))];
      b[..i + 1] == Fitted(row, |bind|)[..i + 1] && (i + 1 == |bind| ==> b == Fitted(row, |bind|))
  {
    hide CString;
    var b, want := bind[i := Some(CString(Content(row[i])))], Fitted(row, |bind|);
    assert forall k | 0 <= k < i :: bind[k] == bind[..i][k] && want[k] == want[..i][k];
  }

  lemma RestIsNull(row: seq<Field>, i: nat, bind: seq<Cell>)
    requires i + 1 == |row| < |bind| && bind[..i] == Fitted(row, |bind|)[..i]
    ensures var b := bind[i := Some(CString(Content(row[i])))];
      b[..i + 1] + Nulls(|bind| - i - 1) == Fitted(row, |bind|)
  {
    NextBound(row, i, bind);
    hide CString;
    var b, want := bind[i := Some(CString(Content(row[i])))], Fitted(row, |bind|);
    assert want == want[..i + 1] + want[i + 1..];
  }

  /** One turn of the row loop. */
  lemma RowRead(
    row: seq<Field>, notFirst: bool, sep: byte, tail: seq<byte>, term: int, rest: seq<byte>, bind: seq<Cell>)
    requires Separator(sep) && RowOk(row, sep, tail) && RowEnds(tail, term, rest) && |bind| > 0
    requires notFirst || !StartsWithBom(Written(row[0]))
    ensures ReadLine(From(row, 0, sep, tail), notFirst, sep, LF, bind)
      == LineReading([Fitted(row, |bind|)], Fitted(row, |bind|), term, rest)
  {
    ColumnsRead(row, 0, notFirst, sep, tail, term, rest, bind, EOF);
    if |row| > |bind| {
      ExtrasSkipped(row, |bind|, sep, tail, term, rest);
    } else {
      assert term != sep as int;
    }
    hide ReadColumns, From, RowOk, StartsWithBom, Written;
  }

  // ----- files -----

  /** A record and whether its line ends with CR LF. */
  datatype Record = Record(fields: seq<Field>, crlf: bool)

  function LineEnd(r: Record): seq<byte> {
    if r.crlf then [13, 10] else [10]
  }

  /** The text of a file; closed says whether the last line has an end. */
  function FileText(records: seq<Record>, sep: byte, closed: bool): seq<byte>
    requires forall k | 0 <= k < |records| :: |records[k].fields| > 0
    decreases |records|
  {
    if |records| == 0 then []
    else
      var rest := FileText(records[1..], sep, closed);
      From(records[0].fields, 0, sep, if |records| == 1 && !closed then [] else LineEnd(records[0]) + rest)
  }

  ghost predicate FileOk(records: seq<Record>, sep: byte, closed: bool) {
    && (forall k | 0 <= k < |records| ::
      |records[k].fields| > 0 && forall j | 0 <= j < |records[k].fields| :: FieldOk(records[k].fields[j], sep))
    && (forall k, j | 0 <= k < |records| && 0 <= j < |records[k].fields| ::
      Closed(records[k].fields[j]) || (!closed && k == |records| - 1 && j == |records[k].fields| - 1))
    && (|records| > 0 && !closed ==> var last := records[|records| - 1].fields; Visible(last[|last| - 1]))
  }

  function Table(records: seq<Record>, n: nat): seq<seq<Cell>> {
    seq(|records|, k requires 0 <= k < |records| => Fitted(records[k].fields, n))
  }

  lemma FileTail(records: seq<Record>, sep: byte, closed: bool)
    requires |records| > 0 && FileOk(records, sep, closed)
    ensures FileOk(records[1..], sep, closed)
  {
    hide FieldOk, Visible;
    assert forall k | 0 <= k < |records| - 1 :: records[1..][k] == records[k + 1];
  }

  /** Every record becomes a row of the table's width. */
  lemma {:induction false} RecordsImported(
    records: seq<Record>, notFirst: bool, sep: byte, closed: bool, bind: seq<Cell>)
    requires Separator(sep) && FileOk(records, sep, closed) && |bind| > 0
    requires notFirst || |records| == 0 || !StartsWithBom(Written(records[0].fields[0]))
    ensures ImportRows(FileText(records, sep, closed), notFirst, sep, LF, bind) == Table(records, |bind|)
    decreases |records|
  {
    hide ReadLine, FieldOk, StartsWithBom, Written, Fitted;
    if |records| == 0 {
      NothingLeft(notFirst, sep, bind);
    } else {
      FileTail(records, sep, closed);
      var row, rest := records[0].fields, FileText(records[1..], sep, closed);
      var last := |records| == 1 && !closed;
      var tail := if last then [] else LineEnd(records[0]) + rest;
      var term := if last then EOF else LF as int;
      RowRead(row, notFirst, sep, tail, term, rest, bind);
      OneLine(From(row, 0, sep, tail), notFirst, sep, bind, Fitted(row, |bind|), term, rest);
      TableSplit(records, |bind|);
      hide ImportRows, From, Table;
      if last {
        NoRecords(records[1..], |bind|);
      } else {
        RecordsImported(records[1..], true, sep, closed, Fitted(row, |bind|));
      }
    }
  }

  lemma NoRecords(records: seq<Record>, n: nat)
    requires |records| == 0
    ensures Table(records, n) == []
  {
  }

  lemma TableSplit(records: seq<Record>, n: nat)
    requires |records| > 0
    ensures Table(records, n) == [Fitted(records[0].fields, n)] + Table(records[1..], n)
  {
    hide Fitted;
  }

  lemma OneLine(s: seq<byte>, notFirst: bool, sep: byte, bind: seq<Cell>, row: seq<Cell>, term: int, rest: seq<byte>)
    requires |bind| > 0 && ReadLine(s, notFirst, sep, LF, bind) == LineReading([row], row, term, rest)
    ensures |row| == |bind|
    ensures ImportRows(s, notFirst, sep, LF, bind)
      == if term == EOF then [row] else [row] + ImportRows(rest, true, sep, LF, row)
  {
    hide ReadLine;
  }

  // ----- what the shell wrote -----

  /** The form in which the writer puts a field. */
  ghost function Form(z: seq<byte>, sep: byte): (f: Field)
    ensures Written(f) == FieldText(z, [sep]) && Content(f) == z && FieldOk(f, sep) && Closed(f)
  {
    if Quoting(z, [sep]) then Quoted(z)
    else
      UnquotedIsPlain(z, sep);
      Bare(z)
  }

  ghost function Forms(row: seq<seq<byte>>, sep: byte): (fields: seq<Field>)
    ensures |fields| == |row| && forall k | 0 <= k < |row| :: fields[k] == Form(row[k], sep)
  {
    seq(|row|, k requires 0 <= k < |row| => Form(row[k], sep))
  }

  lemma {:induction false} RowTextIs(row: seq<seq<byte>>, i: nat, sep: byte, rowSep: seq<byte>, more: seq<byte>)
    requires i < |row|
    ensures RowText(row[i..], [sep], rowSep) + more == From(Forms(row, sep), i, sep, rowSep + more)
    decreases |row| - i
  {
    hide FieldText, Form, Written;
    assert row[i..][1..] == row[i + 1..];
    if i + 1 < |row| {
      RowTextIs(row, i + 1, sep, rowSep, more);
    } else {
      assert RowText(row[i + 1..], [sep], rowSep) == rowSep;
    }
  }

  ghost function Records(rows: seq<seq<seq<byte>>>, sep: byte, crlf: bool): (records: seq<Record>)
    ensures |records| == |rows|
    ensures forall k | 0 <= k < |rows| :: records[k] == Record(Forms(rows[k], sep), crlf)
  {
    seq(|rows|, k requires 0 <= k < |rows| => Record(Forms(rows[k], sep), crlf))
  }

  lemma {:induction false} TableTextIs(rows: seq<seq<seq<byte>>>, sep: byte, crlf: bool)
    requires forall k | 0 <= k < |rows| :: |rows[k]| > 0
    ensures TableText(rows, [sep], if crlf then [13, 10] else [10]) == FileText(Records(rows, sep, crlf), sep, true)
    decreases |rows|
  {
    hide RowText, From, Forms;
    var rowSep: seq<byte> := if crlf then [13, 10] else [10];
    if |rows| > 0 {
      TableTextIs(rows[1..], sep, crlf);
      assert Records(rows, sep, crlf)[1..] == Records(rows[1..], sep, crlf);
      var more := TableText(rows[1..], [sep], rowSep);
      assert rows[0][0..] == rows[0];
      RowTextIs(rows[0], 0, sep, rowSep, more);
    }
  }

  /** A row cut to n fields, or filled with NULL up to n. */
  function Resized(row: seq<seq<byte>>, n: nat): (cells: seq<Cell>)
    ensures |cells| == n
  {
    seq(n, j requires 0 <= j < n => if j < |row| then Some(row[j]) else None)
  }

  lemma FittedForms(row: seq<seq<byte>>, sep: byte, n: nat)
    requires forall j | 0 <= j < |row| :: Storable(row[j])
    ensures Fitted(Forms(row, sep), n) == Resized(row, n)
  {
    hide Storable, CString;
    forall j | 0 <= j < n && j < |row| ensures CString(Content(Form(row[j], sep))) == row[j] {
      CStringWhole(row[j]);
    }
  }

  lemma RecordsOk(rows: seq<seq<seq<byte>>>, sep: byte, crlf: bool)
    requires forall k | 0 <= k < |rows| :: |rows[k]| > 0
    ensures FileOk(Records(rows, sep, crlf), sep, true)
  {
    hide FieldOk, Form;
  }

  /** What the shell wrote, rows of any length among it, imported into a table of any width. */
  lemma RaggedRoundTrip(rows: seq<seq<seq<byte>>>, sep: byte, crlf: bool, bind: seq<Cell>)
    requires Separator(sep) && |bind| > 0
    requires forall k | 0 <= k < |rows| :: |rows[k]| > 0 && forall j | 0 <= j < |rows[k]| :: Storable(rows[k][j])
    ensures ImportRows(TableText(rows, [sep], if crlf then [13, 10] else [10]), false, sep, LF, bind)
      == seq(|rows|, k requires 0 <= k < |rows| => Resized(rows[k], |bind|))
  {
    hide *;
    TableTextIs(rows, sep, crlf);
    RecordsOk(rows, sep, crlf);
    FirstNoBom(rows, sep, crlf);
    RecordsImported(Records(rows, sep, crlf), false, sep, true, bind);
    TableResized(rows, sep, crlf, |bind|);
  }

  lemma TableResized(rows: seq<seq<seq<byte>>>, sep: byte, crlf: bool, n: nat)
    requires forall k | 0 <= k < |rows| :: |rows[k]| > 0 && forall j | 0 <= j < |rows[k]| :: Storable(rows[k][j])
    ensures Table(Records(rows, sep, crlf), n) == seq(|rows|, k requires 0 <= k < |rows| => Resized(rows[k], n))
  {
    hide Storable, Resized, Fitted, Forms;
    var records := Records(rows, sep, crlf);
    forall k | 0 <= k < |rows| ensures Fitted(records[k].fields, n) == Resized(rows[k], n) {
      FittedForms(rows[k], sep, n);
    }
  }

  lemma FirstNoBom(rows: seq<seq<seq<byte>>>, sep: byte, crlf: bool)
    requires |rows| > 0 ==> |rows[0]| > 0
    ensures |rows| > 0 ==> !StartsWithBom(Written(Records(rows, sep, crlf)[0].fields[0]))
  {
    if |rows| > 0 {
      WrittenNoBom(rows[0][0], sep);
    }
    hide StartsWithBom, Written, Form;
  }

  /** The writer leaves a field bare exactly if it is not empty and all printable, without quotes and separators. */
  lemma QuotedExactly(z: seq<byte>, sep: byte)
    ensures FieldText(z, [sep]) == z <==>
      |z| > 0 && forall i | 0 <= i < |z| :: 32 < z[i] < 127 && z[i] != 34 && z[i] != 39 && z[i] != sep
    ensures FieldText(z, [sep]) != z ==> FieldText(z, [sep]) == [34] + Doubled(z, 34) + [34]
  {
    DoubledLonger(z);
    if |z| > 0 && forall i | 0 <= i < |z| :: 32 < z[i] < 127 && z[i] != 34 && z[i] != 39 && z[i] != sep {
      assert !Quoting(z, [sep]);
    }
    if !Quoting(z, [sep]) {
      UnquotedIsPlain(z, sep);
    }
  }

  /** A separator of several bytes forces quotes only where a field starts with it. */
  lemma QuotedLong(z: seq<byte>, sep: seq<byte>)
    requires |sep| >= 2
    ensures FieldText(z, sep) == z <==>
      |z| > 0 && !(sep <= z) && forall i | 0 <= i < |z| :: 32 < z[i] < 127 && z[i] != 34 && z[i] != 39
    ensures FieldText(z, sep) != z ==> FieldText(z, sep) == [34] + Doubled(z, 34) + [34]
  {
    DoubledLonger(z);
    ForcedLong(z, sep);
    hide NeedsQuote, Forces;
  }

  lemma ForcedLong(z: seq<byte>, sep: seq<byte>)
    requires |sep| >= 2
    ensures !Quoting(z, sep) <==>
      |z| > 0 && !(sep <= z) && forall i | 0 <= i < |z| :: 32 < z[i] < 127 && z[i] != 34 && z[i] != 39
  {
    if |z| > 0 {
      if sep <= z {
        StartForces(z, sep);
      }
      forall i | 0 <= i < |z|
        ensures Forces(z, i, sep) <==>
          (!(32 < z[i] < 127 && z[i] != 34 && z[i] != 39) || (z[i] == sep[0] && sep <= z)) {
        assert sep <= z <==> (|sep| <= |z| && z[..|sep|] == sep);
      }
    }
  }

  lemma StartForces(z: seq<byte>, sep: seq<byte>)
    requires |sep| >= 2 && sep <= z
    ensures Forces(z, 0, sep)
  {
    assert z[..|sep|] == sep && z[0] == sep[0];
    hide NeedsQuote;
  }

  lemma {:induction false} DoubledLonger(z: seq<byte>)
    ensures |Doubled(z, 34)| >= |z|
  {
    if |z| > 0 {
      DoubledLonger(z[1..]);
    }
  }

  lemma WrittenNoBom(z: seq<byte>, sep: byte)
    ensures !StartsWithBom(Written(Form(z, sep)))
  {
    if !Quoting(z, [sep]) {
      UnquotedIsPlain(z, sep);
    }
  }

  lemma NothingLeft(notFirst: bool, sep: byte, bind: seq<Cell>)
    requires |bind| > 0
    ensures ImportRows([], notFirst, sep, LF, bind) == []
  {
    NoColumns(notFirst, sep, bind);
    hide ReadColumns;
  }

  /** A byte-order mark in front changes nothing. */
  lemma BomIgnored(s: seq<byte>, sep: byte, bind: seq<Cell>)
    requires |bind| > 0
    ensures ReadLine([0xEF, 0xBB, 0xBF] + s, false, sep, LF, bind) == ReadLine(s, true, sep, LF, bind)
  {
    var t := [0xEF, 0xBB, 0xBF] + s;
    assert t[3..] == s;
    BomField(s, sep);
    hide ReadField, SkipExtras;
  }

  lemma BomField(s: seq<byte>, sep: byte)
    ensures ReadField([0xEF, 0xBB, 0xBF] + s, false, sep, LF) == ReadField(s, true, sep, LF)
  {
    var t := [0xEF, 0xBB, 0xBF] + s;
    assert t[3..] == s && StartsWithBom(t) && t[0] != QUOTE;
    hide ReadQuoted, ReadPlain;
  }

  /**
   Importing a file with or without a byte-order mark: one row per record, cut or filled with NULL to the width of the
   table; a field is stored up to its first NUL.
   */
  lemma FileImported(records: seq<Record>, sep: byte, closed: bool, bom: bool, bind: seq<Cell>)
    requires Separator(sep) && FileOk(records, sep, closed) && |bind| > 0
    requires bom || |records| == 0 || !StartsWithBom(Written(records[0].fields[0]))
    ensures ImportRows((if bom then [0xEF, 0xBB, 0xBF] else []) + FileText(records, sep, closed), false, sep, LF, bind)
      == Table(records, |bind|)
  {
    hide ReadLine, FieldOk, StartsWithBom, Written, Fitted;
    var s := FileText(records, sep, closed);
    RecordsImported(records, bom, sep, closed, bind);
    if bom {
      BomIgnored(s, sep, bind);
    } else {
      assert [] + s == s;
    }
  }
}
