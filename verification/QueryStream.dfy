/** The byte stream that sha3_query() hashes, and its inverse. */
module QueryStream {
  import opened Bytes
  import opened Options

  /** One column of a result row; a float is its IEEE bit pattern. */
  datatype Cell = Null | Integer(v: Int64) | Float(bits: Word64) | Text(t: seq<byte>) | Blob(b: seq<byte>)

  datatype Statement = Statement(sql: seq<byte>, rows: seq<seq<Cell>>)

  datatype Segment = Sql(sql: seq<byte>) | Row | Column(c: Cell)

  const COLON: byte := 58
  const TAG_B: byte := 66
  const TAG_F: byte := 70
  const TAG_I: byte := 73
  const TAG_N: byte := 78
  const TAG_R: byte := 82
  const TAG_S: byte := 83
  const TAG_T: byte := 84

  /** A size is an int. */
  predicate SizeFits(s: seq<byte>) {
    |s| < 0x8000_0000
  }

  predicate CellFits(c: Cell) {
    match c
    case Text(t) => SizeFits(t)
    case Blob(b) => SizeFits(b)
    case _ => true
  }

  ghost predicate StatementFits(st: Statement) {
    SizeFits(st.sql) && forall i, j | 0 <= i < |st.rows| && 0 <= j < |st.rows[i]| :: CellFits(st.rows[i][j])
  }

  /** hash_step_vformat with "<tag>%d:": at most 49 bytes of the text reach the hash. */
  function Step(tag: byte, n: nat): (s: seq<byte>)
    ensures |s| > 0
  {
    var text := [tag] + Decimal(n) + [COLON];
    if |text| > 49 then text[..49] else text
  }

  /** The 64-bit pattern of a signed integer. */
  function Pattern(v: Int64): Word64 {
    if v < 0 then v + 0x1_0000_0000_0000_0000 else v
  }

  function Signed(u: Word64): Int64 {
    if u >= 0x8000_0000_0000_0000 then u - 0x1_0000_0000_0000_0000 else u
  }

  function CellBytes(c: Cell): seq<byte> {
    match c
    case Null => [TAG_N]
    case Integer(v) => [TAG_I] + BigEndian(Pattern(v), 8)
    case Float(u) => [TAG_F] + BigEndian(u, 8)
    case Text(t) => Step(TAG_T, |t|) + t
    case Blob(b) => Step(TAG_B, |b|) + b
  }

  function SegmentBytes(g: Segment): seq<byte> {
    match g
    case Sql(sql) => Step(TAG_S, |sql|) + sql
    case Row => [TAG_R]
    case Column(c) => CellBytes(c)
  }

  function RowSegments(row: seq<Cell>): seq<Segment> {
    if |row| == 0 then [] else RowSegments(row[..|row| - 1]) + [Column(row[|row| - 1])]
  }

  function RowsSegments(rows: seq<seq<Cell>>): seq<Segment> {
    if |rows| == 0 then [] else RowsSegments(rows[..|rows| - 1]) + ([Row] + RowSegments(rows[|rows| - 1]))
  }

  function Segments(sts: seq<Statement>): seq<Segment> {
    if |sts| == 0 then []
    else var st := sts[|sts| - 1];
      Segments(sts[..|sts| - 1]) + ([Sql(st.sql)] + RowsSegments(st.rows))
  }

  function Encode(gs: seq<Segment>): seq<byte> {
    if |gs| == 0 then [] else Encode(gs[..|gs| - 1]) + SegmentBytes(gs[|gs| - 1])
  }

  /** All that is hashed for a list of statements and their results. */
  function Stream(sts: seq<Statement>): seq<byte> {
    Encode(Segments(sts))
  }

  // ----- reading a stream back -----

  /** A numeral, a colon and that many bytes. */
  function ParseSized(s: seq<byte>): Option<(seq<byte>, seq<byte>)> {
    var k := DigitRun(s);
    var n := DecimalValue(s[..k]);
    if k < |s| && s[k] == COLON && 0 <= n <= |s| - k - 1 then Some((s[k + 1..k + 1 + n], s[k + 1 + n..])) else None
  }

  /** The first segment of s and what follows it. */
  function ParseSegment(s: seq<byte>): Option<(Segment, seq<byte>)> {
    if |s| == 0 then None
    else if s[0] == TAG_R then Some((Row, s[1..]))
    else if s[0] == TAG_N then Some((Column(Null), s[1..]))
    else if s[0] == TAG_I || s[0] == TAG_F then
      if |s| < 9 then None
      else
        var u := FromBigEndian(s[1..9]);
        if u >= 0x1_0000_0000_0000_0000 then None
        else Some((Column(if s[0] == TAG_I then Integer(Signed(u)) else Float(u)), s[9..]))
    else if s[0] == TAG_S || s[0] == TAG_T || s[0] == TAG_B then
      match ParseSized(s[1..])
      case None => None
      case Some((body, rest)) =>
        Some((if s[0] == TAG_S then Sql(body) else if s[0] == TAG_T then Column(Text(body)) else Column(Blob(body)),
              rest))
    else None
  }

  lemma ParseShrinks(s: seq<byte>)
    ensures ParseSegment(s).Some? ==> |ParseSegment(s).value.1| < |s|
  {
  }

  function ParseSegments(s: seq<byte>): Option<seq<Segment>>
    decreases |s|
  {
    if |s| == 0 then Some([])
    else
      match ParseSegment(s)
      case None => None
      case Some((g, rest)) =>
        ParseShrinks(s);
        match ParseSegments(rest)
        case None => None
        case Some(gs) => Some([g] + gs)
  }

  /** Add a segment at the end of a list of statements. */
  function Extend(sts: seq<Statement>, g: Segment): seq<Statement> {
    var last := |sts| - 1;
    match g
    case Sql(sql) => sts + [Statement(sql, [])]
    case Row => if last < 0 then sts else sts[last := sts[last].(rows := sts[last].rows + [[]])]
    case Column(c) =>
      if last < 0 || |sts[last].rows| == 0 then sts
      else
        var rows := sts[last].rows;
        sts[last := sts[last].(rows := rows[|rows| - 1 := rows[|rows| - 1] + [c]])]
  }

  function Group(gs: seq<Segment>): seq<Statement> {
    if |gs| == 0 then [] else Extend(Group(gs[..|gs| - 1]), gs[|gs| - 1])
  }

  function Decode(s: seq<byte>): Option<seq<Statement>> {
    match ParseSegments(s)
    case None => None
    case Some(gs) => Some(Group(gs))
  }

  // ----- the proof -----

  lemma StepWhole(tag: byte, n: nat)
    requires n < 0x8000_0000
    ensures Step(tag, n) == [tag] + Decimal(n) + [COLON]
  {
    assert Pow10(10) == 10_000_000_000;
    DecimalLength(n, 10, Pow10(10));
  }

  lemma SizedRoundTrip(tag: byte, body: seq<byte>, rest: seq<byte>)
    requires SizeFits(body)
    ensures var s := Step(tag, |body|) + body + rest;
      s[0] == tag && ParseSized(s[1..]) == Some((body, rest))
  {
    StepWhole(tag, |body|);
    var d := Decimal(|body|);
    var s := (Step(tag, |body|) + body + rest)[1..];
    assert s == d + [COLON] + body + rest;
    DigitRunIs(s, |d|);
    assert s[..|d|] == d;
    DecimalRoundTrip(|body|);
  }

  lemma WordRoundTrip(tag: byte, u: Word64, rest: seq<byte>)
    ensures var s := [tag] + BigEndian(u, 8) + rest;
      s[0] == tag && FromBigEndian(s[1..9]) == u && s[9..] == rest
  {
    assert Pow256(8) == 0x1_0000_0000_0000_0000;
    BigEndianRoundTrip(u, 8);
    assert ([tag] + BigEndian(u, 8) + rest)[1..9] == BigEndian(u, 8);
  }

  ghost predicate SegmentFits(g: Segment) {
    match g
    case Sql(sql) => SizeFits(sql)
    case Row => true
    case Column(c) => CellFits(c)
  }

  lemma SegmentRoundTrip(g: Segment, rest: seq<byte>)
    requires SegmentFits(g)
    ensures ParseSegment(SegmentBytes(g) + rest) == Some((g, rest))
  {
    hide Step, BigEndian, FromBigEndian, DigitRun, ParseSized;
    match g
    case Sql(sql) => SizedRoundTrip(TAG_S, sql, rest);
    case Row =>
    case Column(Null) =>
    case Column(Integer(v)) => WordRoundTrip(TAG_I, Pattern(v), rest);
    case Column(Float(u)) => WordRoundTrip(TAG_F, u, rest);
    case Column(Text(t)) =>
      SizedRoundTrip(TAG_T, t, rest);
    case Column(Blob(b)) => SizedRoundTrip(TAG_B, b, rest);
  }

  lemma {:induction false} EncodeFront(gs: seq<Segment>)
    requires |gs| > 0
    ensures Encode(gs) == SegmentBytes(gs[0]) + Encode(gs[1..])
  {
    hide SegmentBytes;
    if |gs| == 1 {
      assert gs[..0] == [] && gs[1..] == [];
    } else {
      EncodeFront(gs[..|gs| - 1]);
      assert gs[..|gs| - 1][1..] == gs[1..][..|gs| - 2];
    }
  }

  /** Segments can be told apart without delimiters. */
  lemma {:induction false} SegmentsRoundTrip(gs: seq<Segment>)
    requires forall i | 0 <= i < |gs| :: SegmentFits(gs[i])
    ensures ParseSegments(Encode(gs)) == Some(gs)
  {
    hide SegmentBytes, ParseSegment, SegmentFits;
    if |gs| > 0 {
      EncodeFront(gs);
      SegmentRoundTrip(gs[0], Encode(gs[1..]));
      ParseShrinks(Encode(gs));
      SegmentsRoundTrip(gs[1..]);
      assert [gs[0]] + gs[1..] == gs;
    }
  }

  lemma GroupNothing()
    ensures Group([]) == []
  {
  }

  lemma ExtendSql(sts: seq<Statement>, sql: seq<byte>)
    ensures Extend(sts, Sql(sql)) == sts + [Statement(sql, [])]
  {
  }

  lemma ExtendRow(sts: seq<Statement>, sql: seq<byte>, rows: seq<seq<Cell>>)
    ensures Extend(sts + [Statement(sql, rows)], Row) == sts + [Statement(sql, rows + [[]])]
  {
  }

  lemma ExtendColumn(sts: seq<Statement>, sql: seq<byte>, rows: seq<seq<Cell>>, row: seq<Cell>, c: Cell)
    ensures Extend(sts + [Statement(sql, rows + [row])], Column(c)) == sts + [Statement(sql, rows + [row + [c]])]
  {
    var all := sts + [Statement(sql, rows + [row])];
    assert (rows + [row])[|rows| := row + [c]] == rows + [row + [c]];
    assert all[|sts| := Statement(sql, rows + [row + [c]])] == sts + [Statement(sql, rows + [row + [c]])];
  }

  lemma GroupSnoc(gs: seq<Segment>, g: Segment)
    ensures Group(gs + [g]) == Extend(Group(gs), g)
  {
  }

  lemma {:induction false} GroupRow(
    gs: seq<Segment>, sts: seq<Statement>, sql: seq<byte>, rows: seq<seq<Cell>>, row: seq<Cell>)
    requires Group(gs) == sts + [Statement(sql, rows + [[]])]
    ensures Group(gs + RowSegments(row)) == sts + [Statement(sql, rows + [row])]
  {
    hide Extend, Group;
    if |row| == 0 {
      assert gs + RowSegments(row) == gs && row == [];
    } else {
      var k := |row| - 1;
      GroupRow(gs, sts, sql, rows, row[..k]);
      GroupSnoc(gs + RowSegments(row[..k]), Column(row[k]));
      ExtendColumn(sts, sql, rows, row[..k], row[k]);
      assert gs + RowSegments(row) == gs + RowSegments(row[..k]) + [Column(row[k])];
      assert row[..k] + [row[k]] == row;
    }
  }

  lemma {:induction false} GroupRows(gs: seq<Segment>, sts: seq<Statement>, sql: seq<byte>, rows: seq<seq<Cell>>)
    requires Group(gs) == sts + [Statement(sql, [])]
    ensures Group(gs + RowsSegments(rows)) == sts + [Statement(sql, rows)]
  {
    hide Extend, Group, RowSegments;
    if |rows| == 0 {
      assert gs + RowsSegments(rows) == gs && rows == [];
    } else {
      var k := |rows| - 1;
      GroupRows(gs, sts, sql, rows[..k]);
      var hs := gs + RowsSegments(rows[..k]);
      GroupSnoc(hs, Row);
      ExtendRow(sts, sql, rows[..k]);
      GroupRow(hs + [Row], sts, sql, rows[..k], rows[k]);
      assert gs + RowsSegments(rows) == (hs + [Row]) + RowSegments(rows[k]);
      assert rows[..k] + [rows[k]] == rows;
    }
  }

  lemma {:induction false} GroupSegments(sts: seq<Statement>)
    ensures Group(Segments(sts)) == sts
  {
    GroupNothing();
    hide Extend, Group, RowsSegments;
    if |sts| > 0 {
      var k := |sts| - 1;
      GroupSegments(sts[..k]);
      var gs := Segments(sts[..k]) + [Sql(sts[k].sql)];
      GroupSnoc(Segments(sts[..k]), Sql(sts[k].sql));
      ExtendSql(sts[..k], sts[k].sql);
      GroupRows(gs, sts[..k], sts[k].sql, sts[k].rows);
      assert Segments(sts) == gs + RowsSegments(sts[k].rows);
      assert sts[..k] + [sts[k]] == sts;
    }
  }

  ghost predicate AllFit(gs: seq<Segment>) {
    forall i | 0 <= i < |gs| :: SegmentFits(gs[i])
  }

  lemma {:induction false} RowFits(row: seq<Cell>)
    requires forall j | 0 <= j < |row| :: CellFits(row[j])
    ensures AllFit(RowSegments(row))
  {
    if |row| > 0 {
      RowFits(row[..|row| - 1]);
    }
  }

  lemma {:induction false} RowsFit(rows: seq<seq<Cell>>)
    requires forall i, j | 0 <= i < |rows| && 0 <= j < |rows[i]| :: CellFits(rows[i][j])
    ensures AllFit(RowsSegments(rows))
  {
    if |rows| > 0 {
      RowsFit(rows[..|rows| - 1]);
      RowFits(rows[|rows| - 1]);
    }
  }

  lemma {:induction false} StatementsFit(sts: seq<Statement>)
    requires forall i | 0 <= i < |sts| :: StatementFits(sts[i])
    ensures AllFit(Segments(sts))
  {
    if |sts| > 0 {
      StatementsFit(sts[..|sts| - 1]);
      RowsFit(sts[|sts| - 1].rows);
    }
  }

  /** The decoder inverts the stream. */
  lemma StreamRoundTrip(sts: seq<Statement>)
    requires forall i | 0 <= i < |sts| :: StatementFits(sts[i])
    ensures Decode(Stream(sts)) == Some(sts)
  {
    StatementsFit(sts);
    SegmentsRoundTrip(Segments(sts));
    GroupSegments(sts);
  }

  /** Different statements or results never give the same stream. */
  lemma StreamInjective(a: seq<Statement>, b: seq<Statement>)
    requires forall i | 0 <= i < |a| :: StatementFits(a[i])
    requires forall i | 0 <= i < |b| :: StatementFits(b[i])
    ensures Stream(a) == Stream(b) ==> a == b
  {
    StreamRoundTrip(a);
    StreamRoundTrip(b);
  }
}
