/** The sha3_query() SQL function: run every statement, hash the byte stream of texts and results. */
module Sha3Query {
  import opened Bytes
  import opened QueryStream
  import opened Sha3Engine
  import opened Sha3Spec

  /** What preparing one statement can yield; the rows of a query are those that stepping it returns. */
  datatype Prepared = Malformed | Writes | Query(st: Statement)

  datatype Outcome = SizeError | SqlError | NotQuery | Digest(bytes: seq<byte>)

  predicate SizeOffered(iSize: int) {
    iSize == 224 || iSize == 256 || iSize == 384 || iSize == 512
  }

  /** The statements of a script in which nothing fails. */
  ghost function Queries(script: seq<Prepared>): seq<Statement>
    requires forall i | 0 <= i < |script| :: script[i].Query?
  {
    seq(|script|, i requires 0 <= i < |script| => script[i].st)
  }

  /** The nine bytes of an integer or float column. */
  method WordBytes(tag: byte, v: Word64) returns (x: array<byte>)
    ensures fresh(x) && x[..] == [tag] + BigEndian(v, 8)
  {
    x := new byte[9](_ => 0);
    var u: nat, j := v, 8;
    while j >= 1
      invariant 0 <= j <= 8 && BigEndian(u, j) + x[j + 1..] == BigEndian(v, 8)
    {
      ghost var tail := x[j + 1..];
      x[j] := u % 256;
      assert x[j..] == [x[j]] + tail;
      u := u / 256;
      j := j - 1;
    }
    x[0] := tag;
  }

  /** hash_step_vformat */
  method HashStep(p: SHA3Context, tag: byte, n: nat, order: ByteOrder)
    requires p.Valid() && (order == Little ==> !p.big) && (order == Big ==> p.big)
    modifies p, p.s
    ensures p.Valid() && p.nRate == old(p.nRate) && p.Msg == old(p.Msg) + Step(tag, n)
  {
    var aligned: bool := *;
    p.Update(Step(tag, n), aligned, order);
  }

  method HashColumn(p: SHA3Context, c: Cell, order: ByteOrder)
    requires p.Valid() && (order == Little ==> !p.big) && (order == Big ==> p.big)
    modifies p, p.s
    ensures p.Valid() && p.nRate == old(p.nRate) && p.Msg == old(p.Msg) + CellBytes(c)
  {
    hide BigEndian, Step, Holds;
    var aligned: bool := *;
    match c
    case Null =>
      p.Update([TAG_N], aligned, order);
    case Integer(v) =>
      var x := WordBytes(TAG_I, Pattern(v));
      p.Update(x[..], aligned, order);
    case Float(u) =>
      var x := WordBytes(TAG_F, u);
      p.Update(x[..], aligned, order);
    case Text(t) =>
      HashStep(p, TAG_T, |t|, order);
      p.Update(t, aligned, order);
      assert CellBytes(c) == Step(TAG_T, |t|) + t;
    case Blob(b) =>
      HashStep(p, TAG_B, |b|, order);
      p.Update(b, aligned, order);
      assert CellBytes(c) == Step(TAG_B, |b|) + b;
  }

  lemma EncodeSnoc(gs: seq<Segment>, g: Segment)
    ensures Encode(gs + [g]) == Encode(gs) + SegmentBytes(g)
  {
  }

  /** One row: the letter R and the columns in order. */
  method HashRow(p: SHA3Context, row: seq<Cell>, order: ByteOrder, ghost gs: seq<Segment>)
    requires p.Valid() && (order == Little ==> !p.big) && (order == Big ==> p.big)
    requires p.Msg == Encode(gs)
    modifies p, p.s
    ensures p.Valid() && p.nRate == old(p.nRate)
    ensures p.Msg == Encode(gs + ([Row] + RowSegments(row)))
  {
    hide Encode, Holds, CellBytes;
    var aligned: bool := *;
    p.Update([TAG_R], aligned, order);
    EncodeSnoc(gs, Row);
    assert gs + ([Row] + RowSegments([])) == gs + [Row];
    for i := 0 to |row|
      invariant p.Valid() && p.nRate == old(p.nRate)
      invariant p.Msg == Encode(gs + ([Row] + RowSegments(row[..i])))
    {
      HashColumn(p, row[i], order);
      EncodeSnoc(gs + ([Row] + RowSegments(row[..i])), Column(row[i]));
      assert row[..i + 1][..i] == row[..i];
      assert gs + ([Row] + RowSegments(row[..i + 1])) == gs + ([Row] + RowSegments(row[..i])) + [Column(row[i])];
    }
    assert row[..|row|] == row;
  }

  /** One statement: its text, then every row. */
  method HashStatement(p: SHA3Context, st: Statement, order: ByteOrder, ghost gs: seq<Segment>)
    requires p.Valid() && (order == Little ==> !p.big) && (order == Big ==> p.big)
    requires p.Msg == Encode(gs)
    modifies p, p.s
    ensures p.Valid() && p.nRate == old(p.nRate)
    ensures p.Msg == Encode(gs + ([Sql(st.sql)] + RowsSegments(st.rows)))
  {
    hide Encode, Holds, RowSegments, Step;
    HashStep(p, TAG_S, |st.sql|, order);
    var aligned: bool := *;
    p.Update(st.sql, aligned, order);
    EncodeSnoc(gs, Sql(st.sql));
    ghost var hs := gs + [Sql(st.sql)];
    assert p.Msg == Encode(hs);
    assert hs + RowsSegments([]) == hs;
    for i := 0 to |st.rows|
      invariant p.Valid() && p.nRate == old(p.nRate)
      invariant p.Msg == Encode(hs + RowsSegments(st.rows[..i]))
    {
      HashRow(p, st.rows[i], order, hs + RowsSegments(st.rows[..i]));
      assert st.rows[..i + 1][..i] == st.rows[..i];
      assert hs + RowsSegments(st.rows[..i + 1])
        == hs + RowsSegments(st.rows[..i]) + ([Row] + RowSegments(st.rows[i]));
    }
    assert st.rows[..|st.rows|] == st.rows;
    assert gs + ([Sql(st.sql)] + RowsSegments(st.rows)) == hs + RowsSegments(st.rows);
  }

  /** sha3QueryFunc: the digest of the stream, unless the size or some statement is refused. */
  method QueryDigest(script: seq<Prepared>, iSize: int, order: ByteOrder, bigEndian: bool) returns (r: Outcome)
    requires (order == Little ==> !bigEndian) && (order == Big ==> bigEndian)
    ensures r.SizeError? <==> iSize != 224 && iSize != 256 && iSize != 384 && iSize != 512
    ensures r.Digest? <==> SizeOffered(iSize) && forall i | 0 <= i < |script| :: script[i].Query?
    ensures r.SqlError? || r.NotQuery? ==> exists i | 0 <= i < |script| ::
      script[i] == (if r.SqlError? then Malformed else Writes) && forall j | 0 <= j < i :: script[j].Query?
    ensures r.Digest? ==> |r.bytes| == iSize / 8 && BitsOf(r.bytes) == Sha3(BitsOf(Stream(Queries(script))), iSize)
  {
    hide BitsOf, Sha3, Holds, Encode;
    if !SizeOffered(iSize) {
      return SizeError;
    }
    var p := new SHA3Context(iSize, order, bigEndian);
    EncodeNothing();
    for i := 0 to |script|
      invariant fresh(p) && fresh(p.s) && p.Valid() && p.big == bigEndian && p.nRate == RateFor(iSize)
      invariant forall j | 0 <= j < i :: script[j].Query?
      invariant p.Msg == Stream(Queries(script[..i]))
    {
      match script[i]
      case Malformed => return SqlError;
      case Writes => return NotQuery;
      case Query(st) =>
        var sts := Queries(script[..i]);
        HashStatement(p, st, order, Segments(sts));
        assert Queries(script[..i + 1]) == sts + [st];
        assert (sts + [st])[..i] == sts;
    }
    assert script[..|script|] == script;
    var digest := p.Final(order, false);
    FrontBits(digest[..], iSize / 8);
    r := Digest(digest[..iSize / 8]);
  }

  lemma EncodeNothing()
    ensures Encode([]) == []
  {
  }

  lemma FrontBits(a: seq<byte>, n: nat)
    requires n <= |a|
    ensures BitsOf(a[..n]) == BitsOf(a)[..8 * n]
  {
  }
}
