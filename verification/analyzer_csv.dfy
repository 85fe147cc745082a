/** `load_csv` of 1.py: rows already split into cells are folded into the
    marks dict and the entry-order list. The first non-blank row is checked
    for width and tested as a header; every later row is kept when it has
    two cells and a mark that parses. */
module AnalyzerCsv {
  import opened Wrappers
  import opened Text
  import opened Numeric
  import opened Assoc

  /** What `load_csv` returns: the marks dict (last mark per name wins) and
      the list of every accepted record in entry order. */
  datatype Loaded = Loaded(marks: seq<Entry<real>>, order: seq<Entry<real>>)

  const Nothing := Loaded([], [])

  /** `try_parse_mark`: strip, refuse the empty string, then hand the
      stripped text to `float`. A blank cell never yields a mark, whatever
      `float` would say about the empty string. */
  function TryParseMark(parse: Parser, cell: string): (r: Option<real>)
    ensures IsBlank(cell) ==> r == None
    ensures !IsBlank(cell) ==> r == parse(Strip(cell))
  {
    var s := Strip(cell);
    BlankIffStripsToEmpty(cell);
    if s == [] then None else parse(s)
  }

  /** Stripping a cell before `try_parse_mark` changes nothing: the header
      test on the stripped cell and the later parse of the raw cell agree. */
  lemma TryParseMarkIgnoresStrip(parse: Parser, cell: string)
    ensures TryParseMark(parse, Strip(cell)) == TryParseMark(parse, cell)
  {
    StripIdempotent(cell);
  }

  /** A row the per-row loop keeps: at least two cells and a mark that
      parses. */
  predicate IsAccepted(parse: Parser, row: Row)
    ensures IsAccepted(parse, row) ==> !IsBlankRow(row)
  {
    |row| >= 2 && TryParseMark(parse, row[1]).Some?
  }

  /** The record an accepted row contributes: the stripped name and the mark. */
  function RecordOf(parse: Parser, row: Row): (r: Entry<real>)
    requires IsAccepted(parse, row)
    ensures r.name == Strip(row[0])
    ensures r.name == [] || (!IsSpace(r.name[0]) && !IsSpace(r.name[|r.name| - 1]))
    ensures parse(Strip(row[1])) == Some(r.value)
  {
    Entry(Strip(row[0]), TryParseMark(parse, row[1]).value)
  }

  /** One pass of the per-row loop. A blank row, a row with fewer than two
      cells and a row whose mark does not parse change nothing; a kept row
      appends its record to the order and assigns its mark in the dict. */
  function Step(parse: Parser, s: Loaded, row: Row): (r: Loaded)
    ensures !IsAccepted(parse, row) ==> r == s
    ensures IsAccepted(parse, row) ==>
              r == Loaded(Put(s.marks, RecordOf(parse, row).name, RecordOf(parse, row).value), s.order + [RecordOf(parse, row)])
  {
    if IsBlankRow(row) then
      assert |row| >= 2 ==> IsBlank(row[1]);
      s
    else if |row| < 2 then s
    else
      match TryParseMark(parse, row[1])
      case None => s
      case Some(mark) =>
        var name := Strip(row[0]);
        Loaded(Put(s.marks, name, mark), s.order + [Entry(name, mark)])
  }

  /** The per-row loop over `rows`, starting from `s`. */
  function LoadRows(parse: Parser, s: Loaded, rows: seq<Row>): (r: Loaded)
    ensures |s.order| <= |r.order| <= |s.order| + |rows|
    ensures r.order[..|s.order|] == s.order
  {
    if |rows| == 0 then s
    else
      var before := LoadRows(parse, s, rows[..|rows| - 1]);
      var after := Step(parse, before, rows[|rows| - 1]);
      assert after.order[..|before.order|] == before.order;
      after
  }

  /** Index of the first non-blank row, or `|rows|` when every row is blank. */
  function FirstNonBlank(rows: seq<Row>): (k: nat)
    ensures k <= |rows|
    ensures forall i :: 0 <= i < k ==> IsBlankRow(rows[i])
    ensures k < |rows| ==> !IsBlankRow(rows[k])
  {
    if |rows| == 0 then 0
    else if !IsBlankRow(rows[0]) then 0
    else
      var k := FirstNonBlank(rows[1..]);
      assert forall i :: 1 <= i < |rows| ==> rows[i] == rows[1..][i - 1];
      1 + k
  }

  /** `load_csv` on the rows `csv.reader` yields. With no non-blank row, or
      a first non-blank row narrower than two cells, nothing is loaded. The
      first non-blank row is a header exactly when its second cell does not
      parse; otherwise it is loaded as data. The remaining rows go through
      the per-row loop. */
  function LoadCsv(parse: Parser, rows: seq<Row>): (r: Loaded)
    ensures Aborts(rows) || FirstNonBlank(rows) == |rows| ==> r == Nothing
    ensures |r.order| <= |rows|
  {
    var k := FirstNonBlank(rows);
    if k == |rows| then Nothing
    else if |rows[k]| < 2 then Nothing
    else LoadRows(parse, StartOf(parse, rows[k]), rows[k + 1..])
  }

  /** The load is abandoned when the first non-blank row has fewer than two
      cells. */
  predicate Aborts(rows: seq<Row>) {
    var k := FirstNonBlank(rows);
    k < |rows| && |rows[k]| < 2
  }

  /** The records of the accepted rows, in row order. */
  function Accepted(parse: Parser, rows: seq<Row>): (r: seq<Entry<real>>) {
    if |rows| == 0 then []
    else
      var last := rows[|rows| - 1];
      Accepted(parse, rows[..|rows| - 1]) + (if IsAccepted(parse, last) then [RecordOf(parse, last)] else [])
  }

  lemma {:induction false} AcceptedAppend(parse: Parser, a: seq<Row>, b: seq<Row>)
    ensures Accepted(parse, a + b) == Accepted(parse, a) + Accepted(parse, b)
  {
    if |b| == 0 {
      assert a + b == a;
    } else {
      AcceptedAppend(parse, a, b[..|b| - 1]);
      assert (a + b)[..|a + b| - 1] == a + b[..|b| - 1];
    }
  }

  lemma {:induction false} AcceptedBlank(parse: Parser, rows: seq<Row>)
    requires forall i :: 0 <= i < |rows| ==> IsBlankRow(rows[i])
    ensures Accepted(parse, rows) == []
  {
    if |rows| > 0 {
      AcceptedBlank(parse, rows[..|rows| - 1]);
      var last := rows[|rows| - 1];
      assert IsBlankRow(last);
      assert |last| >= 2 ==> IsBlank(last[1]);
    }
  }

  /** The loop appends exactly the accepted records to the order and keeps
      the dict equal to the replay of the order. */
  lemma {:induction false} LoadRowsRecords(parse: Parser, s: Loaded, rows: seq<Row>)
    requires s.marks == Replay(s.order)
    ensures LoadRows(parse, s, rows).order == s.order + Accepted(parse, rows)
    ensures LoadRows(parse, s, rows).marks == Replay(LoadRows(parse, s, rows).order)
  {
    if |rows| > 0 {
      var init := rows[..|rows| - 1];
      LoadRowsRecords(parse, s, init);
      var before := LoadRows(parse, s, init);
      var last := rows[|rows| - 1];
      var after := LoadRows(parse, s, rows);
      assert after == Step(parse, before, last);
      if IsAccepted(parse, last) {
        var e := RecordOf(parse, last);
        var o := before.order + [e];
        assert after.order == o;
        assert o[..|o| - 1] == before.order;
        assert Replay(o) == Put(Replay(before.order), e.name, e.value);
      } else {
        assert after == before;
      }
    }
  }

  /** What `load_csv` returns, stated without the loop: when the load is not
      abandoned, the order is the list of records of all accepted rows (a
      header row is never one of them), and the dict is what assigning
      those records in turn produces. */
  lemma LoadCsvCharacterization(parse: Parser, rows: seq<Row>)
    ensures Aborts(rows) ==> LoadCsv(parse, rows) == Nothing
    ensures !Aborts(rows) ==> LoadCsv(parse, rows).order == Accepted(parse, rows)
    ensures LoadCsv(parse, rows).marks == Replay(LoadCsv(parse, rows).order)
  {
    var k := FirstNonBlank(rows);
    if k == |rows| {
      AcceptedBlank(parse, rows);
    } else if |rows[k]| >= 2 {
      var first := rows[k];
      var rest := rows[k + 1..];
      AcceptedAfterBlanks(parse, rows, k);
      LoadRowsRecords(parse, StartOf(parse, first), rest);
    }
  }

  /** The state the loop starts from once the first non-blank row has been
      looked at: empty when it is a header (its stripped second cell does
      not parse), that row's record otherwise. The branch that skips a
      first row whose mark fails to parse after all is unreachable, so the
      first row is kept exactly when a later row like it would be. */
  function StartOf(parse: Parser, first: Row): (s: Loaded)
    requires |first| >= 2
    ensures s.marks == Replay(s.order)
    ensures s.order == if IsAccepted(parse, first) then [RecordOf(parse, first)] else []
  {
    var header := TryParseMark(parse, Strip(first[1])).None?;
    TryParseMarkIgnoresStrip(parse, first[1]);
    if header then Nothing
    else match TryParseMark(parse, first[1])
      case None => Nothing
      case Some(mark) =>
        var name := Strip(first[0]);
        assert Replay([Entry(name, mark)]) == Put([], name, mark) by {
          assert [Entry(name, mark)][..0] == [];
        }
        Loaded(Put([], name, mark), [Entry(name, mark)])
  }

  /** Only the first non-blank row and the rows after it contribute records. */
  lemma AcceptedAfterBlanks(parse: Parser, rows: seq<Row>, k: nat)
    requires k < |rows|
    requires forall i :: 0 <= i < k ==> IsBlankRow(rows[i])
    ensures Accepted(parse, rows) == (if IsAccepted(parse, rows[k]) then [RecordOf(parse, rows[k])] else []) + Accepted(parse, rows[k + 1..])
  {
    var first, blanks, rest := rows[k], rows[..k], rows[k + 1..];
    assert rows == (blanks + [first]) + rest;
    AcceptedAppend(parse, blanks + [first], rest);
    assert Accepted(parse, blanks + [first]) == Accepted(parse, [first]) by {
      AcceptedBlank(parse, blanks);
      AcceptedAppend(parse, blanks, [first]);
    }
    AcceptedSingle(parse, first);
  }

  /** A single row contributes its record exactly when it is accepted. */
  lemma AcceptedSingle(parse: Parser, row: Row)
    ensures Accepted(parse, [row]) == if IsAccepted(parse, row) then [RecordOf(parse, row)] else []
  {
    assert [row][..0] == [];
  }

  /** The first non-blank row is the unique index before which every row is
      blank. */
  lemma FirstNonBlankUnique(rows: seq<Row>, k: nat)
    requires k <= |rows|
    requires forall i :: 0 <= i < k ==> IsBlankRow(rows[i])
    requires k < |rows| ==> !IsBlankRow(rows[k])
    ensures FirstNonBlank(rows) == k
  {
  }

  lemma FirstNonBlankAppend(a: seq<Row>, b: seq<Row>)
    ensures FirstNonBlank(a + b) == if FirstNonBlank(a) < |a| then FirstNonBlank(a) else |a| + FirstNonBlank(b)
  {
    var ka := FirstNonBlank(a);
    if ka < |a| {
      FirstNonBlankUnique(a + b, ka);
    } else {
      var kb := FirstNonBlank(b);
      assert forall i :: |a| <= i < |a| + kb ==> (a + b)[i] == b[i - |a|];
      FirstNonBlankUnique(a + b, |a| + kb);
    }
  }

  /** After loading, the keys of the marks dict are exactly the names in the
      order list, the order list is at least as long as the dict, and each
      key holds the mark of the last record with that name. */
  lemma LoadCsvMarksFollowOrder(parse: Parser, rows: seq<Row>)
    ensures var r := LoadCsv(parse, rows);
            && UniqueKeys(r.marks)
            && (forall n :: n in Names(r.marks) <==> n in Names(r.order))
            && |r.order| >= |r.marks|
    ensures var r := LoadCsv(parse, rows);
            forall i :: 0 <= i < |r.order| && (forall j :: i < j < |r.order| ==> r.order[j].name != r.order[i].name) ==>
              Lookup(r.marks, r.order[i].name) == Some(r.order[i].value)
  {
    var r := LoadCsv(parse, rows);
    LoadCsvCharacterization(parse, rows);
    ReplayNames(r.order);
    forall i | 0 <= i < |r.order| && (forall j :: i < j < |r.order| ==> r.order[j].name != r.order[i].name)
      ensures Lookup(r.marks, r.order[i].name) == Some(r.order[i].value)
    {
      LastWriteWins(r.order, i);
    }
  }

  /** Two row lists that agree on abandonment and on their accepted
      records load the same. */
  lemma SameLoad(parse: Parser, x: seq<Row>, y: seq<Row>)
    requires Aborts(x) == Aborts(y)
    requires Accepted(parse, x) == Accepted(parse, y)
    ensures LoadCsv(parse, x) == LoadCsv(parse, y)
  {
    LoadCsvCharacterization(parse, x);
    LoadCsvCharacterization(parse, y);
  }

  /** Inserting a row that contributes no record leaves the records alone. */
  lemma AcceptedSkip(parse: Parser, a: seq<Row>, row: Row, b: seq<Row>)
    requires !IsAccepted(parse, row)
    ensures Accepted(parse, a + [row] + b) == Accepted(parse, a + b)
  {
    AcceptedSingle(parse, row);
    AcceptedAppend(parse, a, [row]);
    assert Accepted(parse, a + [row]) == Accepted(parse, a);
    AcceptedAppend(parse, a + [row], b);
    AcceptedAppend(parse, a, b);
  }

  lemma AbortsBlankInsert(a: seq<Row>, row: Row, b: seq<Row>)
    requires IsBlankRow(row)
    ensures Aborts(a + [row] + b) == Aborts(a + b)
  {
    var with, without := a + [row] + b, a + b;
    FirstNonBlankAppend(a + [row], b);
    FirstNonBlankAppend(a, [row]);
    FirstNonBlankAppend(a, b);
    assert FirstNonBlank([row]) == 1;
    var ka, kb := FirstNonBlank(a), FirstNonBlank(b);
    if ka < |a| {
      assert with[ka] == a[ka] && without[ka] == a[ka];
    } else {
      assert FirstNonBlank(a + [row]) == |a| + 1;
      assert FirstNonBlank(with) == |a| + 1 + kb;
      assert FirstNonBlank(without) == |a| + kb;
      if kb < |b| {
        assert with[|a| + 1 + kb] == b[kb];
        assert without[|a| + kb] == b[kb];
      }
    }
  }

  lemma AbortsLaterInsert(a: seq<Row>, row: Row, b: seq<Row>)
    requires FirstNonBlank(a) < |a|
    ensures Aborts(a + [row] + b) == Aborts(a + b)
  {
    var with, without := a + [row] + b, a + b;
    FirstNonBlankAppend(a + [row], b);
    FirstNonBlankAppend(a, [row]);
    FirstNonBlankAppend(a, b);
    var k := FirstNonBlank(a);
    assert with[k] == a[k] && without[k] == a[k];
  }

  /** A blank row, wherever it stands, changes nothing. */
  lemma BlankRowIgnored(parse: Parser, a: seq<Row>, row: Row, b: seq<Row>)
    requires IsBlankRow(row)
    ensures LoadCsv(parse, a + [row] + b) == LoadCsv(parse, a + b)
  {
    AbortsBlankInsert(a, row, b);
    AcceptedBlank(parse, [row]);
    AcceptedSkip(parse, a, row, b);
    SameLoad(parse, a + [row] + b, a + b);
  }

  /** Once a non-blank row has been seen, a later row that is not accepted
      (too few cells, or a mark that does not parse) changes nothing. */
  lemma LaterRejectedRowIgnored(parse: Parser, a: seq<Row>, row: Row, b: seq<Row>)
    requires FirstNonBlank(a) < |a|
    requires !IsAccepted(parse, row)
    ensures LoadCsv(parse, a + [row] + b) == LoadCsv(parse, a + b)
  {
    AbortsLaterInsert(a, row, b);
    AcceptedSkip(parse, a, row, b);
    SameLoad(parse, a + [row] + b, a + b);
  }

  /** Unless the load was abandoned, an accepted row appends its record to
      the order and assigns its mark in the dict, keeping the key's place
      when the name is already there. */
  lemma AcceptedRowAppends(parse: Parser, a: seq<Row>, row: Row)
    requires !Aborts(a)
    requires IsAccepted(parse, row)
    ensures var before, e := LoadCsv(parse, a), RecordOf(parse, row);
            LoadCsv(parse, a + [row]) == Loaded(Put(before.marks, e.name, e.value), before.order + [e])
  {
    var e := RecordOf(parse, row);
    var with := a + [row];
    FirstNonBlankAppend(a, [row]);
    assert !IsBlank(row[1]);
    assert !IsBlankRow(row);
    assert FirstNonBlank([row]) == 0;
    assert !Aborts(with);
    LoadCsvCharacterization(parse, a);
    LoadCsvCharacterization(parse, with);
    AcceptedAppend(parse, a, [row]);
    AcceptedSingle(parse, row);
    var o := Accepted(parse, with);
    assert o == Accepted(parse, a) + [e];
    assert o[..|o| - 1] == Accepted(parse, a);
  }

  /** The first non-blank row is dropped as a header exactly when its second
      cell does not parse as a mark; otherwise its record heads the order. */
  lemma HeaderRowDropped(parse: Parser, rows: seq<Row>)
    requires FirstNonBlank(rows) < |rows|
    requires |rows[FirstNonBlank(rows)]| >= 2
    ensures var k := FirstNonBlank(rows);
            var first := rows[k];
            LoadCsv(parse, rows).order ==
              match TryParseMark(parse, Strip(first[1]))
              case None => Accepted(parse, rows[k + 1..])
              case Some(mark) => [Entry(Strip(first[0]), mark)] + Accepted(parse, rows[k + 1..])
  {
    var k := FirstNonBlank(rows);
    var first := rows[k];
    var start := StartOf(parse, first);
    assert LoadCsv(parse, rows) == LoadRows(parse, start, rows[k + 1..]);
    LoadRowsRecords(parse, start, rows[k + 1..]);
    TryParseMarkIgnoresStrip(parse, first[1]);
  }

}
