/** `load_csv` of gradebook.py: every row with two cells and a score that
    parses is assigned into the marks dict, an empty name becoming
    `"<Unknown>"`. There is no header detection and no entry-order list. */
module GradebookCsv {
  import opened Wrappers
  import opened Text
  import opened Numeric
  import opened Assoc

  /** The placeholder an empty name is replaced with. */
  const Unknown: string := "<Unknown>"

  /** The key a stripped name is stored under: never empty, the name
      itself whenever it is not empty, and the placeholder when it is. */
  function KeyFor(name: string): (k: string)
    ensures k != []
    ensures name != [] ==> k == name
    ensures name == [] ==> k == Unknown
  {
    if name == "" then Unknown else name
  }

  /** A row the loop keeps: at least two cells and a stripped score that
      parses. */
  predicate IsAccepted(parse: Parser, row: Row)
    ensures IsAccepted(parse, row) ==> |row| >= 2 && (parse([]) == None ==> !IsBlankRow(row))
  {
    if |row| < 2 then false
    else
      BlankIffStripsToEmpty(row[1]);
      parse(Strip(row[1])).Some?
  }

  /** The record a kept row stores: its key and its score. */
  function RecordOf(parse: Parser, row: Row): (r: Entry<real>)
    requires IsAccepted(parse, row)
    ensures r.name != []
    ensures Strip(row[0]) != [] ==> r.name == Strip(row[0])
    ensures Strip(row[0]) == [] ==> r.name == Unknown
    ensures parse(Strip(row[1])) == Some(r.value)
  {
    Entry(KeyFor(Strip(row[0])), parse(Strip(row[1])).value)
  }

  /** No key of the dict is the empty string. */
  predicate NoEmptyKey(m: seq<Entry<real>>) {
    forall i :: 0 <= i < |m| ==> m[i].name != []
  }

  /** One pass of the loop. An empty row, a row with one cell and a row
      whose score does not parse leave the dict as it was; a kept row
      assigns its score under its key. */
  function Step(parse: Parser, marks: seq<Entry<real>>, row: Row): (r: seq<Entry<real>>)
    ensures !IsAccepted(parse, row) ==> r == marks
    ensures IsAccepted(parse, row) ==> r == Put(marks, RecordOf(parse, row).name, RecordOf(parse, row).value)
  {
    if |row| == 0 then marks
    else
      var name := Strip(row[0]);
      if |row| < 2 then marks
      else
        match parse(Strip(row[1]))
        case None => marks
        case Some(score) => Put(marks, KeyFor(name), score)
  }

  /** A kept row's key looks up to its score afterwards, every other key
      keeps its value, and a dict with unique, non-empty keys keeps both. */
  lemma StepKeys(parse: Parser, marks: seq<Entry<real>>, row: Row)
    requires UniqueKeys(marks) && NoEmptyKey(marks)
    ensures UniqueKeys(Step(parse, marks, row)) && NoEmptyKey(Step(parse, marks, row))
    ensures IsAccepted(parse, row) ==>
              forall k :: Lookup(Step(parse, marks, row), k) == if k == RecordOf(parse, row).name then Some(RecordOf(parse, row).value) else Lookup(marks, k)
  {
    if IsAccepted(parse, row) {
      var e := RecordOf(parse, row);
      assert Step(parse, marks, row) == Put(marks, e.name, e.value);
      PutKeys(marks, e);
    }
  }

  /** Assigning a non-empty key keeps the keys unique and non-empty, and
      changes the lookup of that key only. */
  lemma PutKeys(marks: seq<Entry<real>>, e: Entry<real>)
    requires UniqueKeys(marks) && NoEmptyKey(marks) && e.name != []
    ensures UniqueKeys(Put(marks, e.name, e.value)) && NoEmptyKey(Put(marks, e.name, e.value))
    ensures forall k :: Lookup(Put(marks, e.name, e.value), k) == if k == e.name then Some(e.value) else Lookup(marks, k)
  {
    var r := Put(marks, e.name, e.value);
    forall k
      ensures Lookup(r, k) == if k == e.name then Some(e.value) else Lookup(marks, k)
    {
      LookupPut(marks, e.name, e.value, k);
    }
    if e.name in Names(marks) {
      forall i | 0 <= i < |r|
        ensures r[i].name != []
      {
        assert r[i].name == Names(r)[i] == Names(marks)[i] == marks[i].name;
      }
    } else {
      assert r == marks + [e];
    }
  }

  /** The loop over `rows`, starting from `marks`. */
  function LoadRows(parse: Parser, marks: seq<Entry<real>>, rows: seq<Row>): (r: seq<Entry<real>>)
    ensures |marks| <= |r| <= |marks| + |rows|
    ensures Names(r)[..|marks|] == Names(marks)
  {
    if |rows| == 0 then marks
    else
      var before := LoadRows(parse, marks, rows[..|rows| - 1]);
      var after := Step(parse, before, rows[|rows| - 1]);
      assert Names(after)[..|before|] == Names(before);
      after
  }

  /** `load_csv` on the rows `csv.reader` yields. */
  function LoadCsv(parse: Parser, rows: seq<Row>): (r: seq<Entry<real>>)
    ensures |r| <= |rows|
  {
    LoadRows(parse, [], rows)
  }

  /** The records of the accepted rows, in row order. */
  function Accepted(parse: Parser, rows: seq<Row>): (r: seq<Entry<real>>) {
    if |rows| == 0 then []
    else
      var last := rows[|rows| - 1];
      Accepted(parse, rows[..|rows| - 1]) + (if IsAccepted(parse, last) then [RecordOf(parse, last)] else [])
  }

  lemma {:induction false} AcceptedAppend(parse: Parser, a: seq<Row>, b: seq<Row>)
    ensures Accepted(parse, a + b) == Accepted(parse, a) + Accepted(parse, b)
  {
    if |b| == 0 {
      assert a + b == a;
    } else {
      AcceptedAppend(parse, a, b[..|b| - 1]);
      assert (a + b)[..|a + b| - 1] == a + b[..|b| - 1];
    }
  }

  /** What `load_csv` returns, stated without the loop: the dict obtained by
      assigning the records of the accepted rows in turn. */
  lemma {:induction false} LoadCsvCharacterization(parse: Parser, rows: seq<Row>)
    ensures LoadCsv(parse, rows) == Replay(Accepted(parse, rows))
  {
    if |rows| > 0 {
      var init := rows[..|rows| - 1];
      var last := rows[|rows| - 1];
      LoadCsvCharacterization(parse, init);
      var before := LoadCsv(parse, init);
      assert LoadCsv(parse, rows) == Step(parse, before, last);
      if IsAccepted(parse, last) {
        var e := RecordOf(parse, last);
        var o := Accepted(parse, init) + [e];
        assert Accepted(parse, rows) == o;
        assert o[..|o| - 1] == Accepted(parse, init);
        assert Replay(o) == Put(Replay(Accepted(parse, init)), e.name, e.value);
      } else {
        assert Accepted(parse, rows) == Accepted(parse, init);
      }
    }
  }

  /** After loading, the dict has no empty key, and a key holds the score
      of the last accepted row that names it. */
  lemma LoadCsvKeys(parse: Parser, rows: seq<Row>)
    ensures UniqueKeys(LoadCsv(parse, rows)) && NoEmptyKey(LoadCsv(parse, rows))
    ensures var o := Accepted(parse, rows);
            forall i :: 0 <= i < |o| && (forall j :: i < j < |o| ==> o[j].name != o[i].name) ==>
              Lookup(LoadCsv(parse, rows), o[i].name) == Some(o[i].value)
  {
    NoEmptyKeyAfterRows(parse, rows);
    LoadCsvCharacterization(parse, rows);
    var o := Accepted(parse, rows);
    forall i | 0 <= i < |o| && (forall j :: i < j < |o| ==> o[j].name != o[i].name)
      ensures Lookup(LoadCsv(parse, rows), o[i].name) == Some(o[i].value)
    {
      LastWriteWins(o, i);
    }
  }

  lemma {:induction false} NoEmptyKeyAfterRows(parse: Parser, rows: seq<Row>)
    ensures UniqueKeys(LoadCsv(parse, rows)) && NoEmptyKey(LoadCsv(parse, rows))
  {
    if |rows| > 0 {
      NoEmptyKeyAfterRows(parse, rows[..|rows| - 1]);
      StepKeys(parse, LoadCsv(parse, rows[..|rows| - 1]), rows[|rows| - 1]);
    }
  }

  /** A row that is not accepted changes nothing, wherever it stands. */
  lemma SkippedRowIgnored(parse: Parser, a: seq<Row>, row: Row, b: seq<Row>)
    requires !IsAccepted(parse, row)
    ensures LoadCsv(parse, a + [row] + b) == LoadCsv(parse, a + b)
  {
    AcceptedSkip(parse, a, row, b);
    LoadCsvCharacterization(parse, a + [row] + b);
    LoadCsvCharacterization(parse, a + b);
  }

  /** Inserting a row that contributes no record leaves the records alone. */
  lemma AcceptedSkip(parse: Parser, a: seq<Row>, row: Row, b: seq<Row>)
    requires !IsAccepted(parse, row)
    ensures Accepted(parse, a + [row] + b) == Accepted(parse, a + b)
  {
    assert [row][..0] == [];
    assert Accepted(parse, [row]) == [];
    AcceptedAppend(parse, a, [row]);
    assert Accepted(parse, a + [row]) == Accepted(parse, a);
    AcceptedAppend(parse, a + [row], b);
    AcceptedAppend(parse, a, b);
  }

  /** The last accepted row decides the score stored under its key. */
  lemma LastAcceptedRowWins(parse: Parser, a: seq<Row>, row: Row)
    requires IsAccepted(parse, row)
    ensures Lookup(LoadCsv(parse, a + [row]), RecordOf(parse, row).name) == Some(RecordOf(parse, row).value)
  {
    NoEmptyKeyAfterRows(parse, a);
    assert (a + [row])[..|a|] == a;
    StepKeys(parse, LoadCsv(parse, a), row);
  }
}
