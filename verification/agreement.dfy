/** How the two loaders relate. Given the same `float`, one that rejects
    the empty string as Python's does, they accept the same rows and read
    the same scores. gradebook.py has no header detection, but a header row fails to
    parse and is skipped there too. So the two dicts coincide, except when
    1.py abandons the load because its first non-blank row is short, or a
    kept row has an empty name, which gradebook.py stores as
    `"<Unknown>"`. */
module Agreement {
  import opened Wrappers
  import opened Text
  import opened Numeric
  import opened Assoc
  import AnalyzerCsv
  import GradebookCsv
  import Analyzer
  import GradebookAnalysis

  /** Both loaders keep exactly the same rows. */
  lemma SameRowsAccepted(parse: Parser, row: Row)
    requires parse([]) == None
    ensures AnalyzerCsv.IsAccepted(parse, row) <==> GradebookCsv.IsAccepted(parse, row)
  {
    if |row| >= 2 {
      BlankIffStripsToEmpty(row[1]);
    }
  }

  /** Every kept row has a name that is not blank. */
  predicate NamedRows(parse: Parser, rows: seq<Row>) {
    forall i :: 0 <= i < |rows| && AnalyzerCsv.IsAccepted(parse, rows[i]) ==> Strip(rows[i][0]) != []
  }

  /** With the same rows kept and no empty names, both read the same records. */
  lemma {:induction false} SameRecords(parse: Parser, rows: seq<Row>)
    requires parse([]) == None
    requires NamedRows(parse, rows)
    ensures AnalyzerCsv.Accepted(parse, rows) == GradebookCsv.Accepted(parse, rows)
  {
    if |rows| > 0 {
      var init := rows[..|rows| - 1];
      assert NamedRows(parse, init) by {
        forall i | 0 <= i < |init| && AnalyzerCsv.IsAccepted(parse, init[i])
          ensures Strip(init[i][0]) != []
        {
          assert init[i] == rows[i];
        }
      }
      SameRecords(parse, init);
    }
  }

  /** When 1.py does not abandon the load and no kept row has an empty
      name, both versions of `load_csv` build the same dict. */
  lemma LoadersAgree(parse: Parser, rows: seq<Row>)
    requires parse([]) == None
    requires !AnalyzerCsv.Aborts(rows) && NamedRows(parse, rows)
    ensures GradebookCsv.LoadCsv(parse, rows) == AnalyzerCsv.LoadCsv(parse, rows).marks
  {
    AnalyzerCsv.LoadCsvCharacterization(parse, rows);
    GradebookCsv.LoadCsvCharacterization(parse, rows);
    SameRecords(parse, rows);
  }

  /** When the first non-blank row is short, 1.py returns nothing, whereas
      gradebook.py skips that row and loads the others as usual. */
  lemma ShortFirstRowDiverges(parse: Parser, a: seq<Row>, first: Row, b: seq<Row>)
    requires parse([]) == None
    requires forall i :: 0 <= i < |a| ==> IsBlankRow(a[i])
    requires !IsBlankRow(first) && |first| < 2
    ensures AnalyzerCsv.LoadCsv(parse, a + [first] + b) == AnalyzerCsv.Nothing
    ensures GradebookCsv.LoadCsv(parse, a + [first] + b) == GradebookCsv.LoadCsv(parse, b)
  {
    var rows := a + [first] + b;
    assert AnalyzerCsv.FirstNonBlank(rows) == |a| by {
      AnalyzerCsv.FirstNonBlankUnique(rows, |a|);
    }
    AnalyzerCsv.LoadCsvCharacterization(parse, rows);
    GradebookCsv.SkippedRowIgnored(parse, a, first, b);
    BlankRowsSkipped(parse, a, b);
  }

  /** With its default threshold, gradebook.py's `pass_fail_lists` splits
      a dict exactly as 1.py splits its student list at 40. This holds by
      definition: both are the same two comprehensions at the same bound. */
  lemma DefaultSplitAgrees(marks: seq<Entry<real>>)
    requires UniqueKeys(marks)
    ensures GradebookAnalysis.PassFailLists(marks, GradebookAnalysis.DefaultThreshold) == Analyzer.PassedAndFailed(marks)
  {
  }

  /** Leading blank rows do not change what gradebook.py loads. */
  lemma BlankRowsSkipped(parse: Parser, a: seq<Row>, b: seq<Row>)
    requires parse([]) == None
    requires forall i :: 0 <= i < |a| ==> IsBlankRow(a[i])
    ensures GradebookCsv.LoadCsv(parse, a + b) == GradebookCsv.LoadCsv(parse, b)
  {
    BlankRowsRejected(parse, a);
    GradebookCsv.AcceptedAppend(parse, a, b);
    assert GradebookCsv.Accepted(parse, a + b) == GradebookCsv.Accepted(parse, b);
    GradebookCsv.LoadCsvCharacterization(parse, a + b);
    GradebookCsv.LoadCsvCharacterization(parse, b);
  }

  /** gradebook.py keeps no blank row: its score cell, if any, strips to
      the empty string, which does not parse. */
  lemma {:induction false} BlankRowsRejected(parse: Parser, a: seq<Row>)
    requires parse([]) == None
    requires forall i :: 0 <= i < |a| ==> IsBlankRow(a[i])
    ensures GradebookCsv.Accepted(parse, a) == []
  {
    if |a| > 0 {
      var last := a[|a| - 1];
      if |last| >= 2 {
        assert IsBlank(last[1]);
        BlankIffStripsToEmpty(last[1]);
      }
      BlankRowsRejected(parse, a[..|a| - 1]);
    }
  }
}
