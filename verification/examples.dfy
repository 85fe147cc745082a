/** The sample data hard-coded in 1.py, worked through the model, and two
    cells of a CSV file. */
module Examples {
  import opened Wrappers
  import opened Numeric
  import opened Assoc
  import opened Stats
  import opened Grades
  import Analyzer
  import GradebookCsv

  /** `sample_marks`, the data of 1.py's analysis summary. */
  const SampleMarks: seq<Entry<real>> := [
    Entry("Alice", 85.0), Entry("Bob", 92.0), Entry("Charlie", 78.0),
    Entry("Diana", 92.0), Entry("Evan", 69.0), Entry("Fiona", 85.0)]

  const SampleScores: seq<real> := [85.0, 92.0, 78.0, 92.0, 69.0, 85.0]

  lemma SampleValues()
    ensures Values(SampleMarks) == SampleScores
  {
  }

  /** The average of `sample_marks` is 83.5. */
  lemma SampleMean()
    ensures Mean(Values(SampleMarks)) == 83.5
  {
    SampleValues();
    var v := SampleScores;
    assert v[..0] == [];
    SumPrefix(v, 0);
    SumPrefix(v, 1);
    SumPrefix(v, 2);
    SumPrefix(v, 3);
    SumPrefix(v, 4);
    SumPrefix(v, 5);
    assert v[..6] == v;
  }

  /** The six scores in ascending order. */
  const SortedScores: seq<real> := [69.0, 78.0, 85.0, 85.0, 92.0, 92.0]

  /** Their middle is 85, the mean of the two central 85s. */
  lemma SortedScoresMiddle()
    ensures Sorted(SortedScores) && Middle(SortedScores) == 85.0
  {
  }

  /** In whatever order a dict holds these six scores, the median is 85. */
  lemma SixScoresMedian(v: seq<real>)
    requires multiset(v) == multiset([85.0, 92.0, 78.0, 92.0, 69.0, 85.0])
    ensures |v| > 0 && Median(v) == 85.0
  {
    assert |v| == |multiset(v)| == 6;
    assert multiset(SortedScores) == multiset(v);
    SortedScoresMiddle();
    MedianOfSorted(v, SortedScores);
  }

  /** The median of `sample_marks` is 85. */
  lemma SampleMedian()
    ensures Median(Values(SampleMarks)) == 85.0
  {
    SampleValues();
    SixScoresMedian(Values(SampleMarks));
  }

  /** The maximum of `sample_marks` is 92, reached by Bob and Diana. */
  lemma SampleTop()
    ensures MaxOf(Values(SampleMarks)) == 92.0 && NamesWhere(SampleMarks, EqualTo(92.0)) == ["Bob", "Diana"]
  {
    SampleValues();
    assert MaxOf(SampleScores) == 92.0;
    SampleTopNames();
  }

  lemma SampleTopNames()
    ensures NamesWhere(SampleMarks, EqualTo(92.0)) == ["Bob", "Diana"]
  {
  }

  /** The minimum of `sample_marks` is 69, reached by Evan alone. */
  lemma SampleBottom()
    ensures MinOf(Values(SampleMarks)) == 69.0 && NamesWhere(SampleMarks, EqualTo(69.0)) == ["Evan"]
  {
    SampleValues();
    assert MinOf(SampleScores) == 69.0;
    SampleBottomNames();
  }

  lemma SampleBottomNames()
    ensures NamesWhere(SampleMarks, EqualTo(69.0)) == ["Evan"]
  {
  }

  /** `scores`, the data of 1.py's grade table. */
  const Scores: seq<Entry<real>> := [
    Entry("Alice", 87.0), Entry("Bob", 93.0), Entry("Charlie", 68.0), Entry("Diana", 74.0),
    Entry("Eve", 58.0), Entry("Frank", 100.0), Entry("Grace", 82.0)]

  /** The letters of `scores`, in dict order. */
  lemma ScoresGrades()
    ensures Values(GradeAll(Scores)) == [B, A, D, C, F, A, B]
  {
  }

  lemma SevenCounts(gs: seq<Grade>)
    requires gs == [B, A, D, C, F, A, B]
    ensures CountGrade(gs, A) == 2 && CountGrade(gs, B) == 2 && CountGrade(gs, C) == 1
    ensures CountGrade(gs, D) == 1 && CountGrade(gs, F) == 1
  {
  }

  /** Two A (93, 100), two B (87, 82), one C (74), one D (68) and one F
      (58). */
  lemma ScoresDistribution()
    ensures var d := CounterDistribution(Values(GradeAll(Scores)));
            d[A] == 2 && d[B] == 2 && d[C] == 1 && d[D] == 1 && d[F] == 1
  {
    ScoresGrades();
    SevenCounts(Values(GradeAll(Scores)));
  }

  /** The inclusive thresholds at work. */
  lemma Boundaries()
    ensures AssignGrade(90.0) == A && AssignGrade(89.99) == B && AssignGrade(59.99) == F
  {
  }

  /** `students`, the list 1.py splits at 40. */
  const Students: seq<Entry<real>> := [
    Entry("Alice", 85.0), Entry("Bob", 30.0), Entry("Charlie", 45.0),
    Entry("David", 20.0), Entry("Eve", 60.0)]

  lemma StudentsSplit()
    ensures Analyzer.PassedAndFailed(Students) == Split(["Alice", "Charlie", "Eve"], ["Bob", "David"])
  {
    assert Select(Students, AtLeast(Analyzer.PassMark)) == ["Alice", "Charlie", "Eve"];
    assert Select(Students, Below(Analyzer.PassMark)) == ["Bob", "David"];
  }

  /** A row whose score is not a number is skipped wherever it stands. */
  lemma BadRowSkipped(a: seq<seq<string>>, b: seq<seq<string>>)
    ensures GradebookCsv.LoadCsv(ParseFloat, a + [["Bob", "not_a_number"]] + b) == GradebookCsv.LoadCsv(ParseFloat, a + b)
  {
    assert !HasDigit("not_a_number");
    ParseFloatIgnoresStrip("not_a_number");
    GradebookCsv.SkippedRowIgnored(ParseFloat, a, ["Bob", "not_a_number"], b);
  }

  /** A plain integer cell is read as its value. */
  lemma IntegerCell()
    ensures ParseFloat("85") == Some(85.0)
  {
    assert Render(85) == "85";
    ParseRenderRoundTrip(85);
  }
}
