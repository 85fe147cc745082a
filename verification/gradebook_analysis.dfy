/** The analysis functions of gradebook.py. They return `None` (or an empty
    name list with `None`) for an empty dict instead of failing, assign
    letters and count them in one loop, and split at a threshold that
    defaults to 40. */
module GradebookAnalysis {
  import opened Wrappers
  import opened Assoc
  import opened Stats
  import opened Grades
  import Analyzer

  /** `calculate_average` (`statistics.mean`): `None` exactly for an empty
      dict; otherwise the number that, times the number of scores, gives
      their sum. Lemma AverageWithinExtremes places it between the lowest
      and the highest score. */
  function CalculateAverage(marks: seq<Entry<real>>): (r: Option<real>)
    ensures r.None? <==> |marks| == 0
    ensures r.Some? ==> r.value * (|marks| as real) == Sum(Values(marks))
  {
    if |marks| == 0 then None
    else
      assert |Values(marks)| == |marks|;
      Some(Mean(Values(marks)))
  }

  /** The average lies between the lowest and the highest score. */
  lemma AverageWithinExtremes(marks: seq<Entry<real>>)
    requires |marks| > 0
    ensures MinOf(Values(marks)) <= CalculateAverage(marks).value <= MaxOf(Values(marks))
  {
    MeanWithinExtremes(Values(marks));
  }

  /** `calculate_median` (`statistics.median`): `None` exactly for an empty
      dict; otherwise the middle of the sorted scores (the central one, or
      the mean of the two central ones), a value between the lowest and the
      highest score with at least half of the scores on each side, itself a
      score when their number is odd. */
  function CalculateMedian(marks: seq<Entry<real>>): (r: Option<real>)
    ensures r.None? <==> |marks| == 0
    ensures r.Some? ==> forall w :: Sorted(w) && multiset(w) == multiset(Values(marks)) ==> |w| > 0 && r.value == Middle(w)
    ensures r.Some? ==> MinOf(Values(marks)) <= r.value <= MaxOf(Values(marks))
    ensures r.Some? ==> 2 * Count(Values(marks), AtMost(r.value)) >= |marks|
    ensures r.Some? ==> 2 * Count(Values(marks), AtLeast(r.value)) >= |marks|
    ensures r.Some? && |marks| % 2 == 1 ==> r.value in Values(marks)
  {
    if |marks| == 0 then None
    else
      MedianIsMiddle(Values(marks));
      Some(Median(Values(marks)))
  }

  /** An extreme score, if any, with the names that reach it. */
  datatype Extremes = Extremes(names: seq<string>, score: Option<real>)

  /** `find_max_score`: `([], None)` exactly for an empty dict; otherwise a
      score no smaller than any other and reached by some student, and the
      names whose score equals it, in dict order. */
  function FindMaxScore(marks: seq<Entry<real>>): (r: Extremes)
    ensures r.score.None? <==> |marks| == 0
    ensures r.names == [] <==> |marks| == 0
    ensures r.score.Some? ==> forall i :: 0 <= i < |marks| ==> marks[i].value <= r.score.value
    ensures r.score.Some? ==> exists i :: 0 <= i < |marks| && marks[i].value == r.score.value
    ensures IsSubsequence(r.names, Names(marks))
    ensures forall n :: n in r.names <==> exists i :: 0 <= i < |marks| && marks[i].name == n && Some(marks[i].value) == r.score
  {
    if |marks| == 0 then Extremes([], None)
    else
      var top := MaxOf(Values(marks));
      Analyzer.NamesReachingScore(marks, top);
      Extremes(NamesWhere(marks, EqualTo(top)), Some(top))
  }

  /** `find_min_score`, the mirror image of `FindMaxScore`. */
  function FindMinScore(marks: seq<Entry<real>>): (r: Extremes)
    ensures r.score.None? <==> |marks| == 0
    ensures r.names == [] <==> |marks| == 0
    ensures r.score.Some? ==> forall i :: 0 <= i < |marks| ==> r.score.value <= marks[i].value
    ensures r.score.Some? ==> exists i :: 0 <= i < |marks| && marks[i].value == r.score.value
    ensures IsSubsequence(r.names, Names(marks))
    ensures forall n :: n in r.names <==> exists i :: 0 <= i < |marks| && marks[i].name == n && Some(marks[i].value) == r.score
  {
    if |marks| == 0 then Extremes([], None)
    else
      var bottom := MinOf(Values(marks));
      Analyzer.NamesReachingScore(marks, bottom);
      Extremes(NamesWhere(marks, EqualTo(bottom)), Some(bottom))
  }

  /** The distribution `assign_grades` starts from: every letter at zero. */
  const NoGrades: map<Grade, nat> := map[A := 0, B := 0, C := 0, D := 0, F := 0]

  lemma NoGradesCoversAll()
    ensures forall g: Grade :: g in NoGrades && NoGrades[g] == 0
  {
    forall g: Grade
      ensures g in NoGrades && NoGrades[g] == 0
    {
      match g
      case A =>
      case B =>
      case C =>
      case D =>
      case F =>
    }
  }

  /** `assign_grades`: one pass over the dict storing each student's letter
      and counting it. The grades dict has the students' names in the same
      order, each with the letter of its score; the distribution has every
      letter, each with the number of students holding it, and so agrees
      with 1.py's `Counter`-based distribution; its counts add up to the
      number of students. */
  method AssignGrades(marks: seq<Entry<real>>) returns (grades: seq<Entry<Grade>>, dist: map<Grade, nat>)
    requires UniqueKeys(marks)
    ensures grades == GradeAll(marks)
    ensures forall g: Grade :: g in dist && dist[g] == CountGrade(Values(grades), g)
    ensures dist == CounterDistribution(Values(grades))
    ensures dist[A] + dist[B] + dist[C] + dist[D] + dist[F] == |marks|
  {
    grades := [];
    dist := NoGrades;
    NoGradesCoversAll();
    assert Values(grades) == [];
    var i := 0;
    while i < |marks|
      invariant 0 <= i <= |marks|
      invariant grades == GradeAll(marks[..i])
      invariant forall g: Grade :: g in dist && dist[g] == CountGrade(Values(grades), g)
    {
      var g := AssignGrade(marks[i].value);
      GradeNext(marks, i);
      CountStep(dist, Values(grades), g);
      grades := Put(grades, marks[i].name, g);
      dist := dist[g := dist[g] + 1];
      i := i + 1;
    }
    assert marks[..i] == marks;
    DistributionAgrees(Values(grades), dist);
  }

  /** Grading one more student of a dict appends that student's entry, and
      its letter to the letters. */
  lemma GradeNext(marks: seq<Entry<real>>, i: nat)
    requires UniqueKeys(marks) && i < |marks|
    ensures Put(GradeAll(marks[..i]), marks[i].name, AssignGrade(marks[i].value)) == GradeAll(marks[..i + 1])
    ensures Values(GradeAll(marks[..i + 1])) == Values(GradeAll(marks[..i])) + [AssignGrade(marks[i].value)]
  {
    var before := GradeAll(marks[..i]);
    assert marks[i].name !in Names(before) by {
      assert Names(before) == Names(marks[..i]);
    }
  }

  /** Adding one to the count of the letter appended keeps the map
      counting every letter. */
  lemma CountStep(dist: map<Grade, nat>, gs: seq<Grade>, g: Grade)
    requires forall h: Grade :: h in dist && dist[h] == CountGrade(gs, h)
    ensures forall h: Grade :: h in dist[g := dist[g] + 1] && dist[g := dist[g] + 1][h] == CountGrade(gs + [g], h)
  {
    CountGradeSnoc(gs, g);
  }

  /** A map counting every letter is 1.py's distribution, and its counts
      add up to the number of letters. */
  lemma DistributionAgrees(gs: seq<Grade>, dist: map<Grade, nat>)
    requires forall g: Grade :: g in dist && dist[g] == CountGrade(gs, g)
    ensures dist == CounterDistribution(gs)
    ensures dist[A] + dist[B] + dist[C] + dist[D] + dist[F] == |gs|
  {
    SameCounts(dist, CounterDistribution(gs));
    LetterCountsSum(gs);
  }

  /** Two maps holding the same count for every letter are equal. */
  lemma SameCounts(d1: map<Grade, nat>, d2: map<Grade, nat>)
    requires forall g: Grade :: g in d1 && g in d2 && d1[g] == d2[g]
    ensures d1 == d2
  {
    assert d1.Keys == d2.Keys;
  }

  /** The default pass mark. */
  const DefaultThreshold: real := 40.0

  /** `pass_fail_lists`: the names scoring at least `threshold` and the
      names scoring below it, each in dict order. No name is on both lists,
      every name of the dict is on exactly one of them exactly once, and a
      name is on `passed` exactly when its score reaches the threshold. */
  function PassFailLists(marks: seq<Entry<real>>, threshold: real): (r: Split)
    requires UniqueKeys(marks)
    ensures IsSubsequence(r.passed, Names(marks)) && IsSubsequence(r.failed, Names(marks))
    ensures forall i :: 0 <= i < |marks| ==> (marks[i].name in r.passed <==> marks[i].value >= threshold)
    ensures forall i :: 0 <= i < |marks| ==> (marks[i].name in r.failed <==> marks[i].value < threshold)
    ensures forall n :: !(n in r.passed && n in r.failed)
    ensures forall n :: n in r.passed || n in r.failed <==> n in Names(marks)
    ensures multiset(r.passed) + multiset(r.failed) == multiset(Names(marks))
  {
    ThresholdPartition(marks, threshold);
    Split(NamesWhere(marks, AtLeast(threshold)), NamesWhere(marks, Below(threshold)))
  }
}
