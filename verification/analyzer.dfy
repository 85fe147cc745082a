/** The statistics of 1.py over the marks dict: average, median and the
    extreme scores with every name that reaches them, each refusing an
    empty dict; and the pass/fail split of the student list. */
module Analyzer {
  import opened Wrappers
  import opened Assoc
  import opened Stats

  /** The `ValueError` every statistic raises for an empty dict. */
  datatype StatsError = EmptyMarks

  /** An extreme score together with the names that reach it. */
  datatype Extreme = Extreme(names: seq<string>, score: real)

  /** `calculate_average`: the running total divided by the count. It fails
      exactly on an empty dict; otherwise it is the sum of all scores over
      their number, that is the mean, and lies between the lowest and the
      highest score. */
  method CalculateAverage(marks: seq<Entry<real>>) returns (r: Result<real, StatsError>)
    ensures r.Failure? <==> |marks| == 0
    ensures r.Success? ==> r.value == Sum(Values(marks)) / (|marks| as real)
    ensures r.Success? ==> r.value == Mean(Values(marks))
    ensures r.Success? ==> MinOf(Values(marks)) <= r.value <= MaxOf(Values(marks))
  {
    if |marks| == 0 {
      return Failure(EmptyMarks);
    }
    var values := Values(marks);
    var total := 0.0;
    var count := 0;
    while count < |values|
      invariant 0 <= count <= |values|
      invariant total == Sum(values[..count])
    {
      SumPrefix(values, count);
      total := total + values[count];
      count := count + 1;
    }
    assert values[..count] == values;
    MeanIsQuotient(marks, total);
    r := Success(total / (|marks| as real));
  }

  /** Dividing the sum of the scores by their count gives the mean. */
  lemma MeanIsQuotient(marks: seq<Entry<real>>, total: real)
    requires |marks| > 0 && total == Sum(Values(marks))
    ensures total / (|marks| as real) == Mean(Values(marks))
    ensures MinOf(Values(marks)) <= total / (|marks| as real) <= MaxOf(Values(marks))
  {
    var s := Values(marks);
    var n := |marks| as real;
    assert |s| == |marks|;
    QuotientOf(total, n, Mean(s));
    MeanWithinExtremes(s);
  }

  /** `calculate_median`: fails exactly on an empty dict; otherwise the
      middle of the sorted scores (the central one for an odd count, the
      mean of the two central ones for an even count), which lies between
      the lowest and the highest score, has at least half of the scores at
      or below it and at least half at or above it, and is itself a score
      when the count is odd. */
  function CalculateMedian(marks: seq<Entry<real>>): (r: Result<real, StatsError>)
    ensures r.Failure? <==> |marks| == 0
    ensures r.Success? ==> forall w :: Sorted(w) && multiset(w) == multiset(Values(marks)) ==> |w| > 0 && r.value == Middle(w)
    ensures r.Success? ==> MinOf(Values(marks)) <= r.value <= MaxOf(Values(marks))
    ensures r.Success? ==> 2 * Count(Values(marks), AtMost(r.value)) >= |marks|
    ensures r.Success? ==> 2 * Count(Values(marks), AtLeast(r.value)) >= |marks|
    ensures r.Success? && |marks| % 2 == 1 ==> r.value in Values(marks)
  {
    if |marks| == 0 then Failure(EmptyMarks)
    else
      MedianIsMiddle(Values(marks));
      Success(Median(Values(marks)))
  }

  /** `find_max_score`: fails exactly on an empty dict; otherwise the
      running maximum, which is at least every score and is the score of
      some student, and the names whose score equals it, in dict order,
      of which there is at least one. */
  method FindMaxScore(marks: seq<Entry<real>>) returns (r: Result<Extreme, StatsError>)
    ensures r.Failure? <==> |marks| == 0
    ensures r.Success? ==> r.value.score == MaxOf(Values(marks))
    ensures r.Success? ==> forall i :: 0 <= i < |marks| ==> marks[i].value <= r.value.score
    ensures r.Success? ==> exists i :: 0 <= i < |marks| && marks[i].value == r.value.score
    ensures r.Success? ==> r.value.names == NamesWhere(marks, EqualTo(r.value.score)) && |r.value.names| > 0
  {
    if |marks| == 0 {
      return Failure(EmptyMarks);
    }
    var values := Values(marks);
    var best: Option<real> := None;
    var i := 0;
    while i < |values|
      invariant 0 <= i <= |values|
      invariant best.None? <==> i == 0
      invariant best.Some? ==> best.value == MaxOf(values[..i])
    {
      MaxOfStep(values, i);
      if best.None? || values[i] > best.value {
        best := Some(values[i]);
      }
      i := i + 1;
    }
    assert values[..i] == values;
    var top := best.value;
    NamesReachingScore(marks, top);
    r := Success(Extreme(NamesWhere(marks, EqualTo(top)), top));
  }

  /** `find_min_score`, the mirror image of `FindMaxScore`. */
  method FindMinScore(marks: seq<Entry<real>>) returns (r: Result<Extreme, StatsError>)
    ensures r.Failure? <==> |marks| == 0
    ensures r.Success? ==> r.value.score == MinOf(Values(marks))
    ensures r.Success? ==> forall i :: 0 <= i < |marks| ==> r.value.score <= marks[i].value
    ensures r.Success? ==> exists i :: 0 <= i < |marks| && marks[i].value == r.value.score
    ensures r.Success? ==> r.value.names == NamesWhere(marks, EqualTo(r.value.score)) && |r.value.names| > 0
  {
    if |marks| == 0 {
      return Failure(EmptyMarks);
    }
    var values := Values(marks);
    var best: Option<real> := None;
    var i := 0;
    while i < |values|
      invariant 0 <= i <= |values|
      invariant best.None? <==> i == 0
      invariant best.Some? ==> best.value == MinOf(values[..i])
    {
      MinOfStep(values, i);
      if best.None? || values[i] < best.value {
        best := Some(values[i]);
      }
      i := i + 1;
    }
    assert values[..i] == values;
    var bottom := best.value;
    NamesReachingScore(marks, bottom);
    r := Success(Extreme(NamesWhere(marks, EqualTo(bottom)), bottom));
  }

  /** A score some student has is reached by a non-empty list of names. */
  lemma NamesReachingScore(marks: seq<Entry<real>>, score: real)
    requires score in Values(marks)
    ensures |NamesWhere(marks, EqualTo(score))| > 0
  {
    var k :| 0 <= k < |marks| && Values(marks)[k] == score;
    assert marks[k].name in NamesWhere(marks, EqualTo(score));
  }

  /** The pass mark of the student list. */
  const PassMark: real := 40.0

  /** The two comprehensions over the `(name, score)` list: a record goes
      to `passed` when its score is at least 40 and to `failed` when it is
      below, each list keeping list order; together they hold every
      record's name exactly as often as the list does. */
  function PassedAndFailed(students: seq<Entry<real>>): (r: Split)
    ensures IsSubsequence(r.passed, Names(students)) && IsSubsequence(r.failed, Names(students))
    ensures forall n :: n in r.passed <==> exists i :: 0 <= i < |students| && students[i].name == n && students[i].value >= PassMark
    ensures forall n :: n in r.failed <==> exists i :: 0 <= i < |students| && students[i].name == n && students[i].value < PassMark
    ensures multiset(r.passed) + multiset(r.failed) == multiset(Names(students))
  {
    ThresholdPartition(students, PassMark);
    Split(NamesWhere(students, AtLeast(PassMark)), NamesWhere(students, Below(PassMark)))
  }

  /** The split of a list is the splits of its two parts joined side by
      side, so each record is placed independently of the others. */
  lemma PassedAndFailedAppend(a: seq<Entry<real>>, b: seq<Entry<real>>)
    ensures var ra, rb := PassedAndFailed(a), PassedAndFailed(b);
            PassedAndFailed(a + b) == Split(ra.passed + rb.passed, ra.failed + rb.failed)
  {
    NamesWhereAppend(a, b, AtLeast(PassMark));
    NamesWhereAppend(a, b, Below(PassMark));
  }

  /** A single record goes, once, to `passed` when its score is at least 40
      and to `failed` otherwise. With PassedAndFailedAppend this fixes the
      split of every list, names repeated in it included. */
  lemma PassedAndFailedSingle(e: Entry<real>)
    ensures PassedAndFailed([e]) == if e.value >= PassMark then Split([e.name], []) else Split([], [e.name])
  {
    NamesWhereSingle(e, AtLeast(PassMark));
    NamesWhereSingle(e, Below(PassMark));
  }
}
