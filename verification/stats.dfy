/** The arithmetic behind the analysis: sums, extremes, the median of the
    sorted scores, and selection of names by score. Scores are exact reals,
    so floating-point rounding is not modelled. */
module Stats {
  import opened Assoc

  /** The sum of the scores, added up from the left as the running total
      of `calculate_average` does (lemma SumPrefix). */
  function Sum(s: seq<real>): (r: real) {
    if |s| == 0 then 0.0 else Sum(s[..|s| - 1]) + s[|s| - 1]
  }

  /** Python's `max(s)`: an element of `s` no smaller than any other. */
  function MaxOf(s: seq<real>): (r: real)
    requires |s| > 0
    ensures r in s
    ensures forall i :: 0 <= i < |s| ==> s[i] <= r
  {
    if |s| == 1 then s[0]
    else
      var m := MaxOf(s[..|s| - 1]);
      assert forall i :: 0 <= i < |s| - 1 ==> s[i] == s[..|s| - 1][i];
      if s[|s| - 1] > m then s[|s| - 1] else m
  }

  /** Python's `min(s)`: an element of `s` no larger than any other. */
  function MinOf(s: seq<real>): (r: real)
    requires |s| > 0
    ensures r in s
    ensures forall i :: 0 <= i < |s| ==> r <= s[i]
  {
    if |s| == 1 then s[0]
    else
      var m := MinOf(s[..|s| - 1]);
      assert forall i :: 0 <= i < |s| - 1 ==> s[i] == s[..|s| - 1][i];
      if s[|s| - 1] < m then s[|s| - 1] else m
  }

  /** The running maximum: one more element replaces the maximum so far
      exactly when it is larger. */
  lemma MaxOfStep(s: seq<real>, i: nat)
    requires i < |s|
    ensures MaxOf(s[..i + 1]) == if i == 0 || s[i] > MaxOf(s[..i]) then s[i] else MaxOf(s[..i])
  {
    assert s[..i + 1][..i] == s[..i];
  }

  /** The running minimum, the mirror image of `MaxOfStep`. */
  lemma MinOfStep(s: seq<real>, i: nat)
    requires i < |s|
    ensures MinOf(s[..i + 1]) == if i == 0 || s[i] < MinOf(s[..i]) then s[i] else MinOf(s[..i])
  {
    assert s[..i + 1][..i] == s[..i];
  }

  lemma Distribute(a: real, b: real)
    ensures (a + 1.0) * b == a * b + b
  {
  }

  lemma QuotientBounds(x: real, n: real, lo: real, hi: real)
    requires n > 0.0
    requires n * lo <= x <= n * hi
    ensures lo <= x / n <= hi
    ensures x / n * n == x
  {
  }

  /** The sum of `n` scores each at most `hi` is at most `n * hi`, and
      likewise for a lower bound `lo`. */
  lemma {:induction false} SumBetween(s: seq<real>, lo: real, hi: real)
    requires forall i :: 0 <= i < |s| ==> lo <= s[i] <= hi
    ensures (|s| as real) * lo <= Sum(s) <= (|s| as real) * hi
  {
    if |s| > 0 {
      var init := s[..|s| - 1];
      SumBetween(init, lo, hi);
      Distribute(|init| as real, lo);
      Distribute(|init| as real, hi);
    }
  }

  /** Adding the next value extends a prefix sum. */
  lemma SumPrefix(s: seq<real>, k: nat)
    requires k < |s|
    ensures Sum(s[..k + 1]) == Sum(s[..k]) + s[k]
  {
    assert s[..k + 1][..k] == s[..k];
  }

  /** `statistics.mean`: the number that, times the count, gives the sum.
      Lemma MeanWithinExtremes places it between the least and the greatest
      score. */
  function Mean(s: seq<real>): (r: real)
    requires |s| > 0
    ensures r * (|s| as real) == Sum(s)
  {
    var total := Sum(s);
    TimesCount(total, |s|);
    total / (|s| as real)
  }

  /** The mean lies between the least and the greatest score. */
  lemma MeanWithinExtremes(s: seq<real>)
    requires |s| > 0
    ensures MinOf(s) <= Mean(s) <= MaxOf(s)
  {
    WithinExtremes(s);
    MeanBetween(s, |s| as real, MinOf(s), MaxOf(s));
  }

  /** Dividing by a positive count and multiplying back is the identity. */
  lemma TimesCount(x: real, k: nat)
    requires k > 0
    ensures x / (k as real) * (k as real) == x
  {
    var n := k as real;
    QuotientBounds(x, n, x / n, x / n);
  }

  /** The quotient is the number that times the divisor gives the dividend. */
  lemma QuotientOf(x: real, n: real, q: real)
    requires n > 0.0 && q * n == x
    ensures x / n == q
  {
  }

  /** Every score lies between the least and the greatest. */
  lemma WithinExtremes(s: seq<real>)
    requires |s| > 0
    ensures forall i :: 0 <= i < |s| ==> MinOf(s) <= s[i] <= MaxOf(s)
  {
  }

  /** The mean of `n` scores that all lie within `[lo, hi]` lies there too. */
  lemma MeanBetween(s: seq<real>, n: real, lo: real, hi: real)
    requires |s| > 0 && n == |s| as real
    requires forall i :: 0 <= i < |s| ==> lo <= s[i] <= hi
    ensures lo <= Sum(s) / n <= hi
  {
    SumBetween(s, lo, hi);
    QuotientBounds(Sum(s), n, lo, hi);
  }

  predicate Sorted(s: seq<real>) {
    forall i, j :: 0 <= i < j < |s| ==> s[i] <= s[j]
  }

  /** `x` inserted into sorted `s` at its place. */
  function Insert(s: seq<real>, x: real): (r: seq<real>)
    requires Sorted(s)
    ensures Sorted(r)
    ensures multiset(r) == multiset(s) + multiset{x}
  {
    if |s| == 0 then [x]
    else if x <= s[0] then
      SortedCons(x, s);
      [x] + s
    else
      var rest := Insert(s[1..], x);
      assert s == [s[0]] + s[1..];
      HeadStaysFirst(s, x, rest);
      SortedCons(s[0], rest);
      [s[0]] + rest
  }

  /** A value no larger than the head of a sorted sequence can go in front. */
  lemma SortedCons(x: real, s: seq<real>)
    requires Sorted(s) && (|s| > 0 ==> x <= s[0])
    ensures Sorted([x] + s)
  {
    var r := [x] + s;
    forall i, j | 0 <= i < j < |r|
      ensures r[i] <= r[j]
    {
      if i > 0 {
        assert r[i] == s[i - 1] && r[j] == s[j - 1];
      } else {
        assert r[j] == s[j - 1];
      }
    }
  }

  /** The head of a sorted sequence is no larger than anything made of its
      tail and a larger value. */
  lemma HeadStaysFirst(s: seq<real>, x: real, rest: seq<real>)
    requires Sorted(s) && |s| > 0 && s[0] < x
    requires multiset(rest) == multiset(s[1..]) + multiset{x}
    ensures |rest| > 0 ==> s[0] <= rest[0]
  {
    if |rest| > 0 {
      assert rest[0] in multiset(rest);
      if rest[0] != x {
        assert rest[0] in multiset(s[1..]);
        var k :| 0 <= k < |s[1..]| && s[1..][k] == rest[0];
        assert s[k + 1] == rest[0];
      }
    }
  }

  /** Python's `sorted(s)`: the same scores in ascending order. */
  function Sort(s: seq<real>): (r: seq<real>)
    ensures Sorted(r)
    ensures multiset(r) == multiset(s)
    ensures |r| == |s|
  {
    if |s| == 0 then []
    else
      var init := s[..|s| - 1];
      assert s == init + [s[|s| - 1]];
      var r := Insert(Sort(init), s[|s| - 1]);
      assert |r| == |multiset(r)|;
      r
  }

  /** A condition on a single score. */
  datatype ScoreTest = AtLeast(bound: real) | Below(bound: real) | AtMost(bound: real) | EqualTo(target: real)
  {
    predicate Holds(x: real) {
      match this
      case AtLeast(b) => x >= b
      case Below(b) => x < b
      case AtMost(b) => x <= b
      case EqualTo(t) => x == t
    }
  }

  /** How many scores of `s` pass `t`. */
  function Count(s: seq<real>, t: ScoreTest): (r: nat)
    ensures r <= |s|
  {
    if |s| == 0 then 0 else Count(s[..|s| - 1], t) + (if t.Holds(s[|s| - 1]) then 1 else 0)
  }

  lemma {:induction false} CountAppend(a: seq<real>, b: seq<real>, t: ScoreTest)
    ensures Count(a + b, t) == Count(a, t) + Count(b, t)
  {
    if |b| > 0 {
      var init := b[..|b| - 1];
      CountAppend(a, init, t);
      assert (a + b)[..|a + b| - 1] == a + init;
    } else {
      assert a + b == a;
    }
  }

  lemma {:induction false} CountAll(s: seq<real>, t: ScoreTest)
    requires forall i :: 0 <= i < |s| ==> t.Holds(s[i])
    ensures Count(s, t) == |s|
  {
    if |s| > 0 {
      CountAll(s[..|s| - 1], t);
    }
  }

  /** Removing the score at `k` removes it from the count. */
  lemma CountRemove(b: seq<real>, k: nat, t: ScoreTest)
    requires k < |b|
    ensures Count(b, t) == Count(b[..k] + b[k + 1..], t) + (if t.Holds(b[k]) then 1 else 0)
  {
    assert b == b[..k] + [b[k]] + b[k + 1..];
    CountAppend(b[..k], [b[k]], t);
    CountAppend(b[..k] + [b[k]], b[k + 1..], t);
    CountAppend(b[..k], b[k + 1..], t);
    assert [b[k]][..0] == [];
  }

  lemma MultisetRemove(b: seq<real>, k: nat)
    requires k < |b|
    ensures multiset(b[..k] + b[k + 1..]) == multiset(b) - multiset{b[k]}
  {
    assert b == b[..k] + [b[k]] + b[k + 1..];
  }

  /** Counting depends only on the multiset of scores. */
  lemma {:induction false} CountPermutation(a: seq<real>, b: seq<real>, t: ScoreTest)
    requires multiset(a) == multiset(b)
    ensures Count(a, t) == Count(b, t)
  {
    if |a| == 0 {
      assert |b| == |multiset(b)| == 0;
    } else {
      var last := |a| - 1;
      var v := a[last];
      assert v in multiset(b);
      var k :| 0 <= k < |b| && b[k] == v;
      MultisetRemove(a, last);
      MultisetRemove(b, k);
      assert a[..last] + a[last + 1..] == a[..last];
      CountPermutation(a[..last], b[..k] + b[k + 1..], t);
      CountRemove(b, k, t);
    }
  }

  /** The middle of a sorted sequence: the central element for an odd
      length, the mean of the two central elements for an even one. */
  function Middle(v: seq<real>): (r: real)
    requires |v| > 0
    ensures Sorted(v) ==> v[0] <= r <= v[|v| - 1]
    ensures |v| % 2 == 1 ==> r in v
  {
    var mid := |v| / 2;
    if |v| % 2 == 1 then v[mid] else (v[mid - 1] + v[mid]) / 2.0
  }

  /** The middle of a sorted permutation of `s` lies between the least and
      greatest element of `s`, and is one of them for an odd length. */
  lemma MiddleWithin(v: seq<real>, s: seq<real>)
    requires |v| > 0 && Sorted(v) && multiset(v) == multiset(s)
    ensures MinOf(s) <= Middle(v) <= MaxOf(s)
    ensures |v| % 2 == 1 ==> Middle(v) in s
  {
    var mid := |v| / 2;
    assert v[mid] in multiset(s);
    assert v[mid - (1 - |v| % 2)] in multiset(s);
  }

  /** At least half of a sorted sequence lies at or below its middle, and
      at least half at or above. */
  lemma MiddleSplitsSorted(v: seq<real>)
    requires |v| > 0 && Sorted(v)
    ensures 2 * Count(v, AtMost(Middle(v))) >= |v|
    ensures 2 * Count(v, AtLeast(Middle(v))) >= |v|
  {
    var n := |v|;
    var mid := n / 2;
    var r := Middle(v);
    var low := if n % 2 == 1 then mid + 1 else mid;
    assert v[low - 1] <= r <= v[mid] by {
      if n % 2 == 0 {
        assert v[mid - 1] <= v[mid];
      }
    }
    SortedSplit(v, low, mid, r);
  }

  /** When everything before `low` is at most `r` and everything from `mid`
      on is at least `r`, those stretches are counted. */
  lemma SortedSplit(v: seq<real>, low: nat, mid: nat, r: real)
    requires Sorted(v) && 0 < low <= |v| && mid < |v|
    requires v[low - 1] <= r <= v[mid]
    ensures Count(v, AtMost(r)) >= low
    ensures Count(v, AtLeast(r)) >= |v| - mid
  {
    PrefixAtMost(v, low, r);
    SuffixAtLeast(v, mid, r);
  }

  /** Everything up to a member at most `r` of a sorted sequence is at most `r`. */
  lemma PrefixAtMost(v: seq<real>, low: nat, r: real)
    requires Sorted(v) && 0 < low <= |v| && v[low - 1] <= r
    ensures Count(v, AtMost(r)) >= low
  {
    var below := v[..low];
    assert forall i :: 0 <= i < |below| ==> below[i] <= v[low - 1];
    CountAll(below, AtMost(r));
    assert v == below + v[low..];
    CountAppend(below, v[low..], AtMost(r));
  }

  /** Everything from a member at least `r` of a sorted sequence on is at least `r`. */
  lemma SuffixAtLeast(v: seq<real>, mid: nat, r: real)
    requires Sorted(v) && mid < |v| && r <= v[mid]
    ensures Count(v, AtLeast(r)) >= |v| - mid
  {
    var above := v[mid..];
    assert forall i :: 0 <= i < |above| ==> v[mid] <= above[i];
    CountAll(above, AtLeast(r));
    assert v == v[..mid] + above;
    CountAppend(v[..mid], above, AtLeast(r));
  }

  /** A sorted sequence is fixed by its elements: two sorted arrangements
      of the same multiset are equal. */
  lemma {:induction false} SortedUnique(a: seq<real>, b: seq<real>)
    requires Sorted(a) && Sorted(b) && multiset(a) == multiset(b)
    ensures a == b
  {
    if |a| > 0 {
      assert |b| == |multiset(b)| == |a|;
      assert a[0] == b[0] by {
        HeadAtMost(b, a[0]);
        HeadAtMost(a, b[0]);
      }
      assert multiset(a[1..]) == multiset(b[1..]) by {
        DropHead(a);
        DropHead(b);
      }
      SortedUnique(a[1..], b[1..]);
      assert a == [a[0]] + a[1..] && b == [b[0]] + b[1..];
    } else {
      assert |b| == |multiset(b)| == 0;
    }
  }

  /** The first element of a sorted sequence is at most any of its
      elements. */
  lemma HeadAtMost(s: seq<real>, x: real)
    requires Sorted(s) && x in multiset(s)
    ensures |s| > 0 && s[0] <= x
  {
    var j :| 0 <= j < |s| && s[j] == x;
  }

  /** Dropping the first element removes one occurrence of it. */
  lemma DropHead(s: seq<real>)
    requires |s| > 0
    ensures multiset(s[1..]) == multiset(s) - multiset{s[0]}
  {
    assert s == [s[0]] + s[1..];
  }

  /** Sorting yields the one sorted arrangement of the scores. */
  lemma SortIsUnique(s: seq<real>, w: seq<real>)
    requires Sorted(w) && multiset(w) == multiset(s)
    ensures Sort(s) == w
  {
    SortedUnique(Sort(s), w);
  }

  /** The median is the middle of any sorted arrangement of the scores. */
  lemma MedianOfSorted(s: seq<real>, w: seq<real>)
    requires |s| > 0 && Sorted(w) && multiset(w) == multiset(s)
    ensures |w| > 0 && Median(s) == Middle(w)
  {
    SortIsUnique(s, w);
  }

  /** The median depends on the scores only, not on the order in which the
      dict holds them. */
  lemma MedianIgnoresOrder(s: seq<real>, t: seq<real>)
    requires |s| > 0 && multiset(s) == multiset(t)
    ensures |t| > 0 && Median(s) == Median(t)
  {
    SortIsUnique(t, Sort(s));
    assert |t| == |multiset(t)| == |s|;
  }

  /** The median is the middle of every sorted arrangement of the scores:
      the central score for an odd count, the mean of the two central
      scores for an even one. */
  lemma MedianIsMiddle(s: seq<real>)
    requires |s| > 0
    ensures forall w :: Sorted(w) && multiset(w) == multiset(s) ==> |w| > 0 && Median(s) == Middle(w)
  {
    forall w | Sorted(w) && multiset(w) == multiset(s)
      ensures |w| > 0 && Median(s) == Middle(w)
    {
      MedianOfSorted(s, w);
    }
  }

  /** `statistics.median`, and 1.py's own median: the middle of the sorted
      scores. It lies between the least and greatest score and splits the
      scores in half: at least half are at or below it and at least half
      at or above it. */
  function Median(s: seq<real>): (r: real)
    requires |s| > 0
    ensures MinOf(s) <= r <= MaxOf(s)
    ensures 2 * Count(s, AtMost(r)) >= |s|
    ensures 2 * Count(s, AtLeast(r)) >= |s|
    ensures |s| % 2 == 1 ==> r in s
  {
    var v := Sort(s);
    MiddleWithin(v, s);
    MiddleSplitsSorted(v);
    CountPermutation(v, s, AtMost(Middle(v)));
    CountPermutation(v, s, AtLeast(Middle(v)));
    Middle(v)
  }

  /** The filter itself: the names of the entries whose score passes `t`,
      in order. */
  function Select(m: seq<Entry<real>>, t: ScoreTest): (r: seq<string>) {
    if |m| == 0 then []
    else (if t.Holds(m[0].value) then [m[0].name] else []) + Select(m[1..], t)
  }

  /** `[n for n, s in d.items() if t(s)]`: the names whose score passes
      `t`, in iteration order. In a dict, where names are unique, a key is
      selected exactly when its own score passes. */
  function NamesWhere(m: seq<Entry<real>>, t: ScoreTest): (r: seq<string>)
    ensures IsSubsequence(r, Names(m))
    ensures forall n :: n in r <==> exists i :: 0 <= i < |m| && m[i].name == n && t.Holds(m[i].value)
    ensures UniqueKeys(m) ==> forall i :: 0 <= i < |m| ==> (m[i].name in r <==> t.Holds(m[i].value))
  {
    SelectFacts(m, t);
    Select(m, t)
  }

  lemma {:induction false} SelectFacts(m: seq<Entry<real>>, t: ScoreTest)
    ensures var r := Select(m, t);
            && IsSubsequence(r, Names(m))
            && (forall n :: n in r <==> exists i :: 0 <= i < |m| && m[i].name == n && t.Holds(m[i].value))
            && (UniqueKeys(m) ==> forall i :: 0 <= i < |m| ==> (m[i].name in r <==> t.Holds(m[i].value)))
  {
    if |m| > 0 {
      SelectFacts(m[1..], t);
      var r, rest := Select(m, t), Select(m[1..], t);
      assert Names(m)[1..] == Names(m[1..]);
      assert forall i :: 1 <= i < |m| ==> m[i] == m[1..][i - 1];
      if t.Holds(m[0].value) {
        assert r[0] == Names(m)[0] && r[1..] == rest;
      } else {
        assert r == rest;
      }
    }
  }

  /** Selecting from two runs of entries one after the other is selecting
      from each run and joining the results. */
  lemma {:induction false} NamesWhereAppend(a: seq<Entry<real>>, b: seq<Entry<real>>, t: ScoreTest)
    ensures NamesWhere(a + b, t) == NamesWhere(a, t) + NamesWhere(b, t)
  {
    SelectAppend(a, b, t);
  }

  lemma {:induction false} SelectAppend(a: seq<Entry<real>>, b: seq<Entry<real>>, t: ScoreTest)
    ensures Select(a + b, t) == Select(a, t) + Select(b, t)
  {
    if |a| > 0 {
      assert (a + b)[0] == a[0];
      assert (a + b)[1..] == a[1..] + b;
      SelectAppend(a[1..], b, t);
    } else {
      assert a + b == b;
    }
  }

  /** A single entry contributes its name once when its score passes and
      nothing otherwise. With NamesWhereAppend this fixes the result for
      every list, repeated names included. */
  lemma NamesWhereSingle(e: Entry<real>, t: ScoreTest)
    ensures NamesWhere([e], t) == if t.Holds(e.value) then [e.name] else []
  {
    assert [e][1..] == [];
    assert Select([e], t) == (if t.Holds(e.value) then [e.name] else []) + Select([], t);
  }

  /** The passed and the failed names. */
  datatype Split = Split(passed: seq<string>, failed: seq<string>)

  /** Splitting by `score >= b` and `score < b` distributes every name of
      `m` to exactly one side, as often as it occurs in `m`. */
  lemma ThresholdPartition(m: seq<Entry<real>>, b: real)
    ensures multiset(NamesWhere(m, AtLeast(b))) + multiset(NamesWhere(m, Below(b))) == multiset(Names(m))
  {
    SelectPartition(m, b);
  }

  lemma {:induction false} SelectPartition(m: seq<Entry<real>>, b: real)
    ensures multiset(Select(m, AtLeast(b))) + multiset(Select(m, Below(b))) == multiset(Names(m))
  {
    if |m| > 0 {
      SelectPartition(m[1..], b);
      assert Names(m) == [m[0].name] + Names(m[1..]);
    }
  }
}
