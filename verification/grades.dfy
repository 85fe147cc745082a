/** Letter grades by fixed inclusive thresholds and their distribution. */
module Grades {
  import opened Assoc

  datatype Grade = A | B | C | D | F

  /** The five letters in report order. */
  const Letters: seq<Grade> := [A, B, C, D, F]

  /** Higher is better: A ranks 4, F ranks 0. */
  function Rank(g: Grade): (r: nat)
    ensures r <= 4
  {
    match g
    case A => 4
    case B => 3
    case C => 2
    case D => 1
    case F => 0
  }

  /** The least score that earns `g`. F has no lower bound. */
  function LowerBound(g: Grade): (r: real)
    requires g != F
    ensures 60.0 <= r <= 90.0
  {
    match g
    case A => 90.0
    case B => 80.0
    case C => 70.0
    case D => 60.0
  }

  lemma EveryGradeIsALetter()
    ensures forall g: Grade :: g in Letters
  {
    forall g: Grade
      ensures g in Letters
    {
      match g
      case A => assert Letters[0] == A;
      case B => assert Letters[1] == B;
      case C => assert Letters[2] == C;
      case D => assert Letters[3] == D;
      case F => assert Letters[4] == F;
    }
  }

  /** `assign_grade`: the best letter whose lower bound the score reaches,
      and F when it reaches none. */
  function AssignGrade(score: real): (g: Grade)
    ensures g != F ==> score >= LowerBound(g)
    ensures forall h: Grade :: h != F && Rank(h) > Rank(g) ==> score < LowerBound(h)
  {
    if score >= 90.0 then A
    else if score >= 80.0 then B
    else if score >= 70.0 then C
    else if score >= 60.0 then D
    else F
  }

  /** A higher score never earns a worse letter. */
  lemma AssignGradeMonotone(lo: real, hi: real)
    requires lo <= hi
    ensures Rank(AssignGrade(lo)) <= Rank(AssignGrade(hi))
  {
  }

  /** How many of `gs` are `g`: the multiplicity of `g` in the letters. */
  function CountGrade(gs: seq<Grade>, g: Grade): (r: nat)
    ensures r == multiset(gs)[g]
    ensures r <= |gs|
    ensures r > 0 <==> g in gs
  {
    if |gs| == 0 then 0
    else
      var init := gs[..|gs| - 1];
      assert gs == init + [gs[|gs| - 1]];
      assert multiset(gs) == multiset(init) + multiset{gs[|gs| - 1]};
      CountGrade(init, g) + (if gs[|gs| - 1] == g then 1 else 0)
  }

  /** Appending a letter adds one to its own count only. */
  lemma CountGradeSnoc(gs: seq<Grade>, g: Grade)
    ensures forall h: Grade :: CountGrade(gs + [g], h) == CountGrade(gs, h) + (if h == g then 1 else 0)
  {
    assert (gs + [g])[..|gs|] == gs;
  }

  /** Every grade is one of the five letters, so the five counts add up to
      the number of grades. */
  lemma {:induction false} LetterCountsSum(gs: seq<Grade>)
    ensures CountGrade(gs, A) + CountGrade(gs, B) + CountGrade(gs, C) + CountGrade(gs, D) + CountGrade(gs, F) == |gs|
  {
    if |gs| > 0 {
      LetterCountsSum(gs[..|gs| - 1]);
    }
  }

  /** 1.py's distribution: `Counter(grades.values())`, then `setdefault(g, 0)`
      for each letter. Every letter is present, each with its number of
      occurrences, and the counts add up to the number of grades. */
  function CounterDistribution(gs: seq<Grade>): (d: map<Grade, nat>)
    ensures forall g: Grade :: g in d && d[g] == CountGrade(gs, g)
    ensures d[A] + d[B] + d[C] + d[D] + d[F] == |gs|
  {
    var counter := map g | g in gs :: CountGrade(gs, g);
    var d := map g | g in Letters :: if g in counter then counter[g] else 0;
    EveryGradeIsALetter();
    LetterCountsSum(gs);
    d
  }

  /** `{name: assign_grade(score) for name, score in scores.items()}`. */
  function GradeAll(m: seq<Entry<real>>): (r: seq<Entry<Grade>>)
    ensures Names(r) == Names(m)
    ensures forall i :: 0 <= i < |m| ==> r[i].value == AssignGrade(m[i].value)
  {
    seq(|m|, i requires 0 <= i < |m| => Entry(m[i].name, AssignGrade(m[i].value)))
  }
}
