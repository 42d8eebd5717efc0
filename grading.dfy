/**
 * Grade mapping of `evaluator.py`: the two ordered threshold tables, the first-match
 * walk over them (`_lexical_score`, `_hf_score`) and the feedback table (`_feedback`).
 */
module Grading {

  /** One row `(thresh, score)` of a threshold table. */
  datatype Step = Step(threshold: real, grade: int)

  /** `LEXICAL_THRESHOLDS`: share of reference tokens covered. */
  const LexicalThresholds: seq<Step> :=
    [Step(0.90, 5), Step(0.66, 4), Step(0.50, 3), Step(0.33, 2), Step(0.15, 1), Step(0.0, 0)]

  /** `HF_THRESHOLDS`: semantic similarity, used only when there is no lexical overlap. */
  const HfThresholds: seq<Step> :=
    [Step(0.80, 5), Step(0.65, 4), Step(0.50, 3), Step(0.35, 2), Step(0.20, 1), Step(0.0, 0)]

  /** The grade of the first row whose threshold `x` reaches; 0 when none does. */
  function FirstMatchGrade(table: seq<Step>, x: real): int {
    if table == [] then 0
    else if x >= table[0].threshold then table[0].grade
    else FirstMatchGrade(table[1..], x)
  }

  /** Grades lie in 0..5 and never increase down the table. */
  predicate GradesDescend(table: seq<Step>) {
    (forall i :: 0 <= i < |table| ==> 0 <= table[i].grade <= 5)
    && (forall i, j :: 0 <= i < j < |table| ==> table[j].grade <= table[i].grade)
  }

  /** The loop of `_lexical_score` / `_hf_score`: walk the rows in order, the first match wins. */
  method FirstMatch(table: seq<Step>, x: real) returns (grade: int)
    ensures grade == FirstMatchGrade(table, x)
  {
    for i := 0 to |table|
      invariant FirstMatchGrade(table[i..], x) == FirstMatchGrade(table, x)
    {
      assert table[i..][1..] == table[i + 1..];
      if x >= table[i].threshold {
        return table[i].grade;
      }
    }
    return 0;
  }

  /** The first match of a table whose grades are at most `bound` (and `bound` >= 0) is at most `bound`. */
  lemma {:induction false} FirstMatchAtMost(table: seq<Step>, x: real, bound: int)
    requires 0 <= bound
    requires forall i :: 0 <= i < |table| ==> table[i].grade <= bound
    ensures FirstMatchGrade(table, x) <= bound
  {
    if table != [] && x < table[0].threshold {
      FirstMatchAtMost(table[1..], x, bound);
    }
  }

  lemma {:induction false} FirstMatchInRange(table: seq<Step>, x: real)
    requires GradesDescend(table)
    ensures 0 <= FirstMatchGrade(table, x) <= 5
  {
    if table != [] && x < table[0].threshold {
      FirstMatchInRange(table[1..], x);
    }
  }

  /** With grades descending, the first-match grade is monotone non-decreasing in `x`. */
  lemma {:induction false} FirstMatchMonotone(table: seq<Step>, x: real, y: real)
    requires GradesDescend(table)
    requires x <= y
    ensures FirstMatchGrade(table, x) <= FirstMatchGrade(table, y)
  {
    if table != [] {
      FirstMatchInRange(table[1..], x);
      if y >= table[0].threshold {
        FirstMatchAtMost(table[1..], x, table[0].grade);
      } else {
        FirstMatchMonotone(table[1..], x, y);
      }
    }
  }

  /** `_lexical_score(overlap)`. */
  function LexicalGrade(overlap: real): (g: int)
    ensures 0 <= g <= 5
  {
    FirstMatchInRange(LexicalThresholds, overlap);
    FirstMatchGrade(LexicalThresholds, overlap)
  }

  /** `_hf_score(sim)`. */
  function HfGrade(sim: real): (g: int)
    ensures 0 <= g <= 5
  {
    FirstMatchInRange(HfThresholds, sim);
    FirstMatchGrade(HfThresholds, sim)
  }

  lemma FirstMatchCons(step: Step, rest: seq<Step>, x: real)
    ensures FirstMatchGrade([step] + rest, x) ==
      if x >= step.threshold then step.grade else FirstMatchGrade(rest, x)
  {
    assert ([step] + rest)[1..] == rest;
  }

  /** The lexical table row by row, as its comments state it. */
  lemma LexicalTable(overlap: real)
    ensures LexicalGrade(overlap) ==
      if overlap >= 0.90 then 5
      else if overlap >= 0.66 then 4
      else if overlap >= 0.50 then 3
      else if overlap >= 0.33 then 2
      else if overlap >= 0.15 then 1
      else 0
  {
    var t5 := [Step(0.0, 0)];
    FirstMatchCons(Step(0.0, 0), [], overlap);
    var t4 := [Step(0.15, 1)] + t5;
    FirstMatchCons(Step(0.15, 1), t5, overlap);
    var t3 := [Step(0.33, 2)] + t4;
    FirstMatchCons(Step(0.33, 2), t4, overlap);
    var t2 := [Step(0.50, 3)] + t3;
    FirstMatchCons(Step(0.50, 3), t3, overlap);
    var t1 := [Step(0.66, 4)] + t2;
    FirstMatchCons(Step(0.66, 4), t2, overlap);
    var t0 := [Step(0.90, 5)] + t1;
    FirstMatchCons(Step(0.90, 5), t1, overlap);
    assert LexicalThresholds == t0;
  }

  /** The semantic table row by row. */
  lemma HfTable(sim: real)
    ensures HfGrade(sim) ==
      if sim >= 0.80 then 5
      else if sim >= 0.65 then 4
      else if sim >= 0.50 then 3
      else if sim >= 0.35 then 2
      else if sim >= 0.20 then 1
      else 0
  {
    var t5 := [Step(0.0, 0)];
    FirstMatchCons(Step(0.0, 0), [], sim);
    var t4 := [Step(0.20, 1)] + t5;
    FirstMatchCons(Step(0.20, 1), t5, sim);
    var t3 := [Step(0.35, 2)] + t4;
    FirstMatchCons(Step(0.35, 2), t4, sim);
    var t2 := [Step(0.50, 3)] + t3;
    FirstMatchCons(Step(0.50, 3), t3, sim);
    var t1 := [Step(0.65, 4)] + t2;
    FirstMatchCons(Step(0.65, 4), t2, sim);
    var t0 := [Step(0.80, 5)] + t1;
    FirstMatchCons(Step(0.80, 5), t1, sim);
    assert HfThresholds == t0;
  }

  lemma LexicalMonotone(x: real, y: real)
    requires x <= y
    ensures LexicalGrade(x) <= LexicalGrade(y)
  {
    FirstMatchMonotone(LexicalThresholds, x, y);
  }

  lemma HfMonotone(x: real, y: real)
    requires x <= y
    ensures HfGrade(x) <= HfGrade(y)
  {
    FirstMatchMonotone(HfThresholds, x, y);
  }

  /** `_feedback(score)`: a fixed sentence for each grade 0..5, `""` for anything else. */
  function Feedback(grade: int): (text: string)
    ensures text != "" <==> 0 <= grade <= 5
  {
    match grade
    case 5 => "Excellent — highly relevant and complete."
    case 4 => "Very good — mostly relevant."
    case 3 => "Good — some relevant points present."
    case 2 => "Fair — partial relevance."
    case 1 => "Poor — minimally relevant."
    case 0 => "No relation detected."
    case _ => ""
  }

  /** Different grades get different feedback. */
  lemma FeedbackDistinct(a: int, b: int)
    requires 0 <= a <= 5 && 0 <= b <= 5 && a != b
    ensures Feedback(a) != Feedback(b)
  {
  }
}
