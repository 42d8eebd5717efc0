/**
 * `AnswerEvaluator` of `evaluator.py`: the four-branch `evaluate` and the similarity
 * cache of `_hf_sentence_similarity`, with the remote sentence-similarity service
 * replaced by a scripted oracle.
 */
module Evaluator {

  import opened Wrappers
  import opened Text
  import opened Overlap
  import opened Grading

  /** The triple `(score, feedback, similarity_percent)` returned by `evaluate`. */
  datatype Evaluation = Evaluation(grade: int, feedback: string, percent: real)

  const MissingAnswer: string := "Please provide both reference and student answers."

  /** What every evaluation satisfies: grade 0..5, percentage in [0, 100], matching feedback. */
  predicate WellFormed(e: Evaluation) {
    0 <= e.grade <= 5 && 0.0 <= e.percent <= 100.0
    && (e.feedback == Feedback(e.grade) || (e.grade == 0 && e.percent == 0.0 && e.feedback == MissingAnswer))
  }

  /**
   * The first three branches of `evaluate`, which need no similarity lookup: a missing
   * answer, an exact match, or a positive lexical overlap. `None` means the evaluation
   * falls back to semantic similarity, which happens exactly when both answers are present,
   * they differ after stripping and lower-casing, and they share no token.
   */
  function Precheck(student: string, reference: string): (r: Option<Evaluation>)
    ensures r.Some? ==> WellFormed(r.value)
    ensures r.None? <==>
      student != [] && reference != [] && !SameAnswer(student, reference)
      && !(exists t :: t in Tokenize(reference) && t in Tokenize(student))
    ensures student == [] || reference == [] ==> r == Some(Evaluation(0, MissingAnswer, 0.0))
    ensures student != [] && reference != [] && SameAnswer(student, reference) ==>
      r == Some(Evaluation(5, Feedback(5), 100.0))
    ensures r.Some? && student != [] && reference != [] && !SameAnswer(student, reference) ==>
      r.value.percent > 0.0 && r.value.grade == LexicalGrade(r.value.percent / 100.0)
  {
    if student == [] || reference == [] then
      Some(Evaluation(0, MissingAnswer, 0.0))
    else if SameAnswer(student, reference) then
      Some(Evaluation(5, Feedback(5), 100.0))
    else
      var overlap := OverlapRatio(reference, student);
      if overlap > 0.0 then
        var score := LexicalGrade(overlap);
        Some(Evaluation(score, Feedback(score), overlap * 100.0))
      else
        None
  }

  lemma PrecheckLexical(student: string, reference: string)
    ensures var overlap := OverlapRatio(reference, student);
      student != [] && reference != [] && !SameAnswer(student, reference) && overlap > 0.0 ==>
      Precheck(student, reference) ==
        Some(Evaluation(LexicalGrade(overlap), Feedback(LexicalGrade(overlap)), overlap * 100.0))
  {
  }

  /**
   * The last two branches of `evaluate`: a failed lookup gives grade 0 with "No relation
   * detected.", a similarity is graded with the semantic table.
   */
  function Fallback(sim: Option<real>): (r: Evaluation)
    ensures 0 <= r.grade <= 5 && r.feedback == Feedback(r.grade)
    ensures sim.None? ==> r == Evaluation(0, "No relation detected.", 0.0)
    ensures sim.Some? && 0.0 <= sim.value <= 1.0 ==> WellFormed(r) && r.percent / 100.0 == sim.value
  {
    match sim
    case None => Evaluation(0, Feedback(0), 0.0)
    case Some(s) =>
      var score := HfGrade(s);
      Evaluation(score, Feedback(score), s * 100.0)
  }

  /** Lines 155-160 of `evaluate`: grade the outcome of the similarity lookup. */
  method GradeSimilarity(sim: Option<real>) returns (res: Evaluation)
    ensures res == Fallback(sim)
  {
    if sim.None? {
      return Evaluation(0, Feedback(0), 0.0);
    }
    var score := FirstMatch(HfThresholds, sim.value);
    return Evaluation(score, Feedback(score), sim.value * 100.0);
  }

  /** A higher similarity never gives a lower semantic grade. */
  lemma FallbackMonotone(s1: real, s2: real)
    requires s1 <= s2
    ensures Fallback(Some(s1)).grade <= Fallback(Some(s2)).grade
  {
    HfMonotone(s1, s2);
  }

  function Min(a: real, b: real): real {
    if a <= b then a else b
  }

  function Max(a: real, b: real): real {
    if a >= b then a else b
  }

  /** `max(0.0, min(1.0, sim))`: the nearest point of [0, 1]. */
  function Clamp(x: real): (r: real)
    ensures 0.0 <= r <= 1.0
    ensures 0.0 <= x <= 1.0 ==> r == x
    ensures x < 0.0 ==> r == 0.0
    ensures x > 1.0 ==> r == 1.0
  {
    Max(0.0, Min(1.0, x))
  }

  function ClampReply(reply: Option<real>): (r: Option<real>)
    ensures r.Some? <==> reply.Some?
    ensures r.Some? ==> 0.0 <= r.value <= 1.0 && r.value == Clamp(reply.value)
  {
    match reply
    case None => None
    case Some(x) => Some(Clamp(x))
  }

  /**
   * The remote sentence-similarity endpoint. Each call is logged as `(source_sentence,
   * compared sentence)`; the n-th call gets the n-th scripted reply, and once the script
   * is used up every call fails. A reply is the parsed score, still unclamped, or `None`
   * for a transport error, a non-200 status or an unreadable payload.
   */
  class SimilarityService {
    var requests: seq<(string, string)>
    var replies: seq<Option<real>>

    constructor(replies: seq<Option<real>>)
      ensures requests == [] && this.replies == replies
    {
      requests := [];
      this.replies := replies;
    }

    /** The reply the next call will get. */
    function NextReply(): Option<real>
      reads this
    {
      if replies == [] then None else replies[0]
    }

    method Post(source: string, sentence: string) returns (reply: Option<real>)
      modifies this
      ensures reply == old(NextReply())
      ensures requests == old(requests) + [(source, sentence)]
      ensures replies == if old(replies) == [] then [] else old(replies)[1..]
    {
      reply := NextReply();
      requests := requests + [(source, sentence)];
      if replies != [] {
        replies := replies[1..];
      }
    }
  }

  class AnswerEvaluator {
    /** `_sentsim_cache`, keyed by the ordered pair `(student, reference)`. */
    var cache: map<(string, string), real>
    const service: SimilarityService

    /** Only clamped similarities are ever stored. */
    ghost predicate Valid()
      reads this
    {
      forall key :: key in cache ==> 0.0 <= cache[key] <= 1.0
    }

    constructor(service: SimilarityService)
      ensures Valid() && cache == map[] && this.service == service
    {
      cache := map[];
      this.service := service;
    }

    /** What the similarity lookup yields now: the cached value, else the clamped next reply. */
    function Lookup(student: string, reference: string): Option<real>
      reads this, service
    {
      var key := (student, reference);
      if key in cache then Some(cache[key]) else ClampReply(service.NextReply())
    }

    /**
     * `_hf_sentence_similarity`: a hit returns the cached value and calls nothing; a miss
     * calls the service once and stores a successful, clamped result under this pair only.
     */
    method SentenceSimilarity(student: string, reference: string) returns (sim: Option<real>)
      requires Valid()
      modifies this, service
      ensures Valid()
      ensures sim == old(Lookup(student, reference))
      ensures sim.Some? ==> 0.0 <= sim.value <= 1.0
      ensures (student, reference) in old(cache) ==> cache == old(cache) && unchanged(service)
      ensures (student, reference) !in old(cache) ==>
        service.requests == old(service.requests) + [(student, reference)]
        && service.replies == (if old(service.replies) == [] then [] else old(service.replies)[1..])
        && cache == if sim.Some? then old(cache)[(student, reference) := sim.value] else old(cache)
    {
      var key := (student, reference);
      if key in cache {
        return Some(cache[key]);
      }
      var reply := service.Post(student, reference);
      sim := ClampReply(reply);
      if sim.Some? {
        cache := cache[key := sim.value];
      }
    }

    /**
     * `evaluate(student_answer, reference_answer)`: the pure branches of `Precheck` leave
     * the cache and the service untouched; otherwise the result is the `Fallback` of the
     * similarity lookup.
     */
    method Evaluate(student: string, reference: string) returns (res: Evaluation)
      requires Valid()
      modifies this, service
      ensures Valid()
      ensures WellFormed(res)
      ensures Precheck(student, reference).Some? ==>
        res == Precheck(student, reference).value && cache == old(cache) && unchanged(service)
      ensures Precheck(student, reference).None? ==>
        res == Fallback(old(Lookup(student, reference)))
      ensures Precheck(student, reference).None? && (student, reference) in old(cache) ==>
        cache == old(cache) && unchanged(service)
      ensures Precheck(student, reference).None? && (student, reference) !in old(cache) ==>
        service.requests == old(service.requests) + [(student, reference)]
        && service.replies == (if old(service.replies) == [] then [] else old(service.replies)[1..])
        && cache == match old(Lookup(student, reference))
                    case Some(s) => old(cache)[(student, reference) := s]
                    case None => old(cache)
    {
      if student == [] || reference == [] {
        res := Evaluation(0, MissingAnswer, 0.0);
        assert Precheck(student, reference) == Some(res);
        return;
      }
      if SameAnswer(student, reference) {
        res := Evaluation(5, Feedback(5), 100.0);
        assert Precheck(student, reference) == Some(res);
        return;
      }
      var overlap := OverlapRatio(reference, student);
      if overlap > 0.0 {
        var score := FirstMatch(LexicalThresholds, overlap);
        res := Evaluation(score, Feedback(score), overlap * 100.0);
        PrecheckLexical(student, reference);
        return;
      }
      assert Precheck(student, reference) == None;
      var sim := SentenceSimilarity(student, reference);
      res := GradeSimilarity(sim);
    }
  }

  /**
   * Evaluating the same pair twice: once the first evaluation needed no lookup or its
   * lookup succeeded, the second returns the same result and calls the service at most
   * once over both evaluations (not at all on a cache hit).
   */
  method RepeatedEvaluation(evaluator: AnswerEvaluator, student: string, reference: string)
    returns (first: Evaluation, second: Evaluation)
    requires evaluator.Valid()
    modifies evaluator, evaluator.service
    ensures evaluator.Valid()
    ensures Precheck(student, reference).Some? || old(evaluator.Lookup(student, reference)).Some? ==>
      second == first
    ensures Precheck(student, reference).Some? || (student, reference) in old(evaluator.cache) ==>
      evaluator.service.requests == old(evaluator.service.requests)
    ensures Precheck(student, reference).None? && (student, reference) !in old(evaluator.cache)
              && old(evaluator.service.NextReply()).Some? ==>
      evaluator.service.requests == old(evaluator.service.requests) + [(student, reference)]
  {
    first := evaluator.Evaluate(student, reference);
    second := evaluator.Evaluate(student, reference);
  }
}
