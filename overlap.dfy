/**
 * The lexical overlap of `AnswerEvaluator.token_overlap_ratio_ref`: the share of the
 * reference's tokens (counted with repetitions) whose word also occurs in the student's
 * answer. Ratios are exact reals.
 */
module Overlap {

  import opened Text

  /** `set(tokens)`. */
  function Distinct(tokens: seq<string>): set<string> {
    set t | t in tokens
  }

  lemma {:induction false} DistinctAtMostLength(tokens: seq<string>)
    ensures |Distinct(tokens)| <= |tokens|
  {
    if tokens != [] {
      DistinctAtMostLength(tokens[1..]);
      assert Distinct(tokens) == {tokens[0]} + Distinct(tokens[1..]);
    }
  }

  /** The words the two token lists share. */
  function Shared(refTokens: seq<string>, studTokens: seq<string>): set<string> {
    Distinct(refTokens) * Distinct(studTokens)
  }

  /**
   * The ratio on token lists: shared distinct words over reference tokens, 0 when either
   * list is empty (`if not ref_tokens`, `if not stud_tokens`).
   */
  function Coverage(refTokens: seq<string>, studTokens: seq<string>): real {
    if refTokens == [] || Distinct(studTokens) == {} then 0.0
    else (|Shared(refTokens, studTokens)| as real) / (|refTokens| as real)
  }

  /**
   * The ratio lies in [0, 1], is positive exactly when some reference token occurs among
   * the student's tokens, and times the reference length (repetitions counted) is the
   * number of shared words.
   */
  lemma CoverageBounds(refTokens: seq<string>, studTokens: seq<string>)
    ensures 0.0 <= Coverage(refTokens, studTokens) <= 1.0
    ensures Coverage(refTokens, studTokens) > 0.0 <==> exists t :: t in refTokens && t in studTokens
    ensures refTokens != [] ==>
      Coverage(refTokens, studTokens) * (|refTokens| as real) == |Shared(refTokens, studTokens)| as real
  {
    SharedCount(refTokens, studTokens);
    if refTokens != [] && Distinct(studTokens) != {} {
      RatioBounds(|Shared(refTokens, studTokens)|, |refTokens|);
    }
  }

  /** The shared words are at most the reference tokens, and there are some exactly when a token is shared. */
  lemma SharedCount(refTokens: seq<string>, studTokens: seq<string>)
    ensures |Shared(refTokens, studTokens)| <= |refTokens|
    ensures |Shared(refTokens, studTokens)| > 0 <==> exists t :: t in refTokens && t in studTokens
    ensures Distinct(studTokens) == {} ==> Shared(refTokens, studTokens) == {}
  {
    DistinctAtMostLength(refTokens);
    SubsetAtMost(Shared(refTokens, studTokens), Distinct(refTokens));
    SharedNonEmpty(refTokens, studTokens);
  }

  lemma SharedNonEmpty(refTokens: seq<string>, studTokens: seq<string>)
    ensures |Shared(refTokens, studTokens)| > 0 <==> exists t :: t in refTokens && t in studTokens
  {
    if |Shared(refTokens, studTokens)| > 0 {
      var t :| t in Shared(refTokens, studTokens);
    }
    if exists t :: t in refTokens && t in studTokens {
      var t :| t in refTokens && t in studTokens;
      assert t in Shared(refTokens, studTokens);
    }
  }

  lemma SubsetAtMost(a: set<string>, b: set<string>)
    requires a <= b
    ensures |a| <= |b|
  {
    assert b == a + (b - a);
    assert a * (b - a) == {};
  }

  lemma RatioBounds(n: nat, d: nat)
    requires 0 < d && n <= d
    ensures 0.0 <= (n as real) / (d as real) <= 1.0
    ensures (n as real) / (d as real) > 0.0 <==> n > 0
    ensures (n as real) / (d as real) * (d as real) == n as real
  {
  }

  /** `token_overlap_ratio_ref(reference, student)`. */
  function OverlapRatio(reference: string, student: string): (r: real)
    ensures 0.0 <= r <= 1.0
    ensures Tokenize(reference) == [] || Tokenize(student) == [] ==> r == 0.0
    ensures r > 0.0 <==> exists t :: t in Tokenize(reference) && t in Tokenize(student)
  {
    CoverageBounds(Tokenize(reference), Tokenize(student));
    Coverage(Tokenize(reference), Tokenize(student))
  }

  /**
   * The denominator counts repetitions: repeating a reference token never raises the
   * ratio, and lowers it whenever it was positive.
   */
  lemma RepeatedTokenLowers(refTokens: seq<string>, studTokens: seq<string>, t: string)
    requires t in refTokens
    ensures Coverage(refTokens + [t], studTokens) <= Coverage(refTokens, studTokens)
    ensures Coverage(refTokens, studTokens) > 0.0 ==>
              Coverage(refTokens + [t], studTokens) < Coverage(refTokens, studTokens)
  {
    var longer := refTokens + [t];
    CoverageBounds(refTokens, studTokens);
    assert Distinct(longer) == Distinct(refTokens);
    assert forall u :: u in refTokens ==> u in longer;
    var n, d := |Shared(refTokens, studTokens)|, |refTokens|;
    assert Shared(longer, studTokens) == Shared(refTokens, studTokens);
    assert |longer| == d + 1;
    DistinctAtMostLength(refTokens);
    SubsetAtMost(Shared(refTokens, studTokens), Distinct(refTokens));
    if Distinct(studTokens) == {} {
      assert Coverage(longer, studTokens) == 0.0 && Coverage(refTokens, studTokens) == 0.0;
    } else {
      assert Coverage(longer, studTokens) == (n as real) / ((d + 1) as real);
      assert Coverage(refTokens, studTokens) == (n as real) / (d as real);
      LongerDenominator(n, d);
    }
  }

  lemma LongerDenominator(n: nat, d: nat)
    requires 0 < d
    ensures (n as real) / ((d + 1) as real) <= (n as real) / (d as real)
    ensures n > 0 ==> (n as real) / ((d + 1) as real) < (n as real) / (d as real)
  {
  }

  /**
   * The same on answers: appending a separator (any character that is not a letter or
   * digit once lower-cased) and another copy of a reference word to the reference.
   */
  lemma RepeatedReferenceWordLowers(reference: string, student: string, sep: char, w: string)
    requires !IsTokenChar(LowerChar(sep)) && w in Tokenize(reference)
    ensures OverlapRatio(reference + [sep] + w, student) <= OverlapRatio(reference, student)
  {
    var refTokens, studTokens := Tokenize(reference), Tokenize(student);
    LowerToken(w);
    TokenizeToken(w);
    TokenizeAppend(reference, sep, w);
    RepeatedTokenLowers(refTokens, studTokens, w);
  }
}
