/** Concrete evaluations: the documented behaviour on fixed answers. */
module Scenarios {

  import opened Wrappers
  import opened Text
  import opened Overlap
  import opened Grading
  import opened Evaluator

  /** Text without whitespace at either end is left alone by stripping. */
  lemma Unstripped(s: string)
    requires s != [] && !IsSpace(s[0]) && !IsSpace(s[|s| - 1])
    ensures Strip(s) == s
  {
    assert TrimLeft(s) == s;
    assert TrimRight(s) == s;
  }

  /** Answers of different lengths that stripping leaves alone are not an exact match. */
  lemma DifferentLengths(a: string, b: string)
    ensures Strip(a) == a && Strip(b) == b && |a| != |b| ==> !SameAnswer(a, b)
  {
    assert |Lower(Strip(a))| == |Strip(a)| && |Lower(Strip(b))| == |Strip(b)|;
  }

  // The scenario lemmas take their answers as parameters fixed by a `requires`
  // rather than writing the literals inline: inline literals let the solver unfold
  // `Tokenize`, `Lower` and `Strip` character by character, which is far costlier.

  lemma FourWordTokens(text: string)
    requires text == "apple banana cherry date"
    ensures Tokenize(text) == ["apple", "banana", "cherry", "date"]
  {
    assert text == "apple" + [' '] + ("banana" + [' '] + ("cherry" + [' '] + "date"));
    Words3("apple", "banana", "cherry", "date");
  }

  lemma TwoWordTokens(text: string)
    requires text == "apple banana"
    ensures Tokenize(text) == ["apple", "banana"]
  {
    assert text == "apple" + [' '] + "banana";
    Words1("apple", "banana");
  }

  /** Punctuation separates tokens and upper case is folded: "Don't" reads as "don", "t". */
  lemma ApostropheScenario(text: string)
    requires text == "Don't"
    ensures Tokenize(text) == ["don", "t"]
  {
    assert text == "Don" + ['\''] + "t";
    TokenizeAppend("Don", '\'', "t");
    assert Lower("Don") == "don";
    TokenizeToken("Don");
    LowerToken("t");
    TokenizeToken("t");
  }

  lemma Words3(a: string, b: string, c: string, d: string)
    requires IsToken(a) && IsToken(b) && IsToken(c) && IsToken(d)
    ensures Tokenize(a + [' '] + (b + [' '] + (c + [' '] + d))) == [a, b, c, d]
  {
    TokenizeAppend(c, ' ', d);
    TokenizeAppend(b, ' ', c + [' '] + d);
    TokenizeAppend(a, ' ', b + [' '] + (c + [' '] + d));
    LowerToken(a);
    TokenizeToken(a);
    LowerToken(b);
    TokenizeToken(b);
    LowerToken(c);
    TokenizeToken(c);
    LowerToken(d);
    TokenizeToken(d);
  }

  lemma ThreeWordTokens(text: string, a: string, b: string, c: string)
    requires text == a + [' '] + (b + [' '] + c) && IsToken(a) && IsToken(b) && IsToken(c)
    ensures Tokenize(text) == [a, b, c]
  {
    TokenizeAppend(b, ' ', c);
    TokenizeAppend(a, ' ', b + [' '] + c);
    LowerToken(a);
    TokenizeToken(a);
    LowerToken(b);
    TokenizeToken(b);
    LowerToken(c);
    TokenizeToken(c);
  }

  lemma Words1(a: string, b: string)
    requires IsToken(a) && IsToken(b)
    ensures Tokenize(a + [' '] + b) == [a, b]
  {
    TokenizeAppend(a, ' ', b);
    LowerToken(a);
    TokenizeToken(a);
    LowerToken(b);
    TokenizeToken(b);
  }

  /** Identical answers: grade 5 at 100 percent. */
  lemma ExactMatchScenario()
    ensures Precheck("The mitochondria is the powerhouse of the cell",
                     "The mitochondria is the powerhouse of the cell")
            == Some(Evaluation(5, "Excellent — highly relevant and complete.", 100.0))
  {
  }

  /** Two of four reference tokens covered: ratio 0.5, grade 3, 50 percent. */
  lemma HalfCoveredScenario(student: string, reference: string)
    requires student == "apple banana" && reference == "apple banana cherry date"
    ensures Precheck(student, reference)
            == Some(Evaluation(3, "Good — some relevant points present.", 50.0))
  {
    HalfCoveredDiffers(student, reference);
    FourWordTokens(reference);
    TwoWordTokens(student);
    HalfCovered(Tokenize(reference), Tokenize(student));
    LexicalTable(0.5);
    PrecheckLexical(student, reference);
  }

  lemma HalfCoveredDiffers(student: string, reference: string)
    requires student == "apple banana" && reference == "apple banana cherry date"
    ensures !SameAnswer(student, reference)
  {
    Unstripped(student);
    Unstripped(reference);
    DifferentLengths(student, reference);
  }

  lemma HalfCovered(refTokens: seq<string>, studTokens: seq<string>)
    requires refTokens == ["apple", "banana", "cherry", "date"] && studTokens == ["apple", "banana"]
    ensures Coverage(refTokens, studTokens) == 0.5
  {
    var apple, banana: string := "apple", "banana";
    assert apple != banana by { assert apple[0] != banana[0]; }
    assert Distinct(studTokens) == {apple, banana};
    assert Shared(refTokens, studTokens) == {apple, banana} by {
      assert forall t :: t in refTokens && t in studTokens <==> t == apple || t == banana;
    }
    assert |{apple, banana}| == 2;
  }

  /** An empty student answer: the guidance message. */
  lemma MissingAnswerScenario()
    ensures Precheck("", "apple banana cherry date")
            == Some(Evaluation(0, "Please provide both reference and student answers.", 0.0))
  {
  }

  /** No shared token and different texts: the semantic fallback decides. */
  lemma NoOverlapScenario(student: string, reference: string)
    requires student == "xyz unrelated words" && reference == "quantum entanglement theory"
    ensures Precheck(student, reference) == None
  {
    NoOverlapDiffers(student, reference);
    UnrelatedTokens(student);
    QuantumSharesNothing(reference, Tokenize(student));
  }

  lemma NoOverlapDiffers(student: string, reference: string)
    requires student == "xyz unrelated words" && reference == "quantum entanglement theory"
    ensures !SameAnswer(student, reference)
  {
    Unstripped(student);
    Unstripped(reference);
    DifferentLengths(student, reference);
  }

  lemma UnrelatedTokens(student: string)
    requires student == "xyz unrelated words"
    ensures Tokenize(student) == ["xyz", "unrelated", "words"]
  {
    ThreeWordTokens(student, "xyz", "unrelated", "words");
  }

  /** The reference of `NoOverlapScenario` is tokenised and shares no token with the student. */
  lemma QuantumSharesNothing(reference: string, studTokens: seq<string>)
    requires reference == "quantum entanglement theory" && studTokens == ["xyz", "unrelated", "words"]
    ensures Tokenize(reference) == ["quantum", "entanglement", "theory"]
    ensures !(exists t :: t in Tokenize(reference) && t in studTokens)
  {
    ThreeWordTokens(reference, "quantum", "entanglement", "theory");
    NothingShared(Tokenize(reference), studTokens);
  }

  lemma NothingShared(refTokens: seq<string>, studTokens: seq<string>)
    requires refTokens == ["quantum", "entanglement", "theory"] && studTokens == ["xyz", "unrelated", "words"]
    ensures !(exists t :: t in refTokens && t in studTokens)
  {
  }

  /**
   * The semantic path end to end, for a pair that falls back (as the pair of
   * `NoOverlapScenario` does), on a service that answers 0.75 once and then fails:
   * grade 4 at 75 percent, and the repeated evaluation is served from the cache, so the
   * service sees exactly one request.
   */
  method SemanticScenario(student: string, reference: string)
    returns (first: Evaluation, second: Evaluation, calls: nat)
    ensures Precheck(student, reference) == None ==>
      first == Evaluation(4, "Very good — mostly relevant.", 75.0) && second == first && calls == 1
  {
    var service := new SimilarityService([Some(0.75)]);
    var evaluator := new AnswerEvaluator(service);
    HfTable(0.75);
    first := evaluator.Evaluate(student, reference);
    second := evaluator.Evaluate(student, reference);
    calls := |service.requests|;
  }

  /** The same pair on a service that cannot be reached: no relation, grade 0. */
  method UnreachableScenario(student: string, reference: string) returns (result: Evaluation)
    ensures Precheck(student, reference) == None ==> result == Evaluation(0, "No relation detected.", 0.0)
  {
    var service := new SimilarityService([]);
    var evaluator := new AnswerEvaluator(service);
    result := evaluator.Evaluate(student, reference);
  }
}
