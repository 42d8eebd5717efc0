# Mini viva evaluator: a Dafny model of the grading core

This project models `AnswerEvaluator` from `evaluator.py`. The evaluator grades a
student's free-text answer against a reference answer. It returns a triple
`(grade 0..5, feedback, similarity percent)`:

1. If either answer is the empty string, the result is grade 0 with a guidance message.
2. If the answers are equal after `strip()` and `lower()`, the result is grade 5 at 100 percent.
3. Otherwise both answers are tokenised. The overlap is the number of distinct reference
   words that the student also uses, divided by the number of reference tokens
   (repetitions counted). A positive overlap is graded with the lexical threshold table.
4. Otherwise the evaluator asks a remote sentence-similarity service. The answer is
   cached per ordered `(student, reference)` pair, clamped into [0, 1] and graded with
   the semantic threshold table. A failed call gives grade 0, "No relation detected.".

Modules, one per component of the evaluator:

- `Text` (`text.dfy`): the tokeniser `preprocess_text`, and `strip`/`lower`.
- `Overlap` (`overlap.dfy`): `token_overlap_ratio_ref` as exact rational arithmetic on reals.
- `Grading` (`grading.dfy`): the two threshold tables, the first-match loop of
  `_lexical_score`/`_hf_score`, and the `_feedback` table.
- `Evaluator` (`evaluator.dfy`): the result triple, the pure branches of `evaluate`, the
  similarity service as a scripted oracle, and the `AnswerEvaluator` class. This class owns
  the cache as a `map` field, and its methods update it in place.
- `Scenarios` (`scenarios.dfy`): concrete evaluations on fixed answers.
- `Wrappers` (`wrappers.dfy`): `Option`, standing for Python's `None`.

The similarity service is a class `SimilarityService`. It logs every request and hands
out scripted replies in order. Once the script is used up, every call fails. This lets the
contracts say when the service is called ("a cache hit leaves the service unchanged") without
modelling the network.

Branch 1 fires only for the literal empty string (`not student_answer`, evaluator.py:138).
A whitespace-only answer is not caught there: it has no tokens, so unless it equals the
other answer after `strip().lower()` it reaches the semantic fallback.

## Model

| member | source | states |
|---|---|---|
| `Text.Tokenize` | evaluator.py:38-44 | empty text gives no tokens; every token is non-empty and made only of `[a-z0-9]`, so it holds no whitespace; the tokens read in order spell exactly the letters and digits of the lower-cased text |
| `Text.TokenizeAppend` | evaluator.py:42-44 | the tokens of two texts joined by any character that is not a letter or digit once lower-cased (whitespace, punctuation, symbols) are the tokens of the first followed by those of the second |
| `Text.TokenizeToken` | evaluator.py:42-44 | a word whose lower-cased form is all letters and digits is read as exactly one token, its lower-cased form; with `TokenizeAppend` this fixes the tokens of every input |
| `Text.LowerToken` | evaluator.py:42 | a well-formed token is unchanged by lower-casing |
| `Text.Strip` | evaluator.py:142 | the stripped text neither starts nor ends with whitespace, and is what remains of the input after deleting a whitespace-only prefix and suffix |
| `Text.TrimLeft` | evaluator.py:142 | removes exactly the leading whitespace: the result is a suffix of the input, everything before it is whitespace, and it does not start with whitespace |
| `Text.TrimRight` | evaluator.py:142 | removes exactly the trailing whitespace: the result is a prefix, everything after it is whitespace, and it does not end with whitespace |
| `Overlap.CoverageBounds` | evaluator.py:98-105 | the ratio lies in [0, 1]; it is positive exactly when some reference token also is a student token; with reference tokens present, ratio times the non-deduplicated reference length equals the number of shared distinct words |
| `Overlap.OverlapRatio` | evaluator.py:93-105 | the ratio lies in [0, 1]; it is 0 when either answer has no tokens; it is positive exactly when the answers share a token |
| `Overlap.DistinctAtMostLength` | evaluator.py:104-105 | a token list has no more distinct words than tokens (why the ratio never exceeds 1) |
| `Overlap.RepeatedTokenLowers` | evaluator.py:98-105 | appending another copy of a reference token never raises the ratio, and strictly lowers a positive one (the denominator counts repetitions) |
| `Overlap.RepeatedReferenceWordLowers` | evaluator.py:93-105 | the same on answers: appending a separator (any character that is not a letter or digit once lower-cased) and one of its own words to the reference never raises the overlap |
| `Grading.FirstMatch` | evaluator.py:107-117 | the loop over a threshold table with early return yields the grade of the first row whose threshold is reached, 0 when none is |
| `Grading.FirstMatchInRange` | evaluator.py:107-117 | over a table whose grades lie in 0..5, the first-match grade lies in 0..5 |
| `Grading.FirstMatchMonotone` | evaluator.py:107-117 | over a table whose grades do not increase down the rows, the first-match grade is monotone non-decreasing in the value |
| `Grading.LexicalGrade` | evaluator.py:107-111 | `_lexical_score` gives a grade in 0..5 |
| `Grading.HfGrade` | evaluator.py:113-117 | `_hf_score` gives a grade in 0..5 |
| `Grading.LexicalTable` | evaluator.py:18-25 | the lexical grade is 5 from 0.90, 4 from 0.66, 3 from 0.50, 2 from 0.33, 1 from 0.15, else 0 |
| `Grading.HfTable` | evaluator.py:28-35 | the semantic grade is 5 from 0.80, 4 from 0.65, 3 from 0.50, 2 from 0.35, 1 from 0.20, else 0 |
| `Grading.LexicalMonotone` | evaluator.py:107-111 | a larger overlap never gives a lower lexical grade |
| `Grading.HfMonotone` | evaluator.py:113-117 | a larger similarity never gives a lower semantic grade |
| `Grading.Feedback` | evaluator.py:119-127 | the feedback is non-empty exactly for grades 0..5; any other integer gets `""` |
| `Grading.FeedbackDistinct` | evaluator.py:119-127 | different grades in 0..5 get different feedback sentences |
| `Evaluator.Precheck` | evaluator.py:138-151 | the branches before the fallback: an empty answer gives `(0, guidance, 0.0)`; an exact match after strip and lower gives `(5, feedback of 5, 100.0)`; a lexical result has a positive percent graded by the lexical table; every result is well formed; and the fallback is reached exactly when both answers are present, differ, and share no token |
| `Evaluator.Fallback` | evaluator.py:154-160 | a failed lookup gives `(0, "No relation detected.", 0.0)`; any result has a grade in 0..5 with its own feedback; a similarity in [0, 1] gives a well-formed result whose percent is that similarity times 100 |
| `Evaluator.GradeSimilarity` | evaluator.py:155-160 | grading the outcome of the lookup with the first-match loop over the semantic table yields exactly `Fallback` of that outcome, so a failure gives grade 0 and a similarity its semantic grade and percent |
| `Evaluator.FallbackMonotone` | evaluator.py:159-160 | a higher similarity never gives a lower fallback grade |
| `Evaluator.Clamp` | evaluator.py:89 | the clamped value lies in [0, 1], equals the input inside [0, 1], and is 0 below and 1 above |
| `Evaluator.ClampReply` | evaluator.py:88-89 | a failed reply stays failed; a successful one becomes its clamped value |
| `Evaluator.SimilarityService.Post` | evaluator.py:51-56 | the oracle for the HTTP call: logs the request `(source sentence, compared sentence)` and returns the next scripted reply, or failure when none is left |
| `Evaluator.AnswerEvaluator.constructor` | evaluator.py:48-49 | a new evaluator starts with an empty cache |
| `Evaluator.AnswerEvaluator.SentenceSimilarity` | evaluator.py:58-91 | a cache hit returns the stored value and leaves the cache and the service unchanged; a miss sends exactly one request `(student, reference)` and returns its clamped reply; a success is stored under that key and nothing else in the cache changes; a failure leaves the cache unchanged; every cached value stays in [0, 1] |
| `Evaluator.AnswerEvaluator.Evaluate` | evaluator.py:129-160 | every result has a grade in 0..5, a percent in [0, 100] and matching feedback; the empty, exact-match and lexical branches equal `Precheck` and touch neither cache nor service; otherwise the result is `Fallback` of the cached value or the clamped reply, with the cache and the service changed as in `SentenceSimilarity` |
| `Evaluator.RepeatedEvaluation` | evaluator.py:60-62 | evaluating one pair twice gives the same result whenever the first evaluation needed no lookup or its lookup succeeded; a pair answered from the branches or the cache sends no request, and a successful first lookup sends exactly one |
| `Scenarios.ExactMatchScenario` | evaluator.py:142-143 | two identical sentences get grade 5 at 100 percent |
| `Scenarios.HalfCoveredScenario` | evaluator.py:146-151 | reference "apple banana cherry date" and student "apple banana" have overlap 2/4 and get grade 3 at 50 percent |
| `Scenarios.MissingAnswerScenario` | evaluator.py:138-139 | an empty student answer gets the guidance message, grade 0, 0 percent |
| `Scenarios.ApostropheScenario` | evaluator.py:42-44 | "Don't" is read as the two tokens "don" and "t": upper case is folded and the apostrophe separates |
| `Scenarios.NoOverlapScenario` | evaluator.py:146-153 | "xyz unrelated words" against "quantum entanglement theory" shares no token and falls back to the similarity service |
| `Scenarios.SemanticScenario` | evaluator.py:153-160 | for a pair that falls back, a reply of 0.75 gives grade 4 at 75 percent; a second evaluation returns the same result from the cache, and the service sees one request in all |
| `Scenarios.UnreachableScenario` | evaluator.py:154-157 | for a pair that falls back, an unreachable service gives grade 0, "No relation detected.", 0 percent |

## Left out

- The HTTP request (`_post`, evaluator.py:51-56), the status check and the JSON decoding of the reply (evaluator.py:64-87) are network I/O and third-party parsing. `SimilarityService.Post` stands for all of it: it returns the parsed score, not yet clamped, or `None` for a transport error, a non-200 status or an unreadable payload. The request timeout is not modelled.
- The API token, model id and endpoint constants (evaluator.py:11-14) are configuration.
- Floating point: overlaps, similarities and thresholds are exact reals, so IEEE rounding of `len(inter) / len(ref_tokens)` against the threshold literals is not modelled.
- `Evaluator.Clamp`: non-finite replies are not modelled, because replies are exact reals. In Python, `max(0.0, min(1.0, float(sim)))` (evaluator.py:89) turns NaN into 1.0, since every comparison with NaN is false, and turns +inf into 1.0 as well. Such a reply (`resp.json()` accepts `NaN`, and `float("nan")` parses a "score" string at evaluator.py:80) is cached as 1.0 and graded 5. The model's `Clamp` and `ClampReply` cover only finite replies.
- `round(x, 2)` (evaluator.py:150, 160) is not modelled. The percent is the exact `ratio * 100`. Rounding keeps it in [0, 100], so the bounds stated here still hold for the rounded value.
- `Text.Lower` lowers only the ASCII letters. Python's `str.lower()` is Unicode-aware: it lowers other scripts too, turns the Kelvin sign into `k`, and turns `İ` into two characters. So the model's exact-match test and tokens differ from Python's on such input.
- Whitespace is Python's `str.isspace` set, written out by code point. It is used for `strip()`, for `\s` in the substitution and for `split()`.
- Python's `None` as an answer (which `not text` also catches) is not modelled. Answers are strings.
- `_lexical_score`, `_hf_score`, `_feedback` and `token_overlap_ratio_ref` read no state of the object. They are modelled as module-level members, not as class methods.
- Thread safety of the shared cache is out of scope. The source has no locking. The model is sequential.
- The web front end (`app.py`) is not part of this model.
