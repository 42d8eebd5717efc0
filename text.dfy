/**
 * Text normalisation of `evaluator.py`: the tokeniser `preprocess_text` and the
 * `strip`/`lower` pair used by the exact-match test of `evaluate`.
 *
 * Characters are Unicode scalar values; lower-casing is ASCII-only (see README).
 */
module Text {

  /** Python's `str.isspace` (also the `\s` class of `re` and the separators of `str.split()`). */
  predicate IsSpace(c: char) {
    var n := c as int;
    (9 <= n <= 13) || (28 <= n <= 32) || n == 0x85 || n == 0xA0 || n == 0x1680
    || (0x2000 <= n <= 0x200A) || n == 0x2028 || n == 0x2029 || n == 0x202F
    || n == 0x205F || n == 0x3000
  }

  /** The characters the tokeniser keeps: `[a-z0-9]`. */
  predicate IsTokenChar(c: char) {
    ('a' <= c <= 'z') || ('0' <= c <= '9')
  }

  /** A well-formed token: non-empty and made only of `[a-z0-9]` (hence free of whitespace). */
  predicate IsToken(t: string) {
    t != [] && forall i :: 0 <= i < |t| ==> IsTokenChar(t[i])
  }

  function LowerChar(c: char): (r: char)
    ensures !('A' <= r <= 'Z')
  {
    if 'A' <= c <= 'Z' then (c as int + 32) as char else c
  }

  /** `str.lower()`, restricted to the ASCII letters. */
  function Lower(s: string): (r: string)
    ensures |r| == |s| && forall i :: 0 <= i < |s| ==> r[i] == LowerChar(s[i])
  {
    if s == [] then [] else [LowerChar(s[0])] + Lower(s[1..])
  }

  /** One character of `re.sub(r"[^a-z0-9\s]", " ", text)`. */
  function ScrubChar(c: char): char {
    if IsTokenChar(c) || IsSpace(c) then c else ' '
  }

  function Scrub(s: string): (r: string)
    ensures |r| == |s| && forall i :: 0 <= i < |s| ==> r[i] == ScrubChar(s[i])
  {
    if s == [] then [] else [ScrubChar(s[0])] + Scrub(s[1..])
  }

  /**
   * `str.split()` with no separator: the maximal runs of non-whitespace characters,
   * `cur` being the run read so far.
   */
  function Words(s: string, cur: string): seq<string>
    decreases |s|
  {
    if s == [] then
      (if cur == [] then [] else [cur])
    else if IsSpace(s[0]) then
      (if cur == [] then Words(s[1..], []) else [cur] + Words(s[1..], []))
    else
      Words(s[1..], cur + [s[0]])
  }

  function Split(s: string): seq<string> {
    Words(s, [])
  }

  /** The comprehension `[t for t in ... if t]`. */
  function DropEmpty(ws: seq<string>): seq<string> {
    if ws == [] then []
    else if ws[0] == [] then DropEmpty(ws[1..])
    else [ws[0]] + DropEmpty(ws[1..])
  }

  function Concat(ws: seq<string>): string {
    if ws == [] then [] else ws[0] + Concat(ws[1..])
  }

  /** The characters of `s` that are not whitespace, in order. */
  function NonSpace(s: string): string {
    if s == [] then [] else (if IsSpace(s[0]) then [] else [s[0]]) + NonSpace(s[1..])
  }

  /** The characters of `s` in `[a-z0-9]`, in order. */
  function TokenChars(s: string): string {
    if s == [] then [] else (if IsTokenChar(s[0]) then [s[0]] else []) + TokenChars(s[1..])
  }

  /**
   * `preprocess_text`: every token is well formed, and the tokens, read one after
   * the other, are exactly the letters and digits of the lower-cased text.
   */
  function Tokenize(text: string): (tokens: seq<string>)
    ensures text == [] ==> tokens == []
    ensures forall t :: t in tokens ==> IsToken(t)
    ensures Concat(tokens) == TokenChars(Lower(text))
  {
    TokenizeSplits(text);
    var scrubbed := Scrub(Lower(text));
    WordsAreTokens(scrubbed, []);
    WordsConcat(scrubbed, []);
    ScrubNonSpace(Lower(text));
    if text == [] then [] else DropEmpty(Split(scrubbed))
  }

  lemma {:induction false} DropEmptyKeeps(ws: seq<string>)
    requires forall w :: w in ws ==> w != []
    ensures DropEmpty(ws) == ws
  {
    if ws != [] {
      assert ws[0] in ws;
      assert forall w :: w in ws[1..] ==> w in ws;
      DropEmptyKeeps(ws[1..]);
    }
  }

  lemma {:induction false} WordsNonEmpty(s: string, cur: string)
    ensures forall w :: w in Words(s, cur) ==> w != []
    decreases |s|
  {
    if s != [] {
      if IsSpace(s[0]) {
        WordsNonEmpty(s[1..], []);
      } else {
        WordsNonEmpty(s[1..], cur + [s[0]]);
      }
    }
  }

  /** `Tokenize` is the split of the scrubbed, lower-cased text: the empty-token filter never fires. */
  lemma TokenizeSplits(text: string)
    ensures text != [] ==> DropEmpty(Split(Scrub(Lower(text)))) == Split(Scrub(Lower(text)))
  {
    WordsNonEmpty(Scrub(Lower(text)), []);
    DropEmptyKeeps(Split(Scrub(Lower(text))));
  }

  /** Splitting text made of token characters and whitespace yields well-formed tokens. */
  lemma {:induction false} WordsAreTokens(s: string, cur: string)
    requires forall i :: 0 <= i < |cur| ==> IsTokenChar(cur[i])
    requires forall i :: 0 <= i < |s| ==> IsTokenChar(s[i]) || IsSpace(s[i])
    ensures forall w :: w in Words(s, cur) ==> IsToken(w)
    decreases |s|
  {
    if s != [] {
      assert forall i :: 0 <= i < |s[1..]| ==> s[1..][i] == s[i + 1];
      if IsSpace(s[0]) {
        WordsAreTokens(s[1..], []);
      } else {
        WordsAreTokens(s[1..], cur + [s[0]]);
      }
    }
  }

  /** Splitting loses exactly the whitespace. */
  lemma {:induction false} WordsConcat(s: string, cur: string)
    ensures Concat(Words(s, cur)) == cur + NonSpace(s)
    decreases |s|
  {
    if s == [] {
      if cur != [] {
        assert Concat([cur]) == cur + Concat([]);
      }
    } else if IsSpace(s[0]) {
      WordsConcat(s[1..], []);
      if cur != [] {
        var rest := Words(s[1..], []);
        assert ([cur] + rest)[1..] == rest;
      }
    } else {
      WordsConcat(s[1..], cur + [s[0]]);
      assert cur + [s[0]] + NonSpace(s[1..]) == cur + ([s[0]] + NonSpace(s[1..]));
    }
  }

  /** Scrubbing turns exactly the characters outside `[a-z0-9]` and whitespace into separators. */
  lemma {:induction false} ScrubNonSpace(s: string)
    ensures NonSpace(Scrub(s)) == TokenChars(s)
  {
    if s != [] {
      ScrubNonSpace(s[1..]);
      assert Scrub(s)[1..] == Scrub(s[1..]);
    }
  }

  /** Splitting at a whitespace character splits the token list there. */
  lemma {:induction false} WordsAppend(s: string, sp: char, t: string, cur: string)
    requires IsSpace(sp)
    ensures Words(s + [sp] + t, cur) == Words(s, cur) + Words(t, [])
    decreases |s|
  {
    var whole := s + [sp] + t;
    if s == [] {
      assert whole[0] == sp && whole[1..] == t;
    } else {
      assert whole[0] == s[0] && whole[1..] == s[1..] + [sp] + t;
      if IsSpace(s[0]) {
        WordsAppend(s[1..], sp, t, []);
      } else {
        WordsAppend(s[1..], sp, t, cur + [s[0]]);
      }
    }
  }

  /** A run of non-whitespace characters is read as one word. */
  lemma {:induction false} WordsOfRun(w: string, cur: string)
    requires cur + w != []
    requires forall i :: 0 <= i < |w| ==> !IsSpace(w[i])
    ensures Words(w, cur) == [cur + w]
    decreases |w|
  {
    if w != [] {
      var rest := w[1..];
      assert forall i :: 0 <= i < |rest| ==> !IsSpace(rest[i]) by {
        forall i | 0 <= i < |rest| ensures !IsSpace(rest[i]) { assert rest[i] == w[i + 1]; }
      }
      WordsOfRun(rest, cur + [w[0]]);
      assert cur + [w[0]] + rest == cur + w by { assert w == [w[0]] + rest; }
    } else {
      assert cur + w == cur;
    }
  }

  lemma {:induction false} LowerAppend(x: string, y: string)
    ensures Lower(x + y) == Lower(x) + Lower(y)
  {
    forall i | 0 <= i < |x + y|
      ensures Lower(x + y)[i] == (Lower(x) + Lower(y))[i]
    {
      if i < |x| { assert (x + y)[i] == x[i]; } else { assert (x + y)[i] == y[i - |x|]; }
    }
  }

  lemma {:induction false} ScrubAppend(x: string, y: string)
    ensures Scrub(x + y) == Scrub(x) + Scrub(y)
  {
    forall i | 0 <= i < |x + y|
      ensures Scrub(x + y)[i] == (Scrub(x) + Scrub(y))[i]
    {
      if i < |x| { assert (x + y)[i] == x[i]; } else { assert (x + y)[i] == y[i - |x|]; }
    }
  }

  lemma TokenCharNotSpace(c: char)
    requires IsTokenChar(c)
    ensures !IsSpace(c) && ScrubChar(c) == c
  {
  }

  /** A well-formed token is already lower case. */
  lemma {:induction false} LowerToken(w: string)
    requires IsToken(w)
    ensures Lower(w) == w
  {
    forall i | 0 <= i < |w| ensures Lower(w)[i] == w[i] {
      assert IsTokenChar(w[i]);
    }
  }

  /**
   * Tokens of two texts joined by any character that is not a letter or digit once
   * lower-cased (whitespace, punctuation, symbols) are the tokens of each, in order.
   */
  lemma TokenizeAppend(a: string, sep: char, b: string)
    requires !IsTokenChar(LowerChar(sep))
    ensures Tokenize(a + [sep] + b) == Tokenize(a) + Tokenize(b)
  {
    var sp := ScrubChar(LowerChar(sep));
    assert IsSpace(sp);
    var la, lb := Lower(a), Lower(b);
    LowerAppend(a + [sep], b);
    LowerAppend(a, [sep]);
    assert Lower([sep]) == [LowerChar(sep)];
    ScrubAppend(la + [LowerChar(sep)], lb);
    ScrubAppend(la, [LowerChar(sep)]);
    assert Scrub([LowerChar(sep)]) == [sp];
    var sa, sb := Scrub(la), Scrub(lb);
    assert Scrub(Lower(a + [sep] + b)) == sa + [sp] + sb;
    WordsAppend(sa, sp, sb, []);
    TokenizeSplits(a + [sep] + b);
    TokenizeSplits(a);
    TokenizeSplits(b);
  }

  /**
   * A word whose lower-cased form is a well-formed token is read as that one token,
   * whatever the case of its letters.
   */
  lemma TokenizeToken(w: string)
    requires IsToken(Lower(w))
    ensures Tokenize(w) == [Lower(w)]
  {
    var lw := Lower(w);
    forall i | 0 <= i < |lw| ensures !IsSpace(lw[i]) && ScrubChar(lw[i]) == lw[i] {
      TokenCharNotSpace(lw[i]);
    }
    assert Scrub(lw) == lw;
    WordsOfRun(lw, []);
    assert [] + lw == lw;
    assert Split(Scrub(lw)) == [lw];
    TokenizeSplits(w);
  }

  /** `str.lstrip()`: drops the leading whitespace and nothing else. */
  function TrimLeft(s: string): (r: string)
    ensures |r| <= |s| && r == s[|s| - |r|..]
    ensures forall k :: 0 <= k < |s| - |r| ==> IsSpace(s[k])
    ensures r == [] || !IsSpace(r[0])
  {
    if s != [] && IsSpace(s[0]) then TrimLeft(s[1..]) else s
  }

  /** `str.rstrip()`: drops the trailing whitespace and nothing else. */
  function TrimRight(s: string): (r: string)
    ensures |r| <= |s| && r == s[..|r|]
    ensures forall k :: |r| <= k < |s| ==> IsSpace(s[k])
    ensures r == [] || !IsSpace(r[|r| - 1])
  {
    if s != [] && IsSpace(s[|s| - 1]) then TrimRight(s[..|s| - 1]) else s
  }

  predicate AllSpace(s: string) {
    forall k :: 0 <= k < |s| ==> IsSpace(s[k])
  }

  /** `str.strip()`: what is left of `s` after removing whitespace at both ends. */
  function Strip(s: string): (r: string)
    ensures r == [] || (!IsSpace(r[0]) && !IsSpace(r[|r| - 1]))
    ensures exists before, after :: s == before + r + after && AllSpace(before) && AllSpace(after)
  {
    StripHolds(s);
    TrimRight(TrimLeft(s))
  }

  lemma StripHolds(s: string)
    ensures exists before, after :: s == before + TrimRight(TrimLeft(s)) + after && AllSpace(before) && AllSpace(after)
  {
    var before, after := StripParts(s);
  }

  lemma StripParts(s: string) returns (before: string, after: string)
    ensures s == before + TrimRight(TrimLeft(s)) + after
    ensures AllSpace(before) && AllSpace(after)
  {
    var left := TrimLeft(s);
    before := LeadingSpace(s);
    after := TrailingSpace(left);
    Regroup(s, before, left, TrimRight(left), after);
  }

  lemma Regroup(s: string, before: string, middle: string, r: string, after: string)
    requires s == before + middle && middle == r + after
    ensures s == before + r + after
  {
  }

  lemma LeadingSpace(s: string) returns (before: string)
    ensures s == before + TrimLeft(s) && AllSpace(before)
  {
    var left := TrimLeft(s);
    before := s[..|s| - |left|];
    assert left == s[|s| - |left|..];
    assert s == before + left;
    forall k | 0 <= k < |before| ensures IsSpace(before[k]) { assert before[k] == s[k]; }
  }

  lemma TrailingSpace(s: string) returns (after: string)
    ensures s == TrimRight(s) + after && AllSpace(after)
  {
    var r := TrimRight(s);
    after := s[|r|..];
    assert r == s[..|r|];
    forall k | 0 <= k < |after| ensures IsSpace(after[k]) { assert after[k] == s[|r| + k]; }
  }

  /** The exact-match test of `evaluate`: equal after `strip()` and `lower()`. */
  predicate SameAnswer(a: string, b: string) {
    Lower(Strip(a)) == Lower(Strip(b))
  }
}
