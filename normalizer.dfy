/**
 * The answer comparison of the local evaluator: both strings are trimmed and lower-cased, then
 * compared as they are and, failing that, with every non-word character removed.
 */
module Normalizer {
  import opened JsText

  /** `s.trim().toLowerCase()`. */
  function Canonical(s: string): string {
    ToLowerCase(Trim(s))
  }

  /** The inner `normalize`: `s.replace(/[^\w]/g, '')`. */
  function Normalize(s: string): string {
    RemoveNonWord(s)
  }

  /** `userVal === correctVal || normalize(userVal) === normalize(correctVal)` on canonical forms. */
  predicate AnswersMatch(learner: string, expected: string) {
    var u, k := Canonical(learner), Canonical(expected);
    u == k || Normalize(u) == Normalize(k)
  }

  /** The word characters of a string, lower-cased: all that decides a match. */
  function WordKey(s: string): string {
    RemoveNonWord(ToLowerCase(s))
  }

  /**
   * Two answers match exactly when they hold the same word characters in the same order, ignoring
   * ASCII case: the exact comparison never accepts a pair the stripped one rejects, and the
   * trimming does not matter.
   */
  lemma MatchIffSameWords(learner: string, expected: string)
    ensures AnswersMatch(learner, expected) <==> WordKey(learner) == WordKey(expected)
  {
    WordsIgnoreTrim(learner);
    WordsIgnoreTrim(expected);
  }

  /** Matching is an equivalence: every answer matches itself, and the relation is symmetric and transitive. */
  lemma MatchIsEquivalence(a: string, b: string, c: string)
    ensures AnswersMatch(a, a)
    ensures AnswersMatch(a, b) ==> AnswersMatch(b, a)
    ensures AnswersMatch(a, b) && AnswersMatch(b, c) ==> AnswersMatch(a, c)
  {
    MatchIffSameWords(a, b);
    MatchIffSameWords(b, c);
    MatchIffSameWords(a, c);
  }

  /** A blank learner answer matches exactly the expected answers that hold no word character. */
  lemma BlankMatchesOnlyWordless(learner: string, expected: string)
    requires AllWhitespace(learner)
    ensures AnswersMatch(learner, expected) <==> WordKey(expected) == []
  {
    MatchIffSameWords(learner, expected);
    RemoveNonWordOfWhitespace(learner);
  }

  /** The word key of a one-letter lower-case answer is the letter. */
  lemma WordKeyOfLetter(c: char)
    requires 'a' <= c <= 'z'
    ensures WordKey([c]) == [c]
  {
    assert ToLowerCase([c]) == [c];
    assert [c][1..] == [];
  }

  /** "X." matches "x": case and the trailing full stop are ignored. */
  lemma MatchIgnoresCaseAndStop()
    ensures AnswersMatch("X.", "x")
  {
    MatchIffSameWords("X.", "x");
    WordKeyOfLetter('x');
    assert ToLowerCase("X.") == "x.";
    assert RemoveNonWord("x.") == "x" by { assert "x."[1..] == "."; }
  }

  lemma WordKeyOfBracketed()
    ensures WordKey("(x)") == "x"
  {
    var l := ToLowerCase("(x)");
    assert l == "(x)" by {
      assert |l| == 3 && l[0] == '(' && l[1] == 'x' && l[2] == ')';
    }
    assert RemoveNonWord(")") == [] by { assert ")"[1..] == []; }
    assert RemoveNonWord("x)") == "x" by { assert "x)"[1..] == ")"; }
    assert RemoveNonWord("(x)") == "x" by { assert "(x)"[1..] == "x)"; }
  }

  /** "(x)" matches "x": brackets are ignored. */
  lemma MatchIgnoresBrackets()
    ensures AnswersMatch("(x)", "x")
  {
    MatchIffSameWords("(x)", "x");
    WordKeyOfLetter('x');
    WordKeyOfBracketed();
  }

  /** "x" does not match "y". */
  lemma DifferentWordsDoNotMatch()
    ensures !AnswersMatch("x", "y")
  {
    MatchIffSameWords("x", "y");
    WordKeyOfLetter('x');
    WordKeyOfLetter('y');
  }
}
