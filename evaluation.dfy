/**
 * Grading a submission: the local evaluator for the topics whose answers are single words, the
 * fallback result of the model-based evaluator, and the dispatch between the two.
 */
module Evaluation {
  import opened Types
  import opened JsText
  import opened Normalizer

  const DefaultRule := "Follow the grammar rules."
  const InitialFeedback := "Keep practicing!"
  const ExcellentFeedback := "Excellent! You mastered this rule."
  const VeryGoodFeedback := "Very good! Just a few mistakes."
  const GoodAttemptFeedback := "Good attempt. Review the rules below."
  const StudyFeedback := "Study the rules and try again."
  const ErrorFeedback := "Error checking answer."

  /** `m[k] || ""`: a missing entry and an empty one both read as "". */
  function Lookup(m: map<string, string>, k: string): string {
    if k in m then m[k] else ""
  }

  /** The answer-key entry holding the rule for gap `id`. */
  function RuleKey(id: string): string {
    id + "_rule"
  }

  /** The keys graded: the gap numbers as strings when `gaps` is present, else just "main". */
  function CheckedKeys(q: PracticeQuestion): seq<string> {
    match q.gaps
    case Some(g) => seq(|g|, i requires 0 <= i < |g| => IntToString(g[i]))
    case None => ["main"]
  }

  /** `key[id] || "N/A"`. */
  function ExpectedFor(key: map<string, string>, id: string): string {
    if Lookup(key, id) != "" then Lookup(key, id) else "N/A"
  }

  /** `key[id + "_rule"] || "Follow the grammar rules."`. */
  function RuleFor(key: map<string, string>, id: string): string {
    if Lookup(key, RuleKey(id)) != "" then Lookup(key, RuleKey(id)) else DefaultRule
  }

  /** The detail recorded for one graded key. */
  function Verdict(id: string, answers: map<string, string>, key: map<string, string>): GapEvaluation {
    GapEvaluation(
      ExpectedFor(key, id),
      AnswersMatch(Lookup(answers, id), Lookup(key, id)),
      "Rule: " + RuleFor(key, id))
  }

  /** How many of `keys` (counted with repetition) the learner answered correctly. */
  function CountCorrect(keys: seq<string>, answers: map<string, string>, key: map<string, string>): (c: nat)
    ensures c <= |keys|
  {
    if keys == [] then 0
    else
      CountCorrect(keys[..|keys| - 1], answers, key)
      + (if Verdict(keys[|keys| - 1], answers, key).isCorrect then 1 else 0)
  }

  /**
   * `Math.round(correct / total * 100)` in exact integer arithmetic, with 0 for an empty total:
   * the integer nearest to 100 * correct / total, halves rounded up.
   */
  function RoundPercent(correct: nat, total: nat): (score: int)
    requires correct <= total
    ensures 0 <= score <= 100
    ensures total == 0 ==> score == 0
  {
    if total == 0 then 0
    else
      var score := (200 * correct + total) / (2 * total);
      DivBounds(200 * correct + total, 2 * total, score);
      assert 200 * correct + total < 2 * total * 101;
      score
  }

  /** All keys right rounds to 100, none right to 0. */
  lemma RoundPercentExtremes(total: nat)
    requires total > 0
    ensures RoundPercent(total, total) == 100
    ensures RoundPercent(0, total) == 0
  {
    DivUnique(200 * total + total, 2 * total, 100);
    DivUnique(total, 2 * total, 0);
  }

  lemma DivUnique(a: int, b: int, q: int)
    requires b > 0 && b * q <= a < b * q + b
    ensures a / b == q
  {
    var r := a / b;
    assert b * r <= a < b * r + b;
    if r < q {
      MulMonotone(b, r + 1, q);
    } else if r > q {
      MulMonotone(b, q + 1, r);
    }
  }

  lemma MulMonotone(b: nat, x: int, y: int)
    requires x <= y
    ensures b * x <= b * y
  {
  }

  /** The score is the nearest integer to 100 * correct / total, a half rounded up. */
  lemma RoundPercentNearest(correct: nat, total: nat)
    requires correct <= total && total > 0
    ensures var score := RoundPercent(correct, total);
      2 * total * score <= 200 * correct + total < 2 * total * (score + 1)
  {
    DivBounds(200 * correct + total, 2 * total, RoundPercent(correct, total));
  }

  lemma DivBounds(a: nat, b: nat, q: int)
    requires b > 0 && q == a / b
    ensures 0 <= q && b * q <= a < b * (q + 1)
  {
  }

  /** The four feedback bands, tested in order. */
  function Feedback(score: int): string {
    if score == 100 then ExcellentFeedback
    else if score >= 80 then VeryGoodFeedback
    else if score >= 50 then GoodAttemptFeedback
    else StudyFeedback
  }

  /** What the local evaluator returns. */
  function LocalEvaluation(q: PracticeQuestion, answers: map<string, string>): EvaluationResult {
    var keys := CheckedKeys(q);
    var score := RoundPercent(CountCorrect(keys, answers, q.answerKey), |keys|);
    EvaluationResult(score, Feedback(score), map id | id in keys :: Verdict(id, answers, q.answerKey))
  }

  /**
   * evaluateLocally: grade every checked key in order, count the correct ones, score the ratio
   * against the number of gaps, and pick the feedback band.
   */
  method EvaluateLocally(q: PracticeQuestion, userAnswers: map<string, string>) returns (r: EvaluationResult)
    ensures r == LocalEvaluation(q, userAnswers)
  {
    var total := match q.gaps case Some(g) => |g| case None => 1;
    var keysToCheck := CheckedKeys(q);
    var correctCount, details := GradeKeys(keysToCheck, userAnswers, q.answerKey);
    assert total == |keysToCheck|;
    var score := RoundPercent(correctCount, total);
    var feedback := InitialFeedback;
    if score == 100 {
      feedback := ExcellentFeedback;
    } else if score >= 80 {
      feedback := VeryGoodFeedback;
    } else if score >= 50 {
      feedback := GoodAttemptFeedback;
    } else {
      feedback := StudyFeedback;
    }
    r := EvaluationResult(score, feedback, details);
  }

  /** The grading loop of evaluateLocally: one detail per key, and the number of correct keys. */
  method GradeKeys(keysToCheck: seq<string>, userAnswers: map<string, string>, key: map<string, string>)
    returns (correctCount: nat, details: map<string, GapEvaluation>)
    ensures correctCount == CountCorrect(keysToCheck, userAnswers, key)
    ensures details == map id | id in keysToCheck :: Verdict(id, userAnswers, key)
  {
    details := map[];
    correctCount := 0;
    for i := 0 to |keysToCheck|
      invariant correctCount == CountCorrect(keysToCheck[..i], userAnswers, key)
      invariant details == map id | id in keysToCheck[..i] :: Verdict(id, userAnswers, key)
    {
      var id := keysToCheck[i];
      var rule := if Lookup(key, RuleKey(id)) != "" then Lookup(key, RuleKey(id)) else DefaultRule;
      var isCorrect := AnswersMatch(Lookup(userAnswers, id), Lookup(key, id));
      if isCorrect {
        correctCount := correctCount + 1;
      }
      details := details[id := GapEvaluation(if Lookup(key, id) != "" then Lookup(key, id) else "N/A", isCorrect, "Rule: " + rule)];
      PrefixExtend(keysToCheck, i);
      CountCorrectAppend(keysToCheck[..i], id, userAnswers, key);
      DetailsAppend(keysToCheck[..i], id, userAnswers, key);
    }
    assert keysToCheck[..|keysToCheck|] == keysToCheck;
  }

  lemma PrefixExtend<T>(s: seq<T>, i: nat)
    requires i < |s|
    ensures s[..i + 1] == s[..i] + [s[i]]
  {
  }

  lemma DetailsAppend(keys: seq<string>, id: string, answers: map<string, string>, key: map<string, string>)
    ensures (map k | k in keys :: Verdict(k, answers, key))[id := Verdict(id, answers, key)]
         == map k | k in keys + [id] :: Verdict(k, answers, key)
  {
  }

  /** evaluateWithAI: the model's verdict as parsed, or the fixed error result when anything failed. */
  function EvaluateWithAI(reply: Option<EvaluationResult>): EvaluationResult {
    match reply
    case Some(result) => result
    case None => EvaluationResult(0, ErrorFeedback, map[])
  }

  /** The topics whose answers are compared as strings. */
  predicate IsDeterministic(t: TopicId) {
    t in {Verbs, Articles, Preposition}
  }

  /** The dispatch condition of checkAnswer. */
  predicate RoutesLocally(q: PracticeQuestion) {
    IsDeterministic(q.topicId) && |q.answerKey| > 0
  }

  /** What checkAnswer returns, given the model's reply in case it is asked. */
  function Evaluate(q: PracticeQuestion, answers: map<string, string>, aiReply: Option<EvaluationResult>): EvaluationResult {
    if RoutesLocally(q) then LocalEvaluation(q, answers) else EvaluateWithAI(aiReply)
  }

  /**
   * checkAnswer: grade locally for verbs, articles and prepositions when an answer key is present;
   * otherwise ask the model, whose failure yields score 0, "Error checking answer." and no details.
   */
  method CheckAnswer(q: PracticeQuestion, userAnswers: map<string, string>, aiReply: Option<EvaluationResult>)
    returns (r: EvaluationResult)
    ensures r == Evaluate(q, userAnswers, aiReply)
    ensures q.topicId in {Verbs, Articles, Preposition} && |q.answerKey| > 0 ==> r == LocalEvaluation(q, userAnswers)
    ensures q.topicId in {Transformation, Completing, Narration, Voice} || |q.answerKey| == 0 ==>
      r == (if aiReply.Some? then aiReply.value else EvaluationResult(0, ErrorFeedback, map[]))
  {
    var isDeterministic := q.topicId in {Verbs, Articles, Preposition};
    if isDeterministic && |q.answerKey| > 0 {
      r := EvaluateLocally(q, userAnswers);
      return;
    }
    r := EvaluateWithAI(aiReply);
  }

  /** The feedback bands: never the initial "Keep practicing!", and each band covers its score range. */
  lemma FeedbackBands(score: int)
    requires 0 <= score <= 100
    ensures Feedback(score) != InitialFeedback
    ensures Feedback(score) == ExcellentFeedback <==> score == 100
    ensures Feedback(score) == VeryGoodFeedback <==> 80 <= score < 100
    ensures Feedback(score) == GoodAttemptFeedback <==> 50 <= score < 80
    ensures Feedback(score) == StudyFeedback <==> score < 50
  {
  }

  /** The graded keys are exactly the stringified gaps, or "main" alone when there are none. */
  lemma CheckedKeysSet(q: PracticeQuestion)
    ensures q.gaps.Some? ==> (set id | id in CheckedKeys(q)) == (set g | g in q.gaps.value :: IntToString(g))
    ensures q.gaps.None? ==> (set id | id in CheckedKeys(q)) == {"main"}
  {
    if q.gaps.Some? {
      var g := q.gaps.value;
      var keys := CheckedKeys(q);
      forall id | id in keys ensures id in (set x | x in g :: IntToString(x)) {
        var i :| 0 <= i < |keys| && keys[i] == id;
        assert g[i] in g;
      }
      forall x | x in g ensures IntToString(x) in keys {
        var i :| 0 <= i < |g| && g[i] == x;
        assert keys[i] == IntToString(x);
      }
    }
  }

  /**
   * The details of a local evaluation: one entry per graded key and no other, each saying whether
   * the normalised answers agree, the raw expected answer or "N/A", and "Rule: " before the rule or
   * the default rule.
   */
  lemma LocalDetails(q: PracticeQuestion, answers: map<string, string>)
    ensures var d := LocalEvaluation(q, answers).details;
      && d.Keys == (set id | id in CheckedKeys(q))
      && forall id :: id in d ==>
        && (d[id].isCorrect <==> AnswersMatch(Lookup(answers, id), Lookup(q.answerKey, id)))
        && d[id].correctAnswer == (if id in q.answerKey && q.answerKey[id] != "" then q.answerKey[id] else "N/A")
        && d[id].explanation == "Rule: " + RuleFor(q.answerKey, id)
  {
  }

  lemma {:induction false} CountCorrectAppend(keys: seq<string>, id: string, answers: map<string, string>, key: map<string, string>)
    ensures CountCorrect(keys + [id], answers, key)
      == CountCorrect(keys, answers, key) + (if Verdict(id, answers, key).isCorrect then 1 else 0)
  {
    assert (keys + [id])[..|keys|] == keys;
  }

  /** When every graded key is right the count is the number of keys; when none is, it is zero. */
  lemma {:induction false} CountCorrectExtremes(keys: seq<string>, answers: map<string, string>, key: map<string, string>)
    ensures (forall i :: 0 <= i < |keys| ==> Verdict(keys[i], answers, key).isCorrect)
      ==> CountCorrect(keys, answers, key) == |keys|
    ensures (forall i :: 0 <= i < |keys| ==> !Verdict(keys[i], answers, key).isCorrect)
      ==> CountCorrect(keys, answers, key) == 0
  {
    if keys != [] {
      var init := keys[..|keys| - 1];
      CountCorrectExtremes(init, answers, key);
      assert forall i :: 0 <= i < |init| ==> init[i] == keys[i];
    }
  }

  /** The score is the rounded percentage of correct keys over the number of gaps (1 without gaps). */
  lemma LocalScore(q: PracticeQuestion, answers: map<string, string>)
    ensures var c := CountCorrect(CheckedKeys(q), answers, q.answerKey);
      var total := if q.gaps.Some? then |q.gaps.value| else 1;
      var score := LocalEvaluation(q, answers).overallScore;
      && c <= total
      && 0 <= score <= 100
      && (total > 0 ==> 2 * total * score <= 200 * c + total < 2 * total * (score + 1))
      && LocalEvaluation(q, answers).overallFeedback == Feedback(score)
  {
    var keys := CheckedKeys(q);
    if |keys| > 0 {
      RoundPercentNearest(CountCorrect(keys, answers, q.answerKey), |keys|);
    }
  }

  /** "Excellent" is awarded exactly when at most one key in 200 is wrong. */
  lemma FullScoreThreshold(correct: nat, total: nat)
    requires correct <= total && total > 0
    ensures RoundPercent(correct, total) == 100 <==> 200 * (total - correct) <= total
  {
    var s := RoundPercent(correct, total);
    RoundPercentNearest(correct, total);
    if s == 100 {
      assert 2 * total * s == 200 * total;
    } else {
      MulMonotone(2 * total, s + 1, 100);
      assert 200 * correct + total < 200 * total;
    }
  }

  /** A submission with every key right scores 100 with the top feedback. */
  lemma AllCorrectIsExcellent(q: PracticeQuestion, answers: map<string, string>)
    requires |CheckedKeys(q)| > 0
    requires forall id :: id in CheckedKeys(q) ==> AnswersMatch(Lookup(answers, id), Lookup(q.answerKey, id))
    ensures LocalEvaluation(q, answers).overallScore == 100
    ensures LocalEvaluation(q, answers).overallFeedback == ExcellentFeedback
  {
    var keys := CheckedKeys(q);
    assert forall i :: 0 <= i < |keys| ==> keys[i] in keys;
    CountCorrectExtremes(keys, answers, q.answerKey);
    RoundPercentExtremes(|keys|);
  }

  /** A submission with every key wrong scores 0 with the lowest feedback. */
  lemma NoneCorrectIsZero(q: PracticeQuestion, answers: map<string, string>)
    requires forall id :: id in CheckedKeys(q) ==> !AnswersMatch(Lookup(answers, id), Lookup(q.answerKey, id))
    ensures LocalEvaluation(q, answers).overallScore == 0
    ensures LocalEvaluation(q, answers).overallFeedback == StudyFeedback
  {
    var keys := CheckedKeys(q);
    assert forall i :: 0 <= i < |keys| ==> keys[i] in keys;
    CountCorrectExtremes(keys, answers, q.answerKey);
    if |keys| > 0 {
      RoundPercentExtremes(|keys|);
    }
  }

  /**
   * Submitting nothing scores 0, as long as every expected answer holds a word character. A
   * missing or blank expected answer matches a blank submission: see BlankAnswerMatchesMissingKey.
   */
  lemma EmptySubmissionScoresZero(q: PracticeQuestion)
    requires forall id :: id in CheckedKeys(q) ==> WordKey(Lookup(q.answerKey, id)) != []
    ensures LocalEvaluation(q, map[]).overallScore == 0
    ensures LocalEvaluation(q, map[]).overallFeedback == StudyFeedback
    ensures forall id :: id in LocalEvaluation(q, map[]).details ==> !LocalEvaluation(q, map[]).details[id].isCorrect
  {
    forall id | id in CheckedKeys(q) ensures !AnswersMatch(Lookup(map[], id), Lookup(q.answerKey, id)) {
      BlankMatchesOnlyWordless("", Lookup(q.answerKey, id));
    }
    NoneCorrectIsZero(q, map[]);
  }

  /** A key missing from the answer key is graded against "", so a blank answer to it counts as correct. */
  lemma BlankAnswerMatchesMissingKey(q: PracticeQuestion, answers: map<string, string>, id: string)
    requires id in CheckedKeys(q) && id !in q.answerKey && AllWhitespace(Lookup(answers, id))
    ensures LocalEvaluation(q, answers).details[id].isCorrect
    ensures LocalEvaluation(q, answers).details[id].correctAnswer == "N/A"
  {
    BlankMatchesOnlyWordless(Lookup(answers, id), "");
    assert ToLowerCase("") == [];
  }

  lemma WordKeyOfLowerWord(s: string)
    requires forall i :: 0 <= i < |s| ==> 'a' <= s[i] <= 'z'
    ensures WordKey(s) == s
  {
    assert ToLowerCase(s) == s;
    RemoveNonWordKeepsWords(s);
  }

  /** The answer key and the answers of the example below. */
  const ExampleKey := map["1" := "go", "2" := "went", "3" := "gone"]
  const ExampleAnswers := map["1" := "go", "2" := "went", "3" := "wrong"]

  lemma ExampleLookups()
    ensures Lookup(ExampleAnswers, "1") == "go" && Lookup(ExampleKey, "1") == "go"
    ensures Lookup(ExampleAnswers, "2") == "went" && Lookup(ExampleKey, "2") == "went"
    ensures Lookup(ExampleAnswers, "3") == "wrong" && Lookup(ExampleKey, "3") == "gone"
  {
  }

  lemma ExampleVerdicts()
    ensures Verdict("1", ExampleAnswers, ExampleKey).isCorrect
    ensures Verdict("2", ExampleAnswers, ExampleKey).isCorrect
    ensures !Verdict("3", ExampleAnswers, ExampleKey).isCorrect
  {
    ExampleLookups();
    MatchIsEquivalence("go", "go", "go");
    MatchIsEquivalence("went", "went", "went");
    WrongIsNotGone();
  }

  lemma WrongIsNotGone()
    ensures !AnswersMatch("wrong", "gone")
  {
    MatchIffSameWords("wrong", "gone");
    WrongAndGoneDifferInWords();
  }

  lemma WrongAndGoneDifferInWords()
    ensures WordKey("wrong") != WordKey("gone")
  {
    WordKeyOfLowerWord("wrong");
    WordKeyOfLowerWord("gone");
    assert |"wrong"| != |"gone"|;
  }

  lemma ExampleCount()
    ensures CountCorrect(["1", "2", "3"], ExampleAnswers, ExampleKey) == 2
  {
    ExampleVerdicts();
    CountCorrectOfThree("1", "2", "3", ExampleAnswers, ExampleKey);
  }

  lemma CountCorrectOfThree(a: string, b: string, c: string, answers: map<string, string>, key: map<string, string>)
    ensures CountCorrect([a, b, c], answers, key)
      == (if Verdict(a, answers, key).isCorrect then 1 else 0)
       + (if Verdict(b, answers, key).isCorrect then 1 else 0)
       + (if Verdict(c, answers, key).isCorrect then 1 else 0)
  {
    CountCorrectAppend([], a, answers, key);
    CountCorrectAppend([a], b, answers, key);
    CountCorrectAppend([a, b], c, answers, key);
    assert [] + [a] == [a] && [a] + [b] == [a, b] && [a, b] + [c] == [a, b, c];
  }

  const ExampleQuestion := PracticeQuestion(Verbs, Passage, Medium, "", "", Some([1, 2, 3]), ExampleKey)

  lemma ExampleCheckedKeys()
    ensures CheckedKeys(ExampleQuestion) == ["1", "2", "3"]
  {
    assert IntToString(1) == "1" && IntToString(2) == "2" && IntToString(3) == "3";
  }

  /**
   * Gaps [1, 2, 3] with key go / went / gone, answered go / went / wrong: the score is
   * round(200 / 3) = 67 ("Good attempt").
   */
  lemma TwoOfThreeScore()
    ensures LocalEvaluation(ExampleQuestion, ExampleAnswers).overallScore == 67
    ensures LocalEvaluation(ExampleQuestion, ExampleAnswers).overallFeedback == GoodAttemptFeedback
  {
    ExampleCheckedKeys();
    ExampleCount();
    DivUnique(200 * 2 + 3, 2 * 3, 67);
  }

  /** In the same example, gaps 1 and 2 are marked right and gap 3 wrong, and no other key is reported. */
  lemma TwoOfThreeDetails()
    ensures var d := LocalEvaluation(ExampleQuestion, ExampleAnswers).details;
      && d.Keys == {"1", "2", "3"}
      && d["1"].isCorrect && d["2"].isCorrect && !d["3"].isCorrect
  {
    ExampleCheckedKeys();
    DetailsOfThree(ExampleQuestion, ExampleAnswers, "1", "2", "3");
    ExampleVerdicts();
  }

  lemma DetailsOfThree(q: PracticeQuestion, answers: map<string, string>, a: string, b: string, c: string)
    requires CheckedKeys(q) == [a, b, c]
    ensures LocalEvaluation(q, answers).details.Keys == {a, b, c}
    ensures LocalEvaluation(q, answers).details[a] == Verdict(a, answers, q.answerKey)
    ensures LocalEvaluation(q, answers).details[b] == Verdict(b, answers, q.answerKey)
    ensures LocalEvaluation(q, answers).details[c] == Verdict(c, answers, q.answerKey)
  {
  }

  /** The result of a call that may throw. */
  datatype Outcome<T> = Returned(value: T) | Threw(error: string)

  /**
   * evaluateLocally as written: line 125 reads `question.gaphs.length`, and `question.gaphs` is
   * undefined, so every question that has `gaps` (even an empty list) throws a TypeError.
   */
  function EvaluateLocallyAsWritten(q: PracticeQuestion, answers: map<string, string>): Outcome<EvaluationResult> {
    if q.gaps.Some? then Threw("TypeError: Cannot read properties of undefined (reading 'length')")
    else Returned(LocalEvaluation(q, answers))
  }

  /**
   * The typo makes local grading unreachable for gap questions: a verb passage with gaps [1] and a
   * key for gap 1 routes to the local evaluator, which throws instead of grading gap 1.
   */
  lemma GapsTypoThrows()
    ensures var q := PracticeQuestion(Verbs, Passage, Medium, "He [1] home.", "", Some([1]), map["1" := "went"]);
      && RoutesLocally(q)
      && EvaluateLocallyAsWritten(q, map["1" := "went"]).Threw?
      && LocalEvaluation(q, map["1" := "went"]).overallScore == 100
  {
    var q := PracticeQuestion(Verbs, Passage, Medium, "He [1] home.", "", Some([1]), map["1" := "went"]);
    assert CheckedKeys(q) == ["1"];
    MatchIsEquivalence("went", "went", "went");
    AllCorrectIsExcellent(q, map["1" := "went"]);
  }

  /** A JavaScript number as far as a score goes. */
  datatype JsNumber = Finite(n: int) | NaN

  /** `Math.round(correctCount / total * 100)` with the denominator read from `gaps`: 0 / 0 is NaN. */
  function RawScore(correct: nat, total: nat): JsNumber
    requires correct <= total
  {
    if total == 0 then NaN else Finite(RoundPercent(correct, total))
  }

  /**
   * A question whose `gaps` list is empty grades no key; the raw score is NaN, while the local
   * evaluator scores it 0 with the lowest feedback and no details.
   */
  lemma EmptyGapsScore(q: PracticeQuestion, answers: map<string, string>)
    requires q.gaps == Some([])
    ensures RawScore(CountCorrect(CheckedKeys(q), answers, q.answerKey), |CheckedKeys(q)|) == NaN
    ensures LocalEvaluation(q, answers) == EvaluationResult(0, StudyFeedback, map[])
  {
    assert CheckedKeys(q) == [];
  }
}
