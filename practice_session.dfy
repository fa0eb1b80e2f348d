/**
 * The state of the practice screen and the handlers that change it: loading a question, editing an
 * answer, submitting for grading and moving on. The model's replies, which the handlers await, are
 * parameters.
 */
module PracticeSession {
  import opened Types
  import opened Evaluation
  import opened Generation

  class Session {
    /** The topic the screen was opened for. */
    const topicId: TopicId
    /** The chosen mode; none until the learner starts. */
    var mode: Option<PracticeModeType>
    var difficulty: DifficultyLevel
    var question: Option<PracticeQuestion>
    var userAnswers: map<string, string>
    var result: Option<EvaluationResult>
    var loading: bool
    var blinkingId: Option<string>

    /**
     * Between handlers: a result is only ever held for a question, the question is for this
     * screen's topic and the chosen mode, and nothing is loading.
     */
    predicate Valid()
      reads this
    {
      && (result.Some? ==> question.Some?)
      && (question.Some? ==> mode.Some? && question.value.topicId == topicId && question.value.mode == mode.value)
      && !loading
    }

    /** Every answer input is read-only once a result is shown. */
    predicate ReadOnly()
      reads this
    {
      result.Some?
    }

    /** The screen as first shown: no mode, medium difficulty, nothing loaded. */
    constructor(topicId: TopicId)
      ensures Valid()
      ensures this.topicId == topicId && mode == None && difficulty == Medium
      ensures question == None && userAnswers == map[] && result == None && blinkingId == None
    {
      this.topicId := topicId;
      mode := None;
      difficulty := Medium;
      question := None;
      userAnswers := map[];
      result := None;
      loading := false;
      blinkingId := None;
    }

    /**
     * loadQuestion: clears the result, the answers, the question and the highlighted input, then
     * holds the generated question (the sentinel question when generation failed). Loading ends
     * either way; generation itself never throws. Every caller passes the mode already chosen.
     */
    method LoadQuestion(selectedMode: PracticeModeType, selectedDiff: DifficultyLevel, reply: Option<GeneratedData>)
      requires mode == Some(selectedMode)
      modifies this
      ensures Valid()
      ensures question == Some(QuestionFrom(topicId, selectedMode, selectedDiff, reply))
      ensures result == None && userAnswers == map[] && blinkingId == None
      ensures mode == old(mode) && difficulty == old(difficulty)
    {
      loading := true;
      result := None;
      userAnswers := map[];
      question := None;
      blinkingId := None;
      var q := GenerateQuestion(topicId, selectedMode, selectedDiff, reply);
      question := Some(q);
      loading := false;
    }

    /** handleStart, whose buttons exist only while no mode is chosen: records the mode and loads a question. */
    method Start(m: PracticeModeType, reply: Option<GeneratedData>)
      requires Valid() && mode.None?
      modifies this
      ensures Valid()
      ensures mode == Some(m) && difficulty == old(difficulty)
      ensures question == Some(QuestionFrom(topicId, m, difficulty, reply))
      ensures result == None && userAnswers == map[] && blinkingId == None
    {
      mode := Some(m);
      LoadQuestion(m, difficulty, reply);
    }

    /** handleNext and handleSkip: load another question in the same mode, when a mode is chosen. */
    method Next(reply: Option<GeneratedData>)
      requires Valid()
      modifies this
      ensures Valid()
      ensures mode == old(mode) && difficulty == old(difficulty)
      ensures old(mode).Some? ==> question == Some(QuestionFrom(topicId, old(mode).value, difficulty, reply))
                                  && result == None && userAnswers == map[] && blinkingId == None
      ensures old(mode).None? ==> question == old(question) && result == old(result)
                                  && userAnswers == old(userAnswers) && blinkingId == old(blinkingId)
    {
      if mode.Some? {
        LoadQuestion(mode.value, difficulty, reply);
      }
    }

    /** The difficulty buttons, shown only while no mode is chosen. */
    method SetDifficulty(d: DifficultyLevel)
      requires Valid() && mode.None?
      modifies this
      ensures Valid()
      ensures difficulty == d
      ensures mode == old(mode) && question == old(question) && userAnswers == old(userAnswers)
      ensures result == old(result) && blinkingId == old(blinkingId)
    {
      difficulty := d;
    }

    /** handleAnswerChange: sets one answer and leaves every other key as it was. */
    method HandleAnswerChange(key: string, val: string)
      requires Valid()
      modifies this
      ensures Valid()
      ensures userAnswers == old(userAnswers)[key := val]
      ensures key in userAnswers && userAnswers[key] == val
      ensures forall k :: k != key ==> (k in userAnswers <==> k in old(userAnswers))
      ensures forall k :: k != key && k in userAnswers ==> userAnswers[k] == old(userAnswers)[k]
      ensures mode == old(mode) && difficulty == old(difficulty) && question == old(question)
      ensures result == old(result) && blinkingId == old(blinkingId)
    {
      userAnswers := userAnswers[key := val];
    }

    /** Typing into an input: a read-only input ignores it, an editable one records it. */
    method EditAnswer(key: string, val: string)
      requires Valid()
      modifies this
      ensures Valid()
      ensures old(ReadOnly()) ==> userAnswers == old(userAnswers)
      ensures !old(ReadOnly()) ==> userAnswers == old(userAnswers)[key := val]
      ensures mode == old(mode) && difficulty == old(difficulty) && question == old(question)
      ensures result == old(result) && blinkingId == old(blinkingId)
    {
      if !ReadOnly() {
        HandleAnswerChange(key, val);
      }
    }

    /**
     * handleSubmit: without a question nothing happens; otherwise the result becomes what
     * checkAnswer returns for the question and the current answers, and loading ends.
     */
    method Submit(aiReply: Option<EvaluationResult>)
      requires Valid()
      modifies this
      ensures Valid()
      ensures old(question).None? ==> result == old(result)
      ensures old(question).Some? ==> result == Some(Evaluate(old(question).value, old(userAnswers), aiReply))
      ensures mode == old(mode) && difficulty == old(difficulty) && question == old(question)
      ensures userAnswers == old(userAnswers) && blinkingId == old(blinkingId)
    {
      if question.None? {
        return;
      }
      loading := true;
      var res := CheckAnswer(question.value, userAnswers, aiReply);
      result := Some(res);
      loading := false;
    }
  }
}
