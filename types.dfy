/** The value types shared by the question generator, the evaluators and the practice screen. */
module Types {

  datatype Option<+T> = None | Some(value: T)

  /** The seven grammar topics a learner can practise. */
  datatype TopicId = Verbs | Transformation | Completing | Narration | Voice | Preposition | Articles

  /** One sentence, or a passage with several gaps. */
  datatype PracticeModeType = Single | Passage

  /** Only changes the wording of the generation request. */
  datatype DifficultyLevel = Easy | Medium | Hard

  /**
   * A generated exercise. `gaps` is absent for single-answer questions; when present it lists the
   * gap numbers. `answerKey` maps a gap id (or "main") to the expected answer and `<id>_rule` to the
   * grammar rule behind it.
   */
  datatype PracticeQuestion = PracticeQuestion(
    topicId: TopicId,
    mode: PracticeModeType,
    difficulty: DifficultyLevel,
    questionText: string,
    instruction: string,
    gaps: Option<seq<int>>,
    answerKey: map<string, string>)

  /** The verdict for one gap. */
  datatype GapEvaluation = GapEvaluation(correctAnswer: string, isCorrect: bool, explanation: string)

  /** The verdict for a whole submission. */
  datatype EvaluationResult = EvaluationResult(
    overallScore: int,
    overallFeedback: string,
    details: map<string, GapEvaluation>)

  /** One `{id, value, rule}` triple of the model's `answers` list. */
  datatype Answer = Answer(id: string, value: string, rule: string)

  /** The fields of a well-formed generation reply (the JSON schema of the request). */
  datatype GeneratedData = GeneratedData(
    questionText: string,
    instruction: string,
    gaps: Option<seq<int>>,
    answers: seq<Answer>)

  /** Whether the topic selector offers the PASSAGE mode for a topic. */
  predicate AllowsPassageMode(t: TopicId) {
    t in {Verbs, Narration, Preposition, Articles}
  }
}
