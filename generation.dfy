/**
 * Question generation: the flattening of the model's `answers` list into an answer key, the
 * question assembled around it, the sentinel question returned on any failure, and the choice of
 * the topic- and mode-specific request template.
 */
module Generation {
  import opened Types
  import opened Evaluation

  /** The two entries one answer writes, the value first and then the rule. */
  function AddAnswer(key: map<string, string>, a: Answer): map<string, string> {
    key[a.id := a.value][RuleKey(a.id) := a.rule]
  }

  /** The answer key after processing `answers` in order; a later answer overwrites an earlier one. */
  function AnswerKeyOf(answers: seq<Answer>): map<string, string> {
    if answers == [] then map[]
    else AddAnswer(AnswerKeyOf(answers[..|answers| - 1]), answers[|answers| - 1])
  }

  /** Whether answer `a` writes entry `k`. */
  predicate Writes(a: Answer, k: string) {
    a.id == k || RuleKey(a.id) == k
  }

  /** generateQuestion's `forEach`: fills the answer key in place, one answer at a time. */
  method BuildAnswerKey(answers: seq<Answer>) returns (answerKey: map<string, string>)
    ensures answerKey == AnswerKeyOf(answers)
    ensures answerKey.Keys == (set a | a in answers :: a.id) + (set a | a in answers :: RuleKey(a.id))
  {
    answerKey := map[];
    for i := 0 to |answers|
      invariant answerKey == AnswerKeyOf(answers[..i])
    {
      var a := answers[i];
      answerKey := answerKey[a.id := a.value];
      answerKey := answerKey[RuleKey(a.id) := a.rule];
      PrefixExtend(answers, i);
      assert answers[..i + 1][..i] == answers[..i];
    }
    assert answers[..|answers|] == answers;
    AnswerKeyDomain(answers);
  }

  /** The rule entry of an id is never the id itself: it is five characters longer. */
  lemma RuleKeyDiffers(id: string)
    ensures RuleKey(id) != id && |RuleKey(id)| == |id| + 5
  {
  }

  /** Rule entries of distinct ids are distinct. */
  lemma RuleKeyInjective(a: string, b: string)
    ensures RuleKey(a) == RuleKey(b) <==> a == b
  {
    if RuleKey(a) == RuleKey(b) {
      assert a == RuleKey(a)[..|a|] && b == RuleKey(b)[..|b|];
    }
  }

  /** The key holds exactly the ids of the answers and their rule entries. */
  lemma {:induction false} AnswerKeyDomain(answers: seq<Answer>)
    ensures AnswerKeyOf(answers).Keys
         == (set a | a in answers :: a.id) + (set a | a in answers :: RuleKey(a.id))
  {
    if answers != [] {
      var init, last := answers[..|answers| - 1], answers[|answers| - 1];
      AnswerKeyDomain(init);
      assert answers == init + [last];
      assert forall a :: a in answers <==> a in init || a == last;
    }
  }

  /**
   * Later duplicates overwrite: if no answer after position `i` writes entry `k`, the entry holds
   * what answer `i` wrote there, its value when `k` is its id and its rule when `k` is its rule entry.
   */
  lemma {:induction false} AnswerKeyLastWrite(answers: seq<Answer>, i: nat, k: string)
    requires i < |answers|
    requires forall j :: i < j < |answers| ==> !Writes(answers[j], k)
    ensures answers[i].id == k ==> k in AnswerKeyOf(answers) && AnswerKeyOf(answers)[k] == answers[i].value
    ensures RuleKey(answers[i].id) == k ==> k in AnswerKeyOf(answers) && AnswerKeyOf(answers)[k] == answers[i].rule
  {
    var n := |answers|;
    var init := answers[..n - 1];
    RuleKeyDiffers(answers[i].id);
    if i < n - 1 {
      forall j | i < j < |init| ensures !Writes(init[j], k) {
        assert init[j] == answers[j];
      }
      AnswerKeyLastWrite(init, i, k);
      assert init[i] == answers[i];
      assert !Writes(answers[n - 1], k);
    }
  }

  /** An entry no answer writes is absent. */
  lemma AnswerKeyUnwritten(answers: seq<Answer>, k: string)
    requires forall j :: 0 <= j < |answers| ==> !Writes(answers[j], k)
    ensures k !in AnswerKeyOf(answers)
  {
    AnswerKeyDomain(answers);
    if k in AnswerKeyOf(answers) {
      var a :| a in answers && (a.id == k || RuleKey(a.id) == k);
    }
  }

  /** Two answers for gap 1: the second wins, for the value and for the rule. */
  lemma DuplicateAnswerOverwrites()
    ensures AnswerKeyOf([Answer("1", "went", "Past"), Answer("1", "gone", "Perfect")])
         == map["1" := "gone", "1_rule" := "Perfect"]
  {
    var s := [Answer("1", "went", "Past"), Answer("1", "gone", "Perfect")];
    assert s[..1] == [Answer("1", "went", "Past")];
    assert s[..1][..0] == [];
    assert RuleKey("1") == "1_rule";
  }

  /** The question returned when generation fails for any reason. */
  function Sentinel(topicId: TopicId, mode: PracticeModeType, difficulty: DifficultyLevel): PracticeQuestion {
    PracticeQuestion(topicId, mode, difficulty, "Error, Refresh!", "Error", Some([]), map[])
  }

  /**
   * What generateQuestion returns, given the parsed reply of the model (`None` when the request,
   * the reply text or its parsing failed): the reply's fields, the caller's topic, mode and
   * difficulty, and the flattened answer key.
   */
  function QuestionFrom(topicId: TopicId, mode: PracticeModeType, difficulty: DifficultyLevel,
                        reply: Option<GeneratedData>): PracticeQuestion
  {
    match reply
    case None => Sentinel(topicId, mode, difficulty)
    case Some(data) =>
      PracticeQuestion(topicId, mode, difficulty, data.questionText, data.instruction, data.gaps,
                       AnswerKeyOf(data.answers))
  }

  /**
   * generateQuestion: builds the answer key from the reply and overrides the reply's topic, mode and
   * difficulty with the caller's; on failure returns the sentinel question.
   */
  method GenerateQuestion(topicId: TopicId, mode: PracticeModeType, difficulty: DifficultyLevel,
                          reply: Option<GeneratedData>) returns (q: PracticeQuestion)
    ensures q == QuestionFrom(topicId, mode, difficulty, reply)
    ensures q.topicId == topicId && q.mode == mode && q.difficulty == difficulty
    ensures reply.None? ==> q.questionText == "Error, Refresh!" && q.instruction == "Error"
                            && q.gaps == Some([]) && q.answerKey == map[]
    ensures reply.Some? ==> q.questionText == reply.value.questionText
                            && q.instruction == reply.value.instruction && q.gaps == reply.value.gaps
                            && q.answerKey.Keys == (set a | a in reply.value.answers :: a.id)
                                                 + (set a | a in reply.value.answers :: RuleKey(a.id))
  {
    if reply.None? {
      return Sentinel(topicId, mode, difficulty);
    }
    var data := reply.value;
    var answerKey := BuildAnswerKey(data.answers);
    q := PracticeQuestion(topicId, mode, difficulty, data.questionText, data.instruction, data.gaps, answerKey);
  }

  /**
   * The sentinel question has an empty answer key, so it is always sent to the model-based
   * evaluator, whatever its topic.
   */
  lemma SentinelRoutesToAI(topicId: TopicId, mode: PracticeModeType, difficulty: DifficultyLevel,
                           answers: map<string, string>, aiReply: Option<EvaluationResult>)
    ensures !RoutesLocally(Sentinel(topicId, mode, difficulty))
    ensures Evaluate(Sentinel(topicId, mode, difficulty), answers, aiReply) == EvaluateWithAI(aiReply)
  {
  }

  /** A reply whose answers all carry distinct plain gap ids yields a key giving each gap its value and rule. */
  lemma AnswerKeyOfDistinctIds(answers: seq<Answer>, i: nat)
    requires i < |answers|
    requires forall j, l :: 0 <= j < l < |answers| ==> answers[j].id != answers[l].id
    requires forall j, l :: 0 <= j < |answers| && 0 <= l < |answers| ==> answers[j].id != RuleKey(answers[l].id)
    ensures answers[i].id in AnswerKeyOf(answers) && AnswerKeyOf(answers)[answers[i].id] == answers[i].value
    ensures RuleKey(answers[i].id) in AnswerKeyOf(answers)
         && AnswerKeyOf(answers)[RuleKey(answers[i].id)] == answers[i].rule
  {
    forall j | i < j < |answers| ensures !Writes(answers[j], answers[i].id) {
    }
    forall j | i < j < |answers| ensures !Writes(answers[j], RuleKey(answers[i].id)) {
      RuleKeyInjective(answers[j].id, answers[i].id);
    }
    AnswerKeyLastWrite(answers, i, answers[i].id);
    AnswerKeyLastWrite(answers, i, RuleKey(answers[i].id));
  }

  /** The request templates: one per topic and mode, shared by both modes for three topics. */
  datatype Template =
    | VerbsPassage | VerbsSentence
    | ArticlesPassage | ArticlesSentence
    | PrepositionPassage | PrepositionSentence
    | CompletingQuestion
    | TransformationQuestion
    | NarrationPassage | NarrationSentence
    | VoiceQuestion

  /** getPromptForTopicAndMode: which template the request for a topic and mode carries. */
  function PromptFor(topicId: TopicId, mode: PracticeModeType): Template {
    var isPassage := mode == Passage;
    match topicId
    case Verbs => if isPassage then VerbsPassage else VerbsSentence
    case Articles => if isPassage then ArticlesPassage else ArticlesSentence
    case Preposition => if isPassage then PrepositionPassage else PrepositionSentence
    case Completing => CompletingQuestion
    case Transformation => TransformationQuestion
    case Narration => if isPassage then NarrationPassage else NarrationSentence
    case Voice => VoiceQuestion
  }

  /** The topic a template asks for. */
  function TemplateTopic(t: Template): TopicId {
    match t
    case VerbsPassage | VerbsSentence => Verbs
    case ArticlesPassage | ArticlesSentence => Articles
    case PrepositionPassage | PrepositionSentence => Preposition
    case CompletingQuestion => Completing
    case TransformationQuestion => Transformation
    case NarrationPassage | NarrationSentence => Narration
    case VoiceQuestion => Voice
  }

  /** Every template asks for the topic it was chosen for. */
  lemma PromptAsksForTopic(topicId: TopicId, mode: PracticeModeType)
    ensures TemplateTopic(PromptFor(topicId, mode)) == topicId
  {
  }

  /**
   * The template depends on the mode exactly for the topics the selector offers a passage for;
   * completing, transformation and voice use one template for both modes.
   */
  lemma PromptModeDependence(topicId: TopicId)
    ensures PromptFor(topicId, Single) != PromptFor(topicId, Passage) <==> AllowsPassageMode(topicId)
    ensures PromptFor(topicId, Single) == PromptFor(topicId, Passage)
        <==> topicId in {Completing, Transformation, Voice}
  {
  }

  /** Every template is chosen for some topic and mode, so the table has eleven entries. */
  lemma PromptTableIsOnto(t: Template)
    ensures exists topicId, mode :: PromptFor(topicId, mode) == t
  {
    match t
    case VerbsPassage => assert PromptFor(Verbs, Passage) == t;
    case VerbsSentence => assert PromptFor(Verbs, Single) == t;
    case ArticlesPassage => assert PromptFor(Articles, Passage) == t;
    case ArticlesSentence => assert PromptFor(Articles, Single) == t;
    case PrepositionPassage => assert PromptFor(Preposition, Passage) == t;
    case PrepositionSentence => assert PromptFor(Preposition, Single) == t;
    case CompletingQuestion => assert PromptFor(Completing, Single) == t;
    case TransformationQuestion => assert PromptFor(Transformation, Single) == t;
    case NarrationPassage => assert PromptFor(Narration, Passage) == t;
    case NarrationSentence => assert PromptFor(Narration, Single) == t;
    case VoiceQuestion => assert PromptFor(Voice, Single) == t;
  }
}
