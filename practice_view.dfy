/**
 * What the practice screen derives from a question and a result: the question text cut into plain
 * text and gap inputs, the keys of the inputs shown, the state each input displays after grading,
 * and the rule text shown under each detail.
 */
module PracticeView {
  import opened Types
  import opened JsText
  import opened Regex
  import opened Normalizer
  import opened Evaluation

  /** A piece of the rendered question: plain text, or an input for gap `id` with an optional hint. */
  datatype Token = Text(text: string) | Gap(id: string, hint: Option<string>)

  /** `part.match(/\[(\d+)\](?: \(([^)]+)\))?/)`: the first marker in `t`, searching from `from` on. */
  function FindMarker(t: string, from: nat): (m: Option<MarkerMatch>)
    requires from <= |t|
    decreases |t| - from
  {
    if from == |t| then None
    else if MarkerAt(t[from..]).Some? then MarkerAt(t[from..])
    else FindMarker(t, from + 1)
  }

  /** How one split part is rendered: as an input when it holds a marker, else as text. */
  function RenderPart(part: string): Token {
    match FindMarker(part, 0)
    case Some(m) => Gap(m.id, m.hint)
    case None => Text(part)
  }

  /** The question text split on the capturing marker pattern, each part rendered. */
  function Tokens(questionText: string): (r: seq<Token>)
    ensures |r| == |Split(GapMarker, questionText)|
  {
    var parts := Split(GapMarker, questionText);
    seq(|parts|, i requires 0 <= i < |parts| => RenderPart(parts[i]))
  }

  /** The text a token stands for in the question. */
  function Source(t: Token): string {
    match t
    case Text(s) => s
    case Gap(id, hint) => MarkerText(id, hint)
  }

  function Unrender(tokens: seq<Token>): string {
    if tokens == [] then [] else Source(tokens[0]) + Unrender(tokens[1..])
  }

  /** `placeholder={hint || ''}`. */
  function Placeholder(t: Token): string
    requires t.Gap?
  {
    match t.hint
    case Some(h) => h
    case None => ""
  }

  /** A part with no marker anywhere is rendered as itself. */
  lemma {:induction false} FindMarkerNone(t: string, from: nat)
    requires from <= |t|
    requires forall k :: from <= k < |t| ==> MarkerAt(t[k..]).None?
    ensures FindMarker(t, from).None?
    decreases |t| - from
  {
    if from < |t| {
      FindMarkerNone(t, from + 1);
    }
  }

  /** A part that is exactly one marker is rendered as the input that marker spells. */
  lemma RenderWholeMarker(part: string)
    requires MatchLength(GapMarker, part) == Some(|part|)
    ensures RenderPart(part).Gap?
    ensures WellFormedMarker(RenderPart(part).id, RenderPart(part).hint)
    ensures MarkerText(RenderPart(part).id, RenderPart(part).hint) == part
  {
    assert part[0..] == part;
    MarkerAtSpells(part);
    assert part[..|part|] == part;
  }

  /** A part without a marker is rendered as text. */
  lemma RenderPlainText(part: string)
    requires NoMatchIn(GapMarker, part)
    ensures RenderPart(part) == Text(part)
  {
    forall k | 0 <= k < |part| ensures MarkerAt(part[k..]).None? {
      assert MatchLength(GapMarker, part[k..]).None?;
    }
    FindMarkerNone(part, 0);
  }

  /**
   * The rendered question alternates text and inputs, starting and ending with text; every input
   * has a well-formed number and hint and stands for the marker it replaced.
   */
  lemma TokensAlternate(questionText: string)
    ensures var tokens := Tokens(questionText);
      && |tokens| % 2 == 1
      && forall i :: 0 <= i < |tokens| ==>
        && (tokens[i].Gap? <==> i % 2 == 1)
        && (tokens[i].Gap? ==> WellFormedMarker(tokens[i].id, tokens[i].hint))
        && Source(tokens[i]) == Split(GapMarker, questionText)[i]
  {
    var parts := Split(GapMarker, questionText);
    SplitAlternates(GapMarker, questionText);
    forall i | 0 <= i < |parts|
      ensures (RenderPart(parts[i]).Gap? <==> i % 2 == 1)
      ensures RenderPart(parts[i]).Gap? ==> WellFormedMarker(RenderPart(parts[i]).id, RenderPart(parts[i]).hint)
      ensures Source(RenderPart(parts[i])) == parts[i]
    {
      if i % 2 == 1 {
        RenderWholeMarker(parts[i]);
      } else {
        RenderPlainText(parts[i]);
      }
    }
  }

  lemma {:induction false} UnrenderMatchesConcat(tokens: seq<Token>, parts: seq<string>)
    requires |tokens| == |parts|
    requires forall i :: 0 <= i < |tokens| ==> Source(tokens[i]) == parts[i]
    ensures Unrender(tokens) == Concat(parts)
  {
    if tokens != [] {
      UnrenderMatchesConcat(tokens[1..], parts[1..]);
    }
  }

  /** Rendering loses nothing: putting each marker back in place of its input gives the question text. */
  lemma TokensLossless(questionText: string)
    ensures Unrender(Tokens(questionText)) == questionText
  {
    TokensAlternate(questionText);
    UnrenderMatchesConcat(Tokens(questionText), Split(GapMarker, questionText));
    SplitLossless(GapMarker, questionText);
  }

  /** The ids of the gap inputs, in text order. */
  function GapIds(tokens: seq<Token>): seq<string> {
    if tokens == [] then []
    else (if tokens[0].Gap? then [tokens[0].id] else []) + GapIds(tokens[1..])
  }

  /**
   * The keys of the inputs the screen shows: the marker ids of the text when `gaps` is present and
   * non-empty, else the single input "main".
   */
  function InputKeys(q: PracticeQuestion): seq<string> {
    if q.gaps.Some? && |q.gaps.value| > 0 then GapIds(Tokens(q.questionText)) else ["main"]
  }

  /**
   * Without `gaps` the single "main" input is the one key graded. With an empty `gaps` list the
   * screen still shows the "main" input, but the local evaluator checks no key, so only the
   * model-based evaluator can grade that answer.
   */
  lemma MainInputGrading(q: PracticeQuestion)
    ensures q.gaps.None? ==> InputKeys(q) == CheckedKeys(q) == ["main"]
    ensures q.gaps == Some([]) ==> InputKeys(q) == ["main"] && CheckedKeys(q) == []
  {
  }

  /** What an input shows: nothing yet, passed, or missed with the expected answer beside it. */
  datatype InputStatus = Pending | Passed | Missed(correctAnswer: string)

  /** `result && result.details && result.details[id]`, then its `isCorrect`. */
  function StatusOf(result: Option<EvaluationResult>, id: string): InputStatus {
    if result.None? || id !in result.value.details then Pending
    else if result.value.details[id].isCorrect then Passed
    else Missed(result.value.details[id].correctAnswer)
  }

  /**
   * After a local grading, an input for a graded key shows passed exactly when the answers match
   * and otherwise the expected answer (or "N/A"); an input for a key that was not graded stays pending.
   */
  lemma StatusAfterLocalGrading(q: PracticeQuestion, answers: map<string, string>, id: string)
    ensures var s := StatusOf(Some(LocalEvaluation(q, answers)), id);
      && (id in CheckedKeys(q) ==>
            (s == Passed <==> AnswersMatch(Lookup(answers, id), Lookup(q.answerKey, id)))
            && (s != Passed ==> s == Missed(ExpectedFor(q.answerKey, id))))
      && (id !in CheckedKeys(q) ==> s == Pending)
  {
    LocalDetails(q, answers);
  }

  /**
   * The single "main" input: pending before a result; once a result exists it shows passed only
   * when the result's "main" entry is correct, and otherwise missed, with the entry's expected
   * answer or nothing when the entry is absent.
   */
  function MainStatus(result: Option<EvaluationResult>): InputStatus {
    if result.None? then Pending
    else if "main" in result.value.details && result.value.details["main"].isCorrect then Passed
    else Missed(if "main" in result.value.details then result.value.details["main"].correctAnswer else "")
  }

  /**
   * The main input agrees with a gap input keyed "main" whenever the result has a "main" entry; a
   * result without one shows the main input as missed, where a gap input would stay pending.
   */
  lemma MainStatusAgrees(result: Option<EvaluationResult>)
    ensures result.None? || "main" in result.value.details ==> MainStatus(result) == StatusOf(result, "main")
    ensures result.Some? && "main" !in result.value.details ==>
      MainStatus(result) == Missed("") && StatusOf(result, "main") == Pending
  {
  }

  /**
   * A question with an empty `gaps` list that is graded locally shows its single input as missed
   * whatever was typed: the local evaluator checks no key, so the result has no "main" entry.
   */
  lemma EmptyGapsMainMissed(q: PracticeQuestion, answers: map<string, string>)
    requires q.gaps == Some([])
    ensures InputKeys(q) == ["main"]
    ensures MainStatus(Some(LocalEvaluation(q, answers))) == Missed("")
  {
    LocalDetails(q, answers);
    MainInputGrading(q);
  }

  /** `explanation.replace(/^Rule: /, '')`. */
  function StripRulePrefix(explanation: string): (r: string)
    ensures |r| <= |explanation|
  {
    if StartsWith(explanation, "Rule: ") then explanation[6..] else explanation
  }

  /**
   * Stripping undoes the prefix the local evaluator adds and leaves any other explanation alone,
   * so the rule shown under a locally graded detail is the rule from the key, or the default rule.
   */
  lemma StripRuleInverse(rule: string, other: string)
    ensures StripRulePrefix("Rule: " + rule) == rule
    ensures !StartsWith(other, "Rule: ") ==> StripRulePrefix(other) == other
  {
    assert ("Rule: " + rule)[..6] == "Rule: ";
  }

  lemma LocalExplanationShowsRule(q: PracticeQuestion, answers: map<string, string>, id: string)
    requires id in LocalEvaluation(q, answers).details
    ensures StripRulePrefix(LocalEvaluation(q, answers).details[id].explanation) == RuleFor(q.answerKey, id)
  {
    LocalDetails(q, answers);
    StripRuleInverse(RuleFor(q.answerKey, id), "");
  }

  /** Text without `[` is rendered as itself. */
  lemma RenderUnbracketed(t: string)
    requires '[' !in t
    ensures RenderPart(t) == Text(t)
  {
    forall k | 0 <= k < |t| ensures MarkerAt(t[k..]).None? {
      assert t[k..][0] == t[k];
    }
    FindMarkerNone(t, 0);
  }

  /**
   * One marker between two texts without `[`: the question renders as the first text, the input
   * the marker spells, and the second text.
   */
  lemma TokensAroundMarker(a: string, m: string, b: string, id: string, hint: Option<string>)
    requires '[' !in a && '[' !in b
    requires MarkerAt(m + b) == Some(MarkerMatch(id, hint, |m|))
    ensures Tokens(a + m + b) == [Text(a), Gap(id, hint), Text(b)]
  {
    SplitAroundMatch(GapMarker, a, m, b);
    RenderUnbracketed(a);
    RenderUnbracketed(b);
    MarkerAtSelfContained(m + b);
    assert (m + b)[..|m|] == m;
    assert m[0..] == m;
  }

  /** "He [1] (go) home." renders as text, an input for gap 1 with placeholder "go", and text. */
  lemma HintedMarkerExample()
    ensures var tokens := Tokens("He [1] (go) home.");
      |tokens| == 3 && tokens[1] == Gap("1", Some("go")) && Placeholder(tokens[1]) == "go"
  {
    var m := MarkerText("1", Some("go"));
    assert m == "[1] (go)";
    MarkerRoundTrip("1", Some("go"));
    MarkerAtHintedPrefix(m, " home.");
    assert "He [1] (go) home." == "He " + m + " home.";
    TokensAroundMarker("He ", m, " home.", "1", Some("go"));
  }
}
