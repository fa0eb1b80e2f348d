# HSC English practice: answer checking, question assembly and text layout

This project models the logic of an exam-practice app for Bangladeshi HSC English grammar. A language
model writes each question and, for some topics, grades it. The model in Dafny covers:

- **Evaluation** (`evaluation.dfy`). The local evaluator compares each gap's answer with the answer key
  after trimming, lower-casing and removing every non-word character (`normalizer.dfy`, built on the
  JavaScript string operations in `js_text.dfy`). It counts the correct gaps, rounds the exact
  percentage half up and picks one of four feedback bands. The local evaluator is modelled with the
  two defects listed under "## Findings" corrected. As written, every question with `gaps` makes it
  throw, so such a question is never graded locally. Also modelled: the fallback
  result used when model-based grading fails, and the `checkAnswer` dispatch between the two evaluators.
- **Generation** (`generation.dfy`). The model's `answers` list is flattened into an answer key, with
  each rule stored under `<id>_rule` and later duplicates overwriting earlier ones. The file also
  holds the question built around that key, the sentinel question returned on any failure, and the
  topic-by-mode table of request templates.
- **Practice screen** (`practice_view.dfy`, `practice_session.dfy`). The question text is cut at the
  `[n]` / `[n] (hint)` gap markers (`regex.dfy` models the split with a capturing group and the
  marker match). The view also derives which inputs are shown, what each input displays after
  grading, and the "Rule: " prefix removed from explanations. The screen's state is a class whose
  methods are the load, answer-change, submit and next handlers.
- **Learn page** (`learn_page.dfy`). The explanation text is split into lines. Each line becomes a
  spacer, an H4 or H3 heading, a bullet, a numbered item or a paragraph, with an indentation band. The
  text of each block is cut into plain and bold runs.

The replies of the language model are inputs. A parsed reply is `Some(...)`. `None` stands for every
failure: the network call, an empty reply, `JSON.parse`, or a missing `answers` list.

In these places the model follows the code:
- a blank answer to a gap with no answer-key entry counts as correct, because both sides read as "";
- there are eleven request templates (four topics with a passage and a sentence template, three
  topics with one template each), and the default branch of the template switch cannot be reached;
- `generateQuestion` always sets `answerKey`, so it is a plain map;
- a question whose `gaps` list is present but empty shows the single "main" input, and the local
  evaluator grades no key for it (only the model-based evaluator can grade it).

## Model

| member | source | states |
|---|---|---|
| JsText.TrimSpec | services/geminiService.ts:131-132 | `trim()` removes exactly the leading and trailing JavaScript whitespace: the result is a slice, the removed ends are whitespace, and the result does not begin or end with whitespace |
| JsText.TrimBlankIff | components/LearnPage.tsx:23-24 | `trim()` gives "" exactly when the input is all whitespace |
| JsText.LeadingWhitespaceSpec | components/LearnPage.tsx:35 | `line.match(/^\s*/)[0]` is the whole leading run of whitespace: all of it is whitespace, and it is followed by a non-whitespace character or the end of the line |
| JsText.TrimStartSpec | components/LearnPage.tsx:28 | removing leading `\s` leaves a suffix whose removed prefix is all whitespace and whose first character is not |
| JsText.RemoveNonWordChar | services/geminiService.ts:136 | on one character, `replace(/[^\w]/g, '')` keeps an ASCII word character and drops any other character |
| JsText.RemoveNonWordAppend | services/geminiService.ts:136 | the removal works character by character: the result for `a + b` is the result for `a` followed by the result for `b`; with RemoveNonWordChar this fixes the result as the word characters of the input, in order |
| JsText.RemoveNonWordKeepsWords | services/geminiService.ts:136 | a string made only of word characters is left unchanged |
| JsText.IntToStringInjective | services/geminiService.ts:128 | `String(n)` gives distinct strings for distinct gap numbers |
| Normalizer.MatchIffSameWords | services/geminiService.ts:131-137 | two answers match iff their lower-cased word characters are equal; the exact comparison never accepts a pair the stripped one rejects |
| Normalizer.MatchIsEquivalence | services/geminiService.ts:131-137 | matching is reflexive, symmetric and transitive |
| Normalizer.BlankMatchesOnlyWordless | services/geminiService.ts:131-137 | a blank answer matches exactly the expected answers without word characters |
| Normalizer.MatchIgnoresCaseAndStop | services/geminiService.ts:131-137 | "X." matches "x" |
| Normalizer.MatchIgnoresBrackets | services/geminiService.ts:131-137 | "(x)" matches "x" |
| Normalizer.DifferentWordsDoNotMatch | services/geminiService.ts:131-137 | "x" does not match "y" |
| Evaluation.CountCorrect | services/geminiService.ts:139 | the number of correct keys never exceeds the number of keys checked |
| Evaluation.RoundPercent | services/geminiService.ts:148 | the score lies in 0..100, and is 0 when there is nothing to grade |
| Evaluation.RoundPercentNearest | services/geminiService.ts:148 | the score is the integer nearest to 100 * correct / total, with halves rounded up |
| Evaluation.RoundPercentExtremes | services/geminiService.ts:148 | all correct rounds to 100 and none correct to 0 |
| Evaluation.FullScoreThreshold | services/geminiService.ts:148-151 | the score is 100 exactly when at most one key in 200 is wrong |
| Evaluation.FeedbackBands | services/geminiService.ts:150-154 | the bands are tested in order: 100, 80..99, 50..79, below 50; the initial "Keep practicing!" is never returned |
| Evaluation.GradeKeys | services/geminiService.ts:130-146 | the grading loop yields the count of correct keys and one detail per checked key, built from the normalised comparison, the raw key or "N/A", and the rule |
| Evaluation.EvaluateLocally | services/geminiService.ts:122-161 | evaluateLocally, with the line-125 typo corrected, returns the local evaluation: checked keys graded, score rounded, feedback banded |
| Evaluation.CheckedKeysSet | services/geminiService.ts:128 | the checked keys are the stringified gaps when `gaps` is present, else "main" alone |
| Evaluation.LocalDetails | services/geminiService.ts:128-146 | for the corrected evaluator, `details` has exactly one entry per checked key; each says whether the answers match, gives the raw expected answer or "N/A", and gives "Rule: " before the key's rule or the default rule |
| Evaluation.CountCorrectExtremes | services/geminiService.ts:139 | all keys right counts every key; none right counts zero |
| Evaluation.LocalScore | services/geminiService.ts:125-148 | for the corrected evaluator, the score is round(100 * correct / total) with total the number of gaps (1 without gaps), and correct <= total |
| Evaluation.AllCorrectIsExcellent | services/geminiService.ts:139-151 | for the corrected evaluator, every key right gives 100 and "Excellent! You mastered this rule." |
| Evaluation.NoneCorrectIsZero | services/geminiService.ts:139-154 | for the corrected evaluator, every key wrong gives 0 and "Study the rules and try again." |
| Evaluation.EmptySubmissionScoresZero | services/geminiService.ts:131-154 | for the corrected evaluator, an empty submission against word-bearing keys scores 0, with every detail marked wrong |
| Evaluation.BlankAnswerMatchesMissingKey | services/geminiService.ts:131-143 | for the corrected evaluator, a blank answer to a key missing from the answer key is marked correct, with "N/A" as its expected answer |
| Evaluation.TwoOfThreeScore | services/geminiService.ts:122-161 | for the corrected evaluator, two of three gaps right scores 67 with "Good attempt. Review the rules below." |
| Evaluation.TwoOfThreeDetails | services/geminiService.ts:128-146 | for the corrected evaluator, in that example the details are exactly gaps 1, 2 and 3, the first two right and the third wrong |
| Evaluation.CheckAnswer | services/geminiService.ts:108-120 | verbs, articles and prepositions with a non-empty answer key are graded locally, by evaluateLocally with the line-125 typo corrected; every other case gets the model's verdict, or score 0, "Error checking answer." and no details when that fails |
| Evaluation.GapsTypoThrows | services/geminiService.ts:125 | as written, the verbs question "He [1] home." with gaps [1], key {"1": "went"} and answer "went" is routed locally and throws, where the corrected evaluator scores it 100 |
| Evaluation.EmptyGapsScore | services/geminiService.ts:125-148 | with an empty `gaps` list the raw score is NaN; the corrected evaluator gives 0, the lowest feedback and no details |
| Generation.BuildAnswerKey | services/geminiService.ts:78-83 | the loop builds the left fold of the answers; the key's entries are exactly the ids and their rule entries |
| Generation.RuleKeyInjective | services/geminiService.ts:82 | distinct ids have distinct rule entries |
| Generation.RuleKeyDiffers | services/geminiService.ts:82 | a rule entry is never the id it belongs to |
| Generation.AnswerKeyDomain | services/geminiService.ts:78-83 | the key's entries are exactly the answers' ids and rule entries |
| Generation.AnswerKeyLastWrite | services/geminiService.ts:80-83 | an entry holds what the last answer writing it wrote: a later duplicate overwrites the value and the rule |
| Generation.AnswerKeyUnwritten | services/geminiService.ts:78-83 | an entry no answer writes is absent |
| Generation.AnswerKeyOfDistinctIds | services/geminiService.ts:80-83 | with distinct ids, each gap's entry holds its value and its rule entry holds its rule |
| Generation.DuplicateAnswerOverwrites | services/geminiService.ts:80-83 | two answers for gap 1: the second one's value and rule are kept |
| Generation.GenerateQuestion | services/geminiService.ts:41-106 | the question carries the caller's topic, mode and difficulty, the reply's text, instruction and gaps, and the flattened key; on failure it is the sentinel question |
| Generation.SentinelRoutesToAI | services/geminiService.ts:96-115 | the sentinel question, having an empty key, is always sent to the model-based evaluator |
| Generation.PromptAsksForTopic | services/geminiService.ts:241-277 | every template chosen asks for the topic it was chosen for |
| Generation.PromptModeDependence | services/geminiService.ts:241-277 | the template depends on the mode iff the topic offers a passage mode; completing, transformation and voice share one template |
| Generation.PromptTableIsOnto | services/geminiService.ts:241-277 | each of the eleven templates is chosen for some topic and mode |
| Regex.MarkerAtSpells | components/PracticeMode.tsx:156 | a marker match is `[`, a non-empty digit run and `]`, optionally followed by ` (`, a non-empty hint without `)`, and `)` |
| Regex.MarkerRoundTrip | components/PracticeMode.tsx:156 | matching a well-formed marker's text gives back its number and hint, and the match covers the whole text |
| Regex.MarkerAtSelfContained | components/PracticeMode.tsx:151 | a marker match reads no character after its end |
| Regex.MarkerAtPrefixStable | components/PracticeMode.tsx:151 | a marker still matches when text follows it |
| Regex.MarkerAtHintedPrefix | components/PracticeMode.tsx:151 | text after a hinted marker never changes its match |
| Regex.BoldAtSpells | components/LearnPage.tsx:7 | a bold match starts and ends with `**` |
| Regex.CloseEndFirst | components/LearnPage.tsx:7 | the lazy `.*?\*\*` stops at the first `**`: before it there is neither a `**` nor a line terminator |
| Regex.BoldAtLazy | components/LearnPage.tsx:7 | a bold match runs on one line from its opening `**` to the first `**` after it and no further, and a bold match exists whenever such a closing `**` exists |
| Regex.MatchLength | components/PracticeMode.tsx:151 | a match of either pattern is non-empty and lies inside the text |
| Regex.MatchPrefixStable | components/PracticeMode.tsx:151 | for both patterns, a match survives text appended after it |
| Regex.MatchSelfContained | components/PracticeMode.tsx:151 | for both patterns, cutting the text at the end of a match leaves the same match |
| Regex.NoMatchWithoutOpener | components/PracticeMode.tsx:151 | no match starts at a character other than `[` (markers) or `*` (bold spans) |
| Regex.SplitLossless | components/PracticeMode.tsx:151 | the parts of `split` with a capturing pattern concatenate back to the input |
| Regex.SplitMatchesInPlace | components/PracticeMode.tsx:151 | each whole match among the parts is the match the pattern finds at that part's own place in the text, so a hinted marker is never cut short before its hint |
| Regex.SplitLeftmost | components/PracticeMode.tsx:151 | every match is the leftmost one: no match starts anywhere inside a text part, reading on through the parts after it |
| Regex.SplitAlternates | components/PracticeMode.tsx:151 | the parts are odd in number and alternate: text with no match anywhere in it at even positions, a whole match at odd positions |
| Regex.SplitWithoutOpener | components/LearnPage.tsx:7 | text without the pattern's first character splits into itself alone |
| Regex.SplitAroundMatch | components/PracticeMode.tsx:151 | one match between two texts without the opener splits into exactly those three pieces |
| PracticeView.Tokens | components/PracticeMode.tsx:151-156 | one token per part of the split question text |
| PracticeView.TokensAlternate | components/PracticeMode.tsx:151-159 | tokens alternate text and gap inputs, starting and ending with text; every input has a non-empty digit id and a non-empty hint without `)` and stands for its marker |
| PracticeView.TokensLossless | components/PracticeMode.tsx:151 | putting each marker back in place of its input gives the question text back |
| PracticeView.RenderWholeMarker | components/PracticeMode.tsx:156-159 | a part that is exactly a marker renders as the input it spells |
| PracticeView.RenderPlainText | components/PracticeMode.tsx:156-208 | a part with no marker renders as its text |
| PracticeView.HintedMarkerExample | components/PracticeMode.tsx:151-193 | "He [1] (go) home." renders as text, the input for gap 1 with placeholder "go", and text |
| PracticeView.MainInputGrading | components/PracticeMode.tsx:150-224 | without `gaps` the single "main" input is the one key graded; with an empty `gaps` list it is shown but the local evaluator checks no key |
| PracticeView.StatusAfterLocalGrading | components/PracticeMode.tsx:160-201 | for the corrected evaluator, after local grading a graded input shows passed iff the answers match and otherwise the expected answer; an ungraded input stays pending |
| PracticeView.MainStatusAgrees | components/PracticeMode.tsx:226-237 | the main input agrees with a gap input when the result has a "main" entry; without one it shows missed where a gap input stays pending |
| PracticeView.EmptyGapsMainMissed | components/PracticeMode.tsx:150-237 | for the evaluator with both findings corrected, an empty-gaps question graded locally shows its single input as missed whatever was typed |
| PracticeView.StripRuleInverse | components/PracticeMode.tsx:310 | stripping "Rule: " undoes the prefix the local evaluator adds and leaves any other explanation alone |
| PracticeView.LocalExplanationShowsRule | components/PracticeMode.tsx:310 | the rule shown under a locally graded detail is the key's rule or the default rule |
| PracticeSession.Session.constructor | components/PracticeMode.tsx:13-23 | the screen starts with no mode, medium difficulty and nothing loaded |
| PracticeSession.Session.LoadQuestion | components/PracticeMode.tsx:34-49 | clears result, answers and highlight and holds the generated question (the sentinel on failure); loading ends either way |
| PracticeSession.Session.Start | components/PracticeMode.tsx:51-54 | from the setup screen (no mode chosen yet), records the mode and loads a question at the current difficulty |
| PracticeSession.Session.Next | components/PracticeMode.tsx:74-80 | with a mode chosen, loads another question in that mode; otherwise changes nothing |
| PracticeSession.Session.SetDifficulty | components/PracticeMode.tsx:93-104 | while no mode is chosen (the only screen with the difficulty buttons), sets the difficulty and nothing else |
| PracticeSession.Session.HandleAnswerChange | components/PracticeMode.tsx:56-58 | sets one answer and leaves every other key as it was |
| PracticeSession.Session.EditAnswer | components/PracticeMode.tsx:194 | once a result exists the inputs are read-only and typing changes nothing |
| PracticeSession.Session.Submit | components/PracticeMode.tsx:60-72 | without a question nothing happens; otherwise the result is what checkAnswer, with the line-125 typo corrected, returns for the question and the answers |
| LearnPage.SplitLines | components/LearnPage.tsx:18 | `split('\n')` yields at least one line |
| LearnPage.SplitLinesJoin | components/LearnPage.tsx:18 | joining the lines with newlines gives the text back |
| LearnPage.SplitLinesShape | components/LearnPage.tsx:18 | no line holds a newline, and there is one more line than there are newlines |
| LearnPage.OneBlockPerLine | components/LearnPage.tsx:18-22 | the output has exactly one block per newline-separated line, in order, each showing its text through formatInline |
| LearnPage.FormatInlineParts | components/LearnPage.tsx:7-13 | the split parts concatenate to the input; every bold span becomes bold with its stars removed; a plain part is shown unchanged |
| LearnPage.FormatInlineUnstarred | components/LearnPage.tsx:7-13 | text without stars is one plain run |
| LearnPage.FormatInlineAround | components/LearnPage.tsx:7-13 | one bold span between two star-free texts gives plain, bold, plain |
| LearnPage.FormatInlineExample | components/LearnPage.tsx:7-13 | "a **b** c" gives plain "a ", bold "b", plain " c" |
| LearnPage.SpacerIffBlank | components/LearnPage.tsx:23-24 | a line becomes a spacer exactly when it is blank |
| LearnPage.HeadingOrder | components/LearnPage.tsx:27-32 | a `####` line is always an H4 and never an H3; an H3 is a `###` line that is not `####` |
| LearnPage.HeadingTextUnpadded | components/LearnPage.tsx:28-31 | a heading's text has the marker and all the whitespace after it removed |
| LearnPage.BulletLine | components/LearnPage.tsx:39-43 | a trimmed line starting with "* " or "- " is a bullet showing the rest of the trimmed line, at the untrimmed line's indentation |
| LearnPage.ItemOrParagraph | components/LearnPage.tsx:49-63 | any other non-blank line is a numbered item showing the matched number and rest when it matches the item pattern, and a paragraph of the trimmed text otherwise |
| LearnPage.NumberedRoundTrip | components/LearnPage.tsx:49 | a digit run, a full stop, whitespace and a rest without line terminators are read back as that number and rest |
| LearnPage.NumberedMatchSpells | components/LearnPage.tsx:49 | a numbered match is a non-empty digit run, a full stop, non-empty whitespace, and a rest ending at the end of the line or at the first line terminator |
| LearnPage.IndentOfPadded | components/LearnPage.tsx:35-36 | the indentation band counts the untrimmed line's leading whitespace: more than 4 is deep, 1 to 4 shallow, 0 none |
| LearnPage.NumberedLine | components/LearnPage.tsx:49-54 | an unindented numbered line is an item carrying its number and rest |
| LearnPage.BulletExample | components/LearnPage.tsx:35-43 | "  * item" is a shallow bullet showing the plain run "item" |
| LearnPage.NumberedExample | components/LearnPage.tsx:49-54 | "12.  Use it" is item 12 showing the plain run "Use it" |

## Left out

- The language-model client, the network calls and `askGrammarQuestion` are not modelled. Each reply is an `Option` input instead.
- `JSON.parse`, the response schema and any fields other than those of `PracticeQuestion` that a reply may carry (`...data`) are not modelled. A reply is either a typed value or `None`.
- The prose of the request templates is not modelled. Templates are identified by name, and only which one is chosen is modelled. The default branch of the template switch cannot be reached with the seven topics.
- React rendering, CSS classes, `scrollIntoView`/`focus` and the blink timer of `handleDetailClick`, and the no-op `useEffect` are not modelled.
- Interleaving of overlapping asynchronous handlers is not modelled. Each handler runs to completion, so `loading` is false between handlers.
- `loadQuestion`'s `catch` branch and the RETRY button are not modelled. `generateQuestion` never throws, so `question` is never left empty after a load.
- PracticeSession.Session.LoadQuestion: requires that the mode is already chosen. Both callers (`handleStart` after `setMode`, and the handlers guarded by `if (mode)`) ensure this.
- Evaluation.LocalEvaluation: this member, and every member built on it (`EvaluateLocally`, `LocalDetails`, `LocalScore`, the score and detail examples, `StatusAfterLocalGrading`, `EmptyGapsMainMissed`), models evaluateLocally with the line-125 typo and the 0/0 score both corrected. As written, a question with `gaps` (an empty list included) is never graded locally: the evaluator throws, and the screen keeps its inputs pending and editable.
- PracticeSession.Session.Submit: the `catch` branch of handleSubmit is not modelled. It logs the error and leaves `result` unchanged. As written, line 125 of geminiService.ts makes every locally graded question with `gaps` take that branch (see Findings). The model submits through the corrected evaluator instead.
- JsText.IntToString: gap numbers are taken to be integers below 10^21. `String(n)` writes larger numbers in exponent form and writes fractions with a decimal point, and neither case is modelled.
- `toLowerCase` is modelled for ASCII letters only. Other characters are left unchanged.
- `Math.round` on floating point is modelled as exact integer rounding. Floating-point error is not modelled.
- The `hint` field a reply may carry is not modelled. The screen takes hints from the question text.
- App view switching, the button component, the rules page and the topic selector's rendering are not modelled. The selector's passage-mode table is `Types.AllowsPassageMode`.

## Findings

| source | as written | input that shows it | evidently intended | confidence | as-written member | corrected member |
|---|---|---|---|---|---|---|
| services/geminiService.ts:125 | `question.gaphs.length` reads an undefined property, so evaluateLocally throws a TypeError for every question that has `gaps`. handleSubmit swallows the error and no result is shown | a verbs question with gaps [1], answer key {"1": "went"}, answer "went" | total is the number of gaps (1 without gaps) | high, not executed | Evaluation.GapsTypoThrows | Evaluation.EvaluateLocally |
| services/geminiService.ts:125-148 | with the typo fixed, an empty `gaps` list gives `Math.round(0 / 0 * 100)`, which is NaN | gaps [] and a non-empty answer key, topic verbs | score 0 | medium, not executed | Evaluation.EmptyGapsScore | Evaluation.RoundPercent |
