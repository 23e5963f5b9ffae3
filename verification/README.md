# Quiz logic of the AWS AI Practitioner prep site, in Dafny

This project models the pure logic behind the site's two quiz components and
the adapter that feeds them.

- **The quiz-format adapter** (`awsQuizToThreadedQuestions`). It turns
  loosely typed, 1-based authoring records into strict zero-based
  single-answer or multiple-answer questions. It skips and counts every
  record it cannot use, and never fails.
- **The `ThreadedQuiz` component** as a state machine. React state becomes
  one immutable `State` record. Each handler (select, next, previous,
  reset, start, name entry, "Check Answer") is a function from the state
  before to the state after. The derived values (answered, correct, score,
  categories, the category badge, percentage and feedback tier) are pure
  functions of that record. So are the string helpers of the review screen:
  option-prefix stripping, letter formatting and `toArraySelection`.
- **The simpler `Quiz` component** in the same style, for single-answer
  questions only.

Modules:

| file | module | contents |
|---|---|---|
| wrappers.dfy | `Wrappers` | `Option` |
| counting.dfy | `Counting` | the set of positions where a condition holds: the reference the running counts are checked against |
| js_string.dfy | `JsString` | `trim`/`trimStart`, `Number.parseInt(s, 10)`, `String(n)`, `String.fromCharCode` |
| js_array.dfy | `JsArray` | numeric `sort`, `[...new Set(xs)]` and its sorted form |
| questions.dfy | `Questions` | the strict question type and the adapter's output invariant `WellFormed` |
| aws_quiz_adapter.dfy | `AwsQuizAdapter` | the adapter |
| shuffle.dfy | `FisherYates` | `shuffleArray`, with the random draws as a parameter |
| threaded_quiz.dfy | `ThreadedQuiz` | run state, displayed questions, handlers, answered/correct |
| threaded_quiz_results.dfy | `ThreadedQuizResults` | score, categories, badge, percentage, feedback tiers |
| threaded_quiz_text.dfy | `ThreadedQuizText` | `stripLeadingOptionPrefix`, `formatIndicesAsLetters` |
| simple_quiz.dfy | `SimpleQuiz` | the `Quiz` component |

Things outside the program's control become parameters:

- **Randomness.** The draws of `Math.random` are a sequence `choices`, where
  `choices[i]` is the index drawn at loop position `i`. The shuffle results
  hold for every sequence with `0 <= choices[i] <= i`.
- **Reset effect.** The `useEffect` that resets a run whenever
  `displayedQuestions` changes is folded into the handler that changes it:
  the first render (`Init`) and `handleReset` (`Reset`).

Some notes on the model:

- **Percentage.** `Math.round((score / n) * 100)` is modelled as exact
  rational rounding, with halves rounded up. The `NaN` of `0 / 0` becomes
  `None`.
- **Perfect tier.** `PerfectTierCondition` shows that the "Perfect Score!"
  tier is earned whenever the rounded percentage is 100. That means at least
  199 of every 200 answers right, not every answer right. Below 200
  questions the two coincide (`PerfectTierSmallQuiz`). With 999 right out of
  1000 the tier is still "Perfect Score!" (`NearlyPerfectRoundsUp`).
- **Next on the last question.** Next and Previous hide the explanation on
  every step except Next on the last question: there the code only sets
  `showResults` and leaves `showExplanation` as it was. `Next`'s contract
  states both cases.
- **Negative limits.** A negative `maxQuestions` is truthy and less than the
  length, so `slice(0, m)` drops `|m|` questions from the end. `Truncate`
  states that case too.
- **Question pool.** In `ThreadedQuiz.State` the `questions` prop is the
  field `pool`, and `questions` is the displayed list.
- **Prop defaults.** `ThreadedQuiz` defaults to no shuffling, no limit, a
  required name and shown categories (`ThreadedQuiz.DefaultConfig`); `Quiz`
  defaults to no required name. Whether a run starts at once depends on
  `requireName`, which `Init` takes from its arguments.

## Model

| member | source | states |
|---|---|---|
| AwsQuizAdapter.CoerceSingleCorrectAnswerIndex | src/utils/awsQuizAdapter.ts:34-49 | an array never decodes as a single index; a finite number `n` decodes to `n - 1`; a string decodes exactly when `parseInt` reads a number, to that number minus one; `NaN`, the infinities and every other value do not decode |
| AwsQuizAdapter.CoerceIndexCases | src/utils/awsQuizAdapter.ts:37-46 | the per-element decoding shared by both coercions (lines 58-69 repeat it): a finite number `n` gives `n - 1`, a string what `parseInt` reads minus one or nothing, anything else nothing |
| AwsQuizAdapter.Decoded | src/utils/awsQuizAdapter.ts:56-71 | an index is in the decoded list exactly when some element of the array decodes to it; undecodable elements are dropped, so the list is never longer than the array |
| AwsQuizAdapter.CoerceMultipleCorrectAnswerIndices | src/utils/awsQuizAdapter.ts:51-77 | a non-array never decodes; the result is missing exactly when no element decodes; otherwise it is non-empty, strictly increasing, and holds exactly the decoded values |
| AwsQuizAdapter.ExplanationOf | src/utils/awsQuizAdapter.ts:92 | the result is truthy exactly when one of the three texts is; `explanation` wins when truthy, then `messageForCorrectAnswer`, and otherwise the result is `messageForIncorrectAnswer` |
| AwsQuizAdapter.SelectionTypeOf | src/utils/awsQuizAdapter.ts:94 | a truthy authored type is used as written; otherwise "multiple" exactly for an array answer and "single" exactly for a single value |
| AwsQuizAdapter.HasAnswers | src/utils/awsQuizAdapter.ts:87 | holds exactly for a present, non-empty `answers` array |
| AwsQuizAdapter.ConvertQuestion | src/utils/awsQuizAdapter.ts:86-142 | a record without a non-empty `answers` array is skipped; a kept question copies the text and options, carries the category and the fallback explanation, satisfies `WellFormed`, and is multiple-answer exactly when the selection type is "multiple" |
| AwsQuizAdapter.ConvertAll | src/utils/awsQuizAdapter.ts:83-145 | kept plus skipped equals the number of records; every kept question is well formed and carries the category |
| AwsQuizAdapter.AwsQuizToThreadedQuestions | src/utils/awsQuizAdapter.ts:79-146 | a missing `questions` list gives no questions and no skips; kept plus skipped equals the number of records; every kept question is well formed with the given category |
| AwsQuizAdapter.ConvertAllAppend | src/utils/awsQuizAdapter.ts:85-143 | converting a concatenation converts each part in turn: output order is input order and the skip counts add up |
| AwsQuizAdapter.ConvertAllSingle | src/utils/awsQuizAdapter.ts:85-143 | one record yields either the question `ConvertQuestion` keeps or exactly one skip |
| AwsQuizAdapter.ExplicitTypeMismatchSkips | src/utils/awsQuizAdapter.ts:94-125 | an explicit "single" with an array value, or an explicit "multiple" with a non-array value, is skipped |
| AwsQuizAdapter.ImplicitTypeFollowsShape | src/utils/awsQuizAdapter.ts:94 | without an explicit type, a kept question is multiple-answer exactly when `correctAnswer` is an array |
| AwsQuizAdapter.SingleAnswerDecoding | src/utils/awsQuizAdapter.ts:121-141 | a value that does not decode is skipped; a value decoding to `i` is kept exactly when `i` names an option, with key `i` |
| AwsQuizAdapter.MultipleAnswerDecoding | src/utils/awsQuizAdapter.ts:96-118 | the record is kept exactly when some element decodes and every decoded index names an option; the key then holds exactly the decoded indices |
| AwsQuizAdapter.StringDecodesAsParsed | src/utils/awsQuizAdapter.ts:42-46 | a string decodes to one less than what `parseInt` reads from it |
| AwsQuizAdapter.StringDecodesLikeNumber | src/utils/awsQuizAdapter.ts:37-46 | a numeral string, with or without trailing non-digit text ("2", "2abc"), decodes exactly like the number it spells |
| AwsQuizAdapter.SingleKept | src/utils/awsQuizAdapter.ts:121-141 | a single-answer record decoding to an option index is kept as exactly that question |
| AwsQuizAdapter.SingleOutOfRangeSkipped | src/utils/awsQuizAdapter.ts:127-130 | a single-answer record decoding below 0 or past the last option (as "0" does) is skipped |
| AwsQuizAdapter.ExampleOutOfRangeSkipped | src/utils/awsQuizAdapter.ts:127-130 | 5 with four options is skipped |
| AwsQuizAdapter.MultipleKept | src/utils/awsQuizAdapter.ts:103-118 | a multiple-answer record whose indices all name options is kept as exactly that question |
| AwsQuizAdapter.CollapseOneOneTwo | src/utils/awsQuizAdapter.ts:56-75 | `[1, 1, 2]` decodes to `[0, 1]` |
| AwsQuizAdapter.ExampleDuplicatesCollapse | src/utils/awsQuizAdapter.ts:73-118 | a record with `[1, 1, 2]` becomes a question keyed `[0, 1]` |
| AwsQuizAdapter.DecodeOneFour | src/utils/awsQuizAdapter.ts:56-75 | `[1, 4]` decodes to `[0, 3]` |
| AwsQuizAdapter.ExampleTwoOfFive | src/utils/awsQuizAdapter.ts:96-118 | a "multiple" record with `[1, 4]` over five options becomes a question keyed `[0, 3]` |
| JsString.TrimStart | src/components/ThreadedQuiz/index.tsx:27 | the result is a suffix, everything removed is white space, and it does not start with white space |
| JsString.TrimEnd | src/components/Quiz/index.tsx:59 | the result is a prefix, everything removed is white space, and it does not end with white space |
| JsString.Trim | src/components/Quiz/index.tsx:59 | the result is a slice of the string with only white space before and after it, and neither starts nor ends with white space |
| JsString.TrimEmptyIffBlank | src/components/Quiz/index.tsx:59 | `trim()` is empty exactly when the string is all white space |
| JsString.TrimStartBlankThenRest | src/components/ThreadedQuiz/index.tsx:27-30 | `trimStart` removes exactly a blank prefix in front of text that does not start with white space |
| JsString.DigitPrefixLength | src/utils/awsQuizAdapter.ts:43 | the length of the maximal leading run of digits |
| JsString.ParseIntOfDigitRun | src/utils/awsQuizAdapter.ts:43 | a digit run followed by a non-digit reads as the run's value |
| JsString.ParseIntNeedsDigit | src/utils/awsQuizAdapter.ts:43 | `parseInt` gives `NaN` for a string without a digit |
| JsString.ParseIntSkipsSpace | src/utils/awsQuizAdapter.ts:43 | leading white space does not change what `parseInt` reads |
| JsString.ParseIntRoundTrip | src/utils/awsQuizAdapter.ts:43 | `parseInt` of what `String(m)` prints, followed by any non-digit text, gives `m` back |
| JsString.ParseIntRoundTripNegative | src/utils/awsQuizAdapter.ts:43 | the same for a minus sign in front: "-1" reads as -1 |
| JsString.NegatedRead | src/utils/awsQuizAdapter.ts:43 | a minus sign in front of digits worth `v` reads as `-v` |
| JsString.DecimalValue | src/utils/awsQuizAdapter.ts:43 | the digits `String(m)` prints have the value `m` |
| JsString.ToUint16 | src/components/ThreadedQuiz/index.tsx:26 | the code unit `String.fromCharCode` keeps lies in 0..65535 and is the code itself when the code is in range |
| JsArray.Sort | src/components/ThreadedQuiz/index.tsx:46-48 | ascending, same length, and a permutation of the input |
| JsArray.SortedUnique | src/components/ThreadedQuiz/index.tsx:46-48 | two sorted sequences with the same multiset are equal |
| JsArray.SortIgnoresOrder | src/components/ThreadedQuiz/index.tsx:46-48 | two orderings of the same numbers sort to the same list |
| JsArray.SortedDistinct | src/utils/awsQuizAdapter.ts:75 | strictly increasing and holding exactly the input's values |
| JsArray.StrictlyIncreasingUnique | src/utils/awsQuizAdapter.ts:75 | a strictly increasing list is determined by its set of values |
| JsArray.SortedDistinctOfStrictlyIncreasing | src/utils/awsQuizAdapter.ts:75 | sorting the set of a strictly increasing list gives the list back |
| JsArray.FirstOccurrences | src/components/ThreadedQuiz/index.tsx:280 | without repeats and holding exactly the input's values |
| Questions.CategoryOf | src/components/ThreadedQuiz/index.tsx:284 | never empty; the question's own category when that is non-empty, and "General" when it is missing or empty |
| Questions.CorrectIndices | src/components/ThreadedQuiz/index.tsx:531 | the single key as a one-element list, or the multiple key's list; for a well-formed question it is non-empty and names only options |
| FisherYates.SwapAt | src/components/ThreadedQuiz/index.tsx:76 | the two positions trade places and nothing else moves |
| FisherYates.ShuffleArray | src/components/ThreadedQuiz/index.tsx:72-79 | the loop computes the functional shuffle, a permutation of the input of the same length |
| FisherYates.SwapIsStep | src/components/ThreadedQuiz/index.tsx:74-77 | one loop iteration is one step of the functional shuffle |
| FisherYates.ShufflePermutes | src/components/ThreadedQuiz/index.tsx:72-79 | whatever the draws, the shuffle is a permutation |
| FisherYates.IdentityDraws | src/components/ThreadedQuiz/index.tsx:72-79 | draws that always pick the current position keep the order |
| FisherYates.SwapPair | src/components/ThreadedQuiz/index.tsx:72-79 | drawing 0 on two elements swaps them |
| ThreadedQuiz.Truncate | src/components/ThreadedQuiz/index.tsx:104-106 | a prefix; no limit, 0 or a limit at least the length keeps all; a positive limit below the length keeps that many; a negative one drops that many from the end |
| ThreadedQuiz.Displayed | src/components/ThreadedQuiz/index.tsx:97-109 | as long as the limit allows (the length `Truncate` gives), every question from the pool; a prefix of the shuffled pool when shuffling and of the pool itself otherwise |
| ThreadedQuiz.DisplayedKeepsAllWithoutLimit | src/components/ThreadedQuiz/index.tsx:97-109 | without a limit the displayed list is a permutation of the pool, and the pool itself when not shuffled |
| ThreadedQuiz.InitialSelections | src/components/ThreadedQuiz/index.tsx:117-119 | one unanswered selection per question, of the question's kind |
| ThreadedQuiz.Restart | src/components/ThreadedQuiz/index.tsx:121-126 | first question, nothing answered, both flags down, name and started flag kept, reachable-state invariant holds |
| ThreadedQuiz.Init | src/components/ThreadedQuiz/index.tsx:93-126 | no name, started unless a name is required, displayed list shown from its first question with nothing answered |
| ThreadedQuiz.Reset | src/components/ThreadedQuiz/index.tsx:215-217 | the displayed list is recomputed from the pool with the new draws and shown from its first question with nothing answered and both flags down; the name and the started flag are kept; the invariant holds |
| ThreadedQuiz.ResetIsInit | src/components/ThreadedQuiz/index.tsx:215-217 | a reset is the first render apart from the name and the started flag |
| ThreadedQuiz.ResetIdempotent | src/components/ThreadedQuiz/index.tsx:215-217 | resetting twice with the same draws is resetting once |
| ThreadedQuiz.Without | src/components/ThreadedQuiz/index.tsx:175 | holds exactly the values of the list other than the deleted one |
| ThreadedQuiz.Toggle | src/components/ThreadedQuiz/index.tsx:173-180 | strictly increasing; the option is present exactly when it was absent, and every other value is kept |
| ThreadedQuiz.ToggleTwice | src/components/ThreadedQuiz/index.tsx:173-180 | toggling the same option twice restores a strictly increasing list |
| ThreadedQuiz.Select | src/components/ThreadedQuiz/index.tsx:161-185 | no change with results shown or no current question; otherwise only the current entry changes: overwritten for a single-answer question, toggled for a multiple-answer one |
| ThreadedQuiz.SelectPreservesValid | src/components/ThreadedQuiz/index.tsx:161-185 | selecting keeps the reachable-state invariant |
| ThreadedQuiz.SelectTwiceUndoes | src/components/ThreadedQuiz/index.tsx:168-180 | picking the same option twice on a multiple-answer question restores the state |
| ThreadedQuiz.Next | src/components/ThreadedQuiz/index.tsx:199-206 | advances and hides the explanation, or on the last question shows the results; nothing else changes; keeps the invariant |
| ThreadedQuiz.Previous | src/components/ThreadedQuiz/index.tsx:208-213 | steps back and hides the explanation, no change at the first question; keeps the invariant |
| ThreadedQuiz.PreviousUndoesNext | src/components/ThreadedQuiz/index.tsx:199-213 | Previous after Next returns to the same question with the explanation hidden |
| ThreadedQuiz.RevealExplanation | src/components/ThreadedQuiz/index.tsx:421 | shows the explanation and changes nothing else |
| ThreadedQuiz.SetUserName | src/components/ThreadedQuiz/index.tsx:333 | sets the name and changes nothing else |
| ThreadedQuiz.Start | src/components/ThreadedQuiz/index.tsx:219-224 | started afterwards exactly when already started or the name is not blank; nothing else changes |
| ThreadedQuiz.IsQuestionAnswered | src/components/ThreadedQuiz/index.tsx:130-140 | true exactly for an index with a question whose selection is a number other than -1 (single) or a non-empty list (multiple) |
| ThreadedQuiz.IsQuestionCorrect | src/components/ThreadedQuiz/index.tsx:142-159 | true exactly for an index with a question whose selection is the single key, or a list with the same set of values as the multiple key |
| ThreadedQuiz.MultipleCorrectIffSameSet | src/components/ThreadedQuiz/index.tsx:147-156 | the size-then-membership test is set equality, so a proper subset or superset is wrong |
| ThreadedQuiz.SingleCorrectIffKey | src/components/ThreadedQuiz/index.tsx:158 | a single-answer question is right exactly when the number is the key |
| ThreadedQuiz.CorrectImpliesAnswered | src/components/ThreadedQuiz/index.tsx:130-159 | for a well-formed question a right answer is an answer |
| ThreadedQuiz.CorrectIndicesAnswer | src/components/ThreadedQuiz/index.tsx:531 | the listed right options are a right answer, and a multiple-answer selection is right exactly when it has their set of values |
| ThreadedQuiz.ToArraySelection | src/components/ThreadedQuiz/index.tsx:53-57 | a missing entry or -1 gives the empty list |
| ThreadedQuiz.ArraySelectionNonEmptyIffAnswered | src/components/ThreadedQuiz/index.tsx:53-57 | the review list is non-empty exactly when the question counts as answered |
| ThreadedQuiz.ArraySelectionMembers | src/components/ThreadedQuiz/index.tsx:53-57 | the review list and the question screen's highlight agree on which options are selected |
| ThreadedQuizResults.Score | src/components/ThreadedQuiz/index.tsx:226-230 | between 0 and the number of displayed questions |
| ThreadedQuizResults.ScoreCountsCorrect | src/components/ThreadedQuiz/index.tsx:226-230 | the count is the number of positions whose question is answered right |
| ThreadedQuizResults.FullScoreIffAllCorrect | src/components/ThreadedQuiz/index.tsx:226-230 | a full score exactly when every question is right |
| ThreadedQuizResults.NothingCorrectScoresZero | src/components/ThreadedQuiz/index.tsx:226-230 | no right answers give a score of 0 |
| ThreadedQuizResults.InitScoresZero | src/components/ThreadedQuiz/index.tsx:117-126 | a fresh run over well-formed questions scores 0 |
| ThreadedQuizResults.CategoryNames | src/components/ThreadedQuiz/index.tsx:280 | the category name of every displayed question, in order |
| ThreadedQuizResults.Categories | src/components/ThreadedQuiz/index.tsx:279-281 | no repeats; empty when categories are hidden; otherwise exactly the names of the displayed questions |
| ThreadedQuizResults.InCategory | src/components/ThreadedQuiz/index.tsx:293-296 | only displayed questions of that category, and every displayed question of that category |
| ThreadedQuizResults.InCategorySingle | src/components/ThreadedQuiz/index.tsx:295 | one question is kept exactly when it is of the category |
| ThreadedQuizResults.InCategoryAppend | src/components/ThreadedQuiz/index.tsx:295 | filtering distributes over concatenation, so the kept questions stay in display order |
| ThreadedQuizResults.CountInCategoryCounts | src/components/ThreadedQuiz/index.tsx:298-307 | the running count equals the number of positions whose question is of the category |
| ThreadedQuizResults.InCategoryCounts | src/components/ThreadedQuiz/index.tsx:293-311 | the filtered list is as long as the running count over all questions |
| ThreadedQuizResults.CurrentCategory | src/components/ThreadedQuiz/index.tsx:283-285 | the current question's category when non-empty, otherwise "General" |
| ThreadedQuizResults.QuestionNumberInCategory | src/components/ThreadedQuiz/index.tsx:298-307 | the number of positions up to and including the current one whose question is of the current category; between 1 and the current position plus one |
| ThreadedQuizResults.TotalQuestionsInCategory | src/components/ThreadedQuiz/index.tsx:309-311 | the number of displayed positions whose question is of the current category |
| ThreadedQuizResults.QuestionNumberWithinTotal | src/components/ThreadedQuiz/index.tsx:298-311 | the badge "n of m" has 1 <= n <= m |
| ThreadedQuizResults.CategoryCorrect | src/components/ThreadedQuiz/index.tsx:496-500 | at most the category's size and at most the overall score |
| ThreadedQuizResults.CategoryCorrectCounts | src/components/ThreadedQuiz/index.tsx:496-500 | the count is the number of questions of the category answered right |
| ThreadedQuizResults.Percentage | src/components/ThreadedQuiz/index.tsx:237 | undefined exactly for no questions; otherwise the whole percentage nearest to score / n, halves up, and within 0..100 when the score is at most n |
| ThreadedQuizResults.FeedbackTier | src/components/ThreadedQuiz/index.tsx:240-276 | perfect exactly at 100; otherwise the best tier whose threshold (90, 80, 70, 60, else none) the percentage reaches; `NaN` gets the last tier |
| ThreadedQuizResults.TierMonotone | src/components/ThreadedQuiz/index.tsx:240-276 | up to 100, a higher percentage never earns a lower tier |
| ThreadedQuizResults.PerfectTierCondition | src/components/ThreadedQuiz/index.tsx:237-240 | "Perfect Score!" exactly when at least 199 of every 200 answers are right |
| ThreadedQuizResults.PerfectTierSmallQuiz | src/components/ThreadedQuiz/index.tsx:237-240 | below 200 questions, "Perfect Score!" exactly when every answer is right |
| ThreadedQuizResults.NearlyPerfectRoundsUp | src/components/ThreadedQuiz/index.tsx:237-240 | 999 right out of 1000 still earns "Perfect Score!" |
| ThreadedQuizResults.FeedbackName | src/components/ThreadedQuiz/index.tsx:238 | the typed name exactly when a name is required and non-empty, otherwise empty |
| ThreadedQuizText.ExpectedLetter | src/components/ThreadedQuiz/index.tsx:26 | the upper-case letter `String.fromCharCode(65 + index)` gives |
| ThreadedQuizText.PrefixEnd | src/components/ThreadedQuiz/index.tsx:28 | a match ends after at least two characters, at white space |
| ThreadedQuizText.PrefixEndIsRendered | src/components/ThreadedQuiz/index.tsx:28 | whatever the pattern matches is one of the prefix spellings of the option's own letter |
| ThreadedQuizText.StripLeadingOptionPrefix | src/components/ThreadedQuiz/index.tsx:25-33 | always a suffix of the option; the option untouched when its own prefix is absent; otherwise at least three characters shorter and not starting with white space |
| ThreadedQuizText.StripPrefixedOption | src/components/ThreadedQuiz/index.tsx:25-33 | white space, any of the "A." / "(A)" / "A)" / "(A." forms in either case, white space and a text give back the text |
| ThreadedQuizText.StripChangesOnlyPrefixed | src/components/ThreadedQuiz/index.tsx:25-33 | an option is changed only when, after its leading white space, it starts with a prefix spelling of its own letter and white space |
| ThreadedQuizText.WrongLetterKept | src/components/ThreadedQuiz/index.tsx:25-33 | "B. Amazon S3" as option A is kept whole |
| ThreadedQuizText.BareLetterKept | src/components/ThreadedQuiz/index.tsx:25-33 | "A Amazon S3" is kept whole |
| ThreadedQuizText.JoinLetters | src/components/ThreadedQuiz/index.tsx:50 | the letters sit at every third position, separated by ", " |
| ThreadedQuizText.FormatIndicesAsLetters | src/components/ThreadedQuiz/index.tsx:44-51 | the em dash for no indices; otherwise the letters of the ascending indices, duplicates kept, joined by ", " |
| ThreadedQuizText.FormatIgnoresOrder | src/components/ThreadedQuiz/index.tsx:44-51 | the letters do not depend on the order of the indices |
| ThreadedQuizText.FormatExample | src/components/ThreadedQuiz/index.tsx:44-51 | `[2, 0]` is shown as "A, C" |
| SimpleQuiz.NoAnswers | src/components/Quiz/index.tsx:22 | `n` entries, all -1 |
| SimpleQuiz.Init | src/components/Quiz/index.tsx:18-24 | one unanswered entry per question, at question 0, both flags down, started unless a name is required |
| SimpleQuiz.Select | src/components/Quiz/index.tsx:26-32 | no change once results are shown; otherwise only the current entry changes, to the option |
| SimpleQuiz.Next | src/components/Quiz/index.tsx:34-41 | advances and hides the explanation, or on the last question shows the results; keeps the invariant |
| SimpleQuiz.Previous | src/components/Quiz/index.tsx:43-48 | steps back and hides the explanation, no change at 0; keeps the invariant |
| SimpleQuiz.Reset | src/components/Quiz/index.tsx:50-55 | question 0, nothing answered, both flags down, name and started flag kept |
| SimpleQuiz.ResetIsInit | src/components/Quiz/index.tsx:50-55 | a reset is the first render apart from the name and the started flag |
| SimpleQuiz.ResetIdempotent | src/components/Quiz/index.tsx:50-55 | resetting twice is resetting once |
| SimpleQuiz.RevealExplanation | src/components/Quiz/index.tsx:139 | shows the explanation and changes nothing else |
| SimpleQuiz.SetUserName | src/components/Quiz/index.tsx:89 | sets the name and changes nothing else |
| SimpleQuiz.Start | src/components/Quiz/index.tsx:57-62 | started afterwards exactly when already started or the name is not blank |
| SimpleQuiz.IsAnswered | src/components/Quiz/index.tsx:72 | the entry differs from the -1 the quiz starts with |
| SimpleQuiz.IsCorrect | src/components/Quiz/index.tsx:73 | the entry equals the question's key |
| SimpleQuiz.CorrectImpliesAnswered | src/components/Quiz/index.tsx:72-73 | with a key other than -1, a right answer is an answer |
| SimpleQuiz.Score | src/components/Quiz/index.tsx:64-68 | between 0 and the number of entries |
| SimpleQuiz.ScoreCountsCorrect | src/components/Quiz/index.tsx:64-68 | the count is the number of entries equal to their question's key |
| SimpleQuiz.ResetScoresZero | src/components/Quiz/index.tsx:50-68 | after a reset nothing scores when no key is -1 |

## Left out

- Rendering: JSX, CSS classes, the Docusaurus `Link`, emoji, colours, message texts, the progress bar and the completion date are presentation only.
- The auto-advance timer and its switch: the `setTimeout` callback is asynchronous and reads a captured `currentQuestion`. `Select` models the handler without it.
- The `hideCheckAnswer` prop and the disabled states of the buttons only gate the UI. The handlers are modelled as if they can be called in every state. "Next" is disabled until the question is answered, and "Start" until the name is not blank.
- The first render before the reset effect runs, when `selectedAnswers` is still `[]`. `Init` is the state after the effect.
- `stripTrailingSelectInstruction`: a backtracking regular expression over the question text that the modelled logic never reads.
- `getSelectionHint`: a text built from the key's length.
- Numbers that are not integers: an authored `correctAnswer` is an integer (`Num`) or non-finite (`NonFiniteNum`). A value such as 1.5 would pass the range check in the source.
- `parseInt` of a numeral too long for a double (which gives `Infinity` and is rejected) is read as its exact value.
- `ThreadedQuizText.StripLeadingOptionPrefix` is modelled for option indices 0 to 25 only. From index 26 on, the character spliced into the regular expression is no longer an upper-case letter.
- `ThreadedQuizText.FormatIndicesAsLetters` requires that `65 + i` is not a UTF-16 surrogate code. A lone surrogate has no Dafny `char`. Every option index below 55231 satisfies this.
- `ThreadedQuizResults.CategoryCorrect` counts each question at its own position. The source finds it with `findIndex` by object identity, and the adapter creates one object per question. A list holding the same object twice would count its first position twice.
- `ThreadedQuizResults.Percentage` rounds the exact quotient. The source divides and multiplies in floating point first, so a value that lies exactly at a half may round differently.
- `SimpleQuiz.Select` requires the reachable-state invariant (one entry per question). With zero questions `Quiz` throws while rendering (src/components/Quiz/index.tsx:73 reads the missing current question), so no handler ever runs there; the model's `Select` leaves such a state unchanged, where JavaScript would write entry 0.
- Zero displayed questions in `ThreadedQuiz` (an empty pool, or a negative `maxQuestions` at least the pool's length): once started, rendering throws at src/components/ThreadedQuiz/index.tsx:362 and, with categories shown, at line 284. The model's handlers stay defined there and keep the invariant; the crash is not modelled.
- `JsArray.FirstOccurrences` states the set of values and the absence of repeats, not the order of first appearance.
- src/pages/quiz.tsx, src/data/quiz.5.domains.tsx and src/types/reactQuiz.ts are not part of this model: page glue, static content and type declarations.
