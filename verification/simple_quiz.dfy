/** The simpler `Quiz` component: single-answer questions only, one number
    per question in `selectedAnswers` (-1 meaning no answer yet). As in the
    threaded quiz, each handler is a function from state to state. */
module SimpleQuiz {
  import opened Wrappers
  import opened JsString
  import opened Counting

  datatype QuizQuestion = QuizQuestion(
    question: string,
    options: seq<string>,
    correctAnswer: int,
    explanation: Option<string>)

  /** The component state; `questions` and `requireName` are the props. */
  datatype State = State(
    questions: seq<QuizQuestion>,
    requireName: bool,
    userName: string,
    hasStarted: bool,
    current: int,
    selected: seq<int>,
    showResults: bool,
    showExplanation: bool)

  /** `Array(n).fill(-1)`. */
  function NoAnswers(n: nat): (r: seq<int>)
    ensures |r| == n && forall i :: 0 <= i < n ==> r[i] == -1
  {
    seq(n, i => -1)
  }

  /** The invariant of every reachable state: one answer per question and
      a current index that names a question (or is 0 when there are none). */
  ghost predicate Valid(s: State) {
    && |s.selected| == |s.questions|
    && 0 <= s.current
    && (s.current < |s.questions| || s.current == 0)
  }

  /** The first render. */
  function Init(questions: seq<QuizQuestion>, requireName: bool): (s: State)
    ensures Valid(s)
    ensures s.questions == questions && s.requireName == requireName
    ensures s.userName == "" && s.hasStarted == !requireName
    ensures s.current == 0 && !s.showResults && !s.showExplanation
    ensures |s.selected| == |questions| && forall i :: 0 <= i < |questions| ==> !IsAnswered(s, i)
  {
    State(questions, requireName, "", !requireName, 0, NoAnswers(|questions|), false, false)
  }

  /** `handleAnswerSelect`: nothing once the results are shown; otherwise
      the current entry becomes the option and no other entry changes. */
  function Select(s: State, opt: int): (r: State)
    requires Valid(s)
    ensures s.showResults || s.current >= |s.selected| ==> r == s
    ensures r.(selected := s.selected) == s
    ensures |r.selected| == |s.selected|
    ensures forall i :: 0 <= i < |s.selected| && i != s.current ==> r.selected[i] == s.selected[i]
    ensures !s.showResults && s.current < |s.selected| ==> r.selected[s.current] == opt
    ensures Valid(r)
  {
    if s.showResults || s.current >= |s.selected| then s
    else s.(selected := s.selected[s.current := opt])
  }

  predicate OnLastQuestion(s: State) {
    s.current >= |s.questions| - 1
  }

  /** `handleNext`: advance and hide the explanation, or on the last
      question show the results. */
  function Next(s: State): (r: State)
    ensures r.(current := s.current, showResults := s.showResults, showExplanation := s.showExplanation) == s
    ensures !OnLastQuestion(s) ==> r.current == s.current + 1 && !r.showExplanation && r.showResults == s.showResults
    ensures OnLastQuestion(s) ==> r.current == s.current && r.showResults && r.showExplanation == s.showExplanation
    ensures Valid(s) ==> Valid(r)
  {
    if s.current < |s.questions| - 1 then s.(current := s.current + 1, showExplanation := false)
    else s.(showResults := true)
  }

  /** `handlePrevious`: step back and hide the explanation; nothing at the
      first question. */
  function Previous(s: State): (r: State)
    ensures r.(current := s.current, showExplanation := s.showExplanation) == s
    ensures s.current > 0 ==> r.current == s.current - 1 && !r.showExplanation
    ensures s.current <= 0 ==> r == s
    ensures Valid(s) ==> Valid(r)
  {
    if s.current > 0 then s.(current := s.current - 1, showExplanation := false)
    else s
  }

  /** `handleReset`: back to the first question with no answers and both
      flags down; the name and the started flag are kept. */
  function Reset(s: State): (r: State)
    ensures Valid(r)
    ensures r.current == 0 && !r.showResults && !r.showExplanation
    ensures forall i :: 0 <= i < |r.questions| ==> !IsAnswered(r, i)
    ensures r.(current := s.current, selected := s.selected, showResults := s.showResults, showExplanation := s.showExplanation) == s
  {
    s.(current := 0, selected := NoAnswers(|s.questions|), showResults := false, showExplanation := false)
  }

  /** A reset is the first render apart from who is playing. */
  lemma ResetIsInit(s: State)
    ensures Reset(s) == Init(s.questions, s.requireName).(userName := s.userName, hasStarted := s.hasStarted)
  {
  }

  /** Resetting twice is resetting once. */
  lemma ResetIdempotent(s: State)
    ensures Reset(Reset(s)) == Reset(s)
  {
  }

  /** The "Check Answer" button. */
  function RevealExplanation(s: State): (r: State)
    ensures r.showExplanation
    ensures r.(showExplanation := s.showExplanation) == s
  {
    s.(showExplanation := true)
  }

  /** The name field's `onChange`. */
  function SetUserName(s: State, name: string): (r: State)
    ensures r.userName == name
    ensures r.(userName := s.userName) == s
  {
    s.(userName := name)
  }

  /** `handleStartQuiz`: start once the typed name is not blank. */
  function Start(s: State): (r: State)
    ensures r.(hasStarted := s.hasStarted) == s
    ensures r.hasStarted <==> s.hasStarted || !IsBlank(s.userName)
  {
    TrimEmptyIffBlank(s.userName);
    if Trim(s.userName) != "" then s.(hasStarted := true) else s
  }

  /** `isAnswered` for question `i`: the entry is no longer the -1 the quiz
      starts with. */
  predicate IsAnswered(s: State, i: int): (b: bool)
    requires 0 <= i < |s.selected|
    ensures b <==> s.selected[i] != NoAnswers(|s.selected|)[i]
  {
    s.selected[i] != -1
  }

  /** `isCorrect` for question `i`: the entry is the question's key. */
  predicate IsCorrect(s: State, i: int): (b: bool)
    requires 0 <= i < |s.selected| && i < |s.questions|
    ensures b <==> s.selected[i] == s.questions[i].correctAnswer
  {
    s.selected[i] == s.questions[i].correctAnswer
  }

  /** A right answer is an answer when the key is not -1. */
  lemma CorrectImpliesAnswered(s: State, i: int)
    requires 0 <= i < |s.selected| && i < |s.questions|
    requires s.questions[i].correctAnswer != -1
    ensures IsCorrect(s, i) ==> IsAnswered(s, i)
  {
  }

  /** The right answers among the first `k` questions. */
  function CorrectAmongFirst(s: State, k: nat): (r: nat)
    requires k <= |s.selected| && k <= |s.questions|
    ensures r <= k
  {
    if k == 0 then 0
    else CorrectAmongFirst(s, k - 1) + (if IsCorrect(s, k - 1) then 1 else 0)
  }

  /** `calculateScore`: reduces over `selectedAnswers`, reading the question
      at each position. */
  function Score(s: State): (r: nat)
    requires |s.selected| <= |s.questions|
    ensures r <= |s.selected|
  {
    CorrectAmongFirst(s, |s.selected|)
  }

  /** The score counts exactly the questions answered right. */
  lemma {:induction false} ScoreCountsCorrect(s: State, k: nat)
    requires k <= |s.selected| && k <= |s.questions|
    ensures CorrectAmongFirst(s, k) ==
              |IndicesWhere(i => 0 <= i < |s.selected| && i < |s.questions| && IsCorrect(s, i), k)|
  {
    if k > 0 {
      ScoreCountsCorrect(s, k - 1);
      IndicesWhereStep(i => 0 <= i < |s.selected| && i < |s.questions| && IsCorrect(s, i), k);
    }
  }

  /** After a reset nothing scores, as long as no key is -1. */
  lemma {:induction false} ResetScoresZero(s: State, k: nat)
    requires forall i :: 0 <= i < |s.questions| ==> s.questions[i].correctAnswer != -1
    requires k <= |s.questions|
    ensures CorrectAmongFirst(Reset(s), k) == 0
  {
    if k > 0 {
      ResetScoresZero(s, k - 1);
    }
  }
}
