/** The threaded quiz's run state and its synchronous handlers. React state
    becomes one immutable record; each handler is a function from the state
    before to the state after, and a `useEffect` that resets the run is
    folded into the handler that triggers it. */
module ThreadedQuiz {
  import opened Wrappers
  import opened JsString
  import opened JsArray
  import opened Questions
  import opened FisherYates

  /** One entry of `selectedAnswers`: a number for a single-answer question
      (-1 meaning none yet), a list of option indices for a multiple-answer
      one. */
  datatype Selection = SingleChoice(index: int) | MultiChoice(indices: seq<int>)

  /** The props that shape a run. `maxQuestions == None` is `undefined`. */
  datatype Config = Config(
    randomize: bool,
    maxQuestions: Option<int>,
    requireName: bool,
    showCategories: bool)

  /** The props' defaults: no shuffling, no limit, a name asked for, and
      category badges shown. */
  const DefaultConfig := Config(false, None, true, true)

  /** The component state: `pool` is the `questions` prop, `questions` the
      displayed list (`displayedQuestions`), `current` is `currentQuestion`
      and `selections` is `selectedAnswers`. */
  datatype State = State(
    config: Config,
    pool: seq<Question>,
    questions: seq<Question>,
    userName: string,
    hasStarted: bool,
    current: int,
    selections: seq<Selection>,
    showResults: bool,
    showExplanation: bool)

  // ---------------------------------------------------------------------
  // The displayed questions

  /** `if (maxQuestions && maxQuestions < qs.length) qs = qs.slice(0, maxQuestions)`.
      A missing or zero limit, or one at least the length, keeps every
      question; a negative limit is a `slice` end counted from the back. */
  function Truncate(qs: seq<Question>, maxQuestions: Option<int>): (r: seq<Question>)
    ensures |r| <= |qs| && r == qs[..|r|]
    ensures maxQuestions.None? || maxQuestions.value == 0 || maxQuestions.value >= |qs| ==> r == qs
    ensures maxQuestions.Some? && 0 < maxQuestions.value < |qs| ==> |r| == maxQuestions.value
    ensures maxQuestions.Some? && maxQuestions.value < 0 ==>
              |r| == if |qs| + maxQuestions.value > 0 then |qs| + maxQuestions.value else 0
  {
    match maxQuestions
    case None => qs
    case Some(m) =>
      if m != 0 && m < |qs| then
        if m > 0 then qs[..m]
        else if |qs| + m > 0 then qs[..|qs| + m]
        else []
      else qs
  }

  /** The draws a run needs: one per question of the pool when shuffling. */
  ghost predicate DrawsFit(cfg: Config, pool: seq<Question>, choices: seq<int>) {
    cfg.randomize ==> ValidChoices(|pool|, choices)
  }

  /** `displayedQuestions`: the pool, shuffled when asked to, then cut to
      the limit. Every displayed question comes from the pool, and without
      shuffling the order is the pool's. */
  function Displayed(pool: seq<Question>, cfg: Config, choices: seq<int>): (r: seq<Question>)
    requires DrawsFit(cfg, pool, choices)
    ensures |r| <= |pool|
    ensures multiset(r) <= multiset(pool)
    ensures !cfg.randomize ==> r == pool[..|r|]
    ensures |r| == |Truncate(pool, cfg.maxQuestions)|
    ensures cfg.randomize ==> r == Shuffle(pool, choices)[..|r|]
  {
    var processed := if cfg.randomize then Shuffle(pool, choices) else pool;
    ShuffledIfAskedPermutes(pool, cfg, choices);
    var r := Truncate(processed, cfg.maxQuestions);
    PrefixSubMultiset(processed, |r|);
    r
  }

  /** Without a limit every question of the pool is displayed: shuffled, the
      list is a permutation of the pool, and otherwise it is the pool. */
  lemma DisplayedKeepsAllWithoutLimit(pool: seq<Question>, cfg: Config, choices: seq<int>)
    requires DrawsFit(cfg, pool, choices)
    requires cfg.maxQuestions.None?
    ensures multiset(Displayed(pool, cfg, choices)) == multiset(pool)
    ensures !cfg.randomize ==> Displayed(pool, cfg, choices) == pool
  {
    ShuffledIfAskedPermutes(pool, cfg, choices);
  }

  lemma ShuffledIfAskedPermutes(pool: seq<Question>, cfg: Config, choices: seq<int>)
    requires DrawsFit(cfg, pool, choices)
    ensures cfg.randomize ==> multiset(Shuffle(pool, choices)) == multiset(pool)
  {
    if cfg.randomize {
      ShufflePermutes(pool, choices, |pool| - 1);
    }
  }

  lemma PrefixSubMultiset(s: seq<Question>, k: nat)
    requires k <= |s|
    ensures multiset(s[..k]) <= multiset(s)
  {
    assert s == s[..k] + s[k..];
  }

  // ---------------------------------------------------------------------
  // Selections

  /** Whether a selection records an answer to `q`. */
  predicate SelectionAnswered(q: Question, sel: Selection) {
    match q.key
    case MultipleKey(_) => sel.MultiChoice? && |sel.indices| > 0
    case SingleKey(_) => sel.SingleChoice? && sel.index != -1
  }

  /** The set of values in a list, as `new Set(xs)` holds them. */
  function ValueSet(xs: seq<int>): set<int> {
    set x | x in xs
  }

  /** Whether a selection is the right answer to `q`, computed as the component
      does: for a multiple-answer question the two sets must have the same
      size and every correct index must be selected. */
  predicate SelectionCorrect(q: Question, sel: Selection) {
    match q.key
    case MultipleKey(cs) =>
      && sel.MultiChoice?
      && |ValueSet(sel.indices)| == |ValueSet(cs)|
      && forall c :: c in cs ==> c in sel.indices
    case SingleKey(c) => sel.SingleChoice? && sel.index == c
  }

  /** The shape a selection has in a reachable state: the kind of its
      question, and for a multiple-answer question the ascending list
      without repeats that toggling leaves behind. */
  ghost predicate Matches(q: Question, sel: Selection) {
    match q.key
    case MultipleKey(_) => sel.MultiChoice? && StrictlyIncreasing(sel.indices)
    case SingleKey(_) => sel.SingleChoice?
  }

  /** `createInitialSelectedAnswers`: one empty selection per question,
      `-1` for a single-answer question and `[]` for a multiple-answer one. */
  function InitialSelections(qs: seq<Question>): (r: seq<Selection>)
    ensures |r| == |qs|
    ensures forall i :: 0 <= i < |qs| ==> Matches(qs[i], r[i]) && !SelectionAnswered(qs[i], r[i])
  {
    seq(|qs|, i requires 0 <= i < |qs| =>
      if qs[i].key.MultipleKey? then MultiChoice([]) else SingleChoice(-1))
  }

  /** The invariant of every reachable state: one selection per displayed
      question, each of its question's kind, and a current index that names
      a question (or is 0 when there are none). */
  ghost predicate Valid(s: State) {
    && |s.selections| == |s.questions|
    && 0 <= s.current
    && (s.current < |s.questions| || s.current == 0)
    && forall i :: 0 <= i < |s.questions| ==> Matches(s.questions[i], s.selections[i])
  }

  // ---------------------------------------------------------------------
  // Starting and resetting a run

  /** The reset effect on `displayedQuestions`: back to the first question,
      nothing selected, results and explanation hidden. */
  function Restart(s: State, displayed: seq<Question>): (r: State)
    ensures Valid(r)
    ensures r.questions == displayed && r.current == 0 && !r.showResults && !r.showExplanation
    ensures forall i :: 0 <= i < |displayed| ==> !SelectionAnswered(displayed[i], r.selections[i])
    ensures r.config == s.config && r.pool == s.pool
    ensures r.userName == s.userName && r.hasStarted == s.hasStarted
  {
    s.(questions := displayed,
       current := 0,
       selections := InitialSelections(displayed),
       showResults := false,
       showExplanation := false)
  }

  /** The first render: no name yet, started unless a name is required, and
      the reset effect applied to the first `displayedQuestions`. */
  function Init(pool: seq<Question>, cfg: Config, choices: seq<int>): (s: State)
    requires DrawsFit(cfg, pool, choices)
    ensures Valid(s)
    ensures s.pool == pool && s.config == cfg && s.questions == Displayed(pool, cfg, choices)
    ensures s.userName == "" && s.hasStarted == !cfg.requireName
    ensures s.current == 0 && !s.showResults && !s.showExplanation
    ensures forall i :: 0 <= i < |s.questions| ==> !SelectionAnswered(s.questions[i], s.selections[i])
  {
    var blank := State(cfg, pool, [], "", !cfg.requireName, 0, [], false, false);
    Restart(blank, Displayed(pool, cfg, choices))
  }

  /** `handleReset`: bumping `shuffleKey` recomputes `displayedQuestions`
      (with fresh draws) and the reset effect runs on the new list. The name
      and the started flag survive. */
  function Reset(s: State, choices: seq<int>): (r: State)
    requires DrawsFit(s.config, s.pool, choices)
    ensures Valid(r)
    ensures r.questions == Displayed(s.pool, s.config, choices)
    ensures r.current == 0 && !r.showResults && !r.showExplanation
    ensures forall i :: 0 <= i < |r.questions| ==> !SelectionAnswered(r.questions[i], r.selections[i])
    ensures r.(questions := s.questions, current := s.current, selections := s.selections,
               showResults := s.showResults, showExplanation := s.showExplanation) == s
  {
    Restart(s, Displayed(s.pool, s.config, choices))
  }

  /** A reset is a fresh start that remembers who is playing. */
  lemma ResetIsInit(s: State, choices: seq<int>)
    requires DrawsFit(s.config, s.pool, choices)
    ensures Reset(s, choices) == Init(s.pool, s.config, choices).(userName := s.userName, hasStarted := s.hasStarted)
  {
  }

  /** Resetting twice with the same draws is resetting once. */
  lemma ResetIdempotent(s: State, choices: seq<int>)
    requires DrawsFit(s.config, s.pool, choices)
    ensures Reset(Reset(s, choices), choices) == Reset(s, choices)
  {
  }

  // ---------------------------------------------------------------------
  // Answering

  /** The list without `x`. */
  function Without(xs: seq<int>, x: int): (r: seq<int>)
    ensures forall y :: y in r <==> y in xs && y != x
  {
    if xs == [] then []
    else
      var rest := Without(xs[1..], x);
      assert forall y :: y in xs <==> y == xs[0] || y in xs[1..];
      if xs[0] == x then rest else [xs[0]] + rest
  }

  /** The multiple-answer branch of `handleAnswerSelect`: put the list in a
      set, delete the option if present and add it otherwise, and spread the
      set back out in ascending order. */
  function Toggle(xs: seq<int>, opt: int): (r: seq<int>)
    ensures StrictlyIncreasing(r)
    ensures forall y :: y in r <==> if y == opt then opt !in xs else y in xs
  {
    if opt in xs then SortedDistinct(Without(xs, opt))
    else SortedDistinct(xs + [opt])
  }

  /** Toggling an option twice restores an ascending list without repeats. */
  lemma ToggleTwice(xs: seq<int>, opt: int)
    requires StrictlyIncreasing(xs)
    ensures Toggle(Toggle(xs, opt), opt) == xs
  {
    StrictlyIncreasingUnique(Toggle(Toggle(xs, opt), opt), xs);
  }

  /** The list a multiple-answer entry currently holds: `[]` when it is not
      an array. */
  function CurrentList(sel: Selection): seq<int> {
    if sel.MultiChoice? then sel.indices else []
  }

  /** `handleAnswerSelect(opt)` without the auto-advance timer. Nothing
      happens once the results are shown or when there is no current
      question. A single-answer entry is overwritten; a multiple-answer
      entry has the option toggled. Only the current entry changes. */
  function Select(s: State, opt: int): (r: State)
    requires |s.selections| == |s.questions|
    ensures s.showResults || !(0 <= s.current < |s.questions|) ==> r == s
    ensures r.(selections := s.selections) == s
    ensures |r.selections| == |s.selections|
    ensures forall i :: 0 <= i < |s.selections| && i != s.current ==> r.selections[i] == s.selections[i]
    ensures !s.showResults && 0 <= s.current < |s.questions| ==>
              var sel := r.selections[s.current];
              match s.questions[s.current].key
              case SingleKey(_) => sel == SingleChoice(opt)
              case MultipleKey(_) =>
                && sel.MultiChoice?
                && StrictlyIncreasing(sel.indices)
                && forall y :: y in sel.indices <==>
                     if y == opt then opt !in CurrentList(s.selections[s.current])
                     else y in CurrentList(s.selections[s.current])
  {
    if s.showResults || !(0 <= s.current < |s.questions|) then s
    else
      var entry :=
        if s.questions[s.current].key.MultipleKey? then
          MultiChoice(Toggle(CurrentList(s.selections[s.current]), opt))
        else SingleChoice(opt);
      s.(selections := s.selections[s.current := entry])
  }

  lemma SelectPreservesValid(s: State, opt: int)
    requires Valid(s)
    ensures Valid(Select(s, opt))
  {
    var r := Select(s, opt);
    forall i | 0 <= i < |r.questions|
      ensures Matches(r.questions[i], r.selections[i])
    {
      if i != s.current {
        assert Matches(s.questions[i], s.selections[i]);
      }
    }
  }

  /** Picking the same option twice in a multiple-answer question undoes
      the first pick. */
  lemma SelectTwiceUndoes(s: State, opt: int)
    requires Valid(s) && !s.showResults && 0 <= s.current < |s.questions|
    requires s.questions[s.current].key.MultipleKey?
    ensures Select(Select(s, opt), opt) == s
  {
    var xs := s.selections[s.current].indices;
    assert Matches(s.questions[s.current], s.selections[s.current]);
    ToggleTwice(xs, opt);
    var once := Select(s, opt);
    assert once.selections[s.current] == MultiChoice(Toggle(xs, opt));
    assert Select(once, opt).selections == s.selections;
  }

  // ---------------------------------------------------------------------
  // Moving between questions

  predicate OnLastQuestion(s: State) {
    s.current >= |s.questions| - 1
  }

  /** `handleNext`: advance and hide the explanation, or on the last
      question show the results (the explanation flag is left as it is). */
  function Next(s: State): (r: State)
    ensures r.(current := s.current, showResults := s.showResults, showExplanation := s.showExplanation) == s
    ensures !OnLastQuestion(s) ==> r.current == s.current + 1 && !r.showExplanation && r.showResults == s.showResults
    ensures OnLastQuestion(s) ==> r.current == s.current && r.showResults && r.showExplanation == s.showExplanation
    ensures Valid(s) ==> Valid(r)
  {
    if s.current < |s.questions| - 1 then s.(current := s.current + 1, showExplanation := false)
    else s.(showResults := true)
  }

  /** `handlePrevious`: step back and hide the explanation; nothing at the
      first question. */
  function Previous(s: State): (r: State)
    ensures r.(current := s.current, showExplanation := s.showExplanation) == s
    ensures s.current > 0 ==> r.current == s.current - 1 && !r.showExplanation
    ensures s.current <= 0 ==> r == s
    ensures Valid(s) ==> Valid(r)
  {
    if s.current > 0 then s.(current := s.current - 1, showExplanation := false)
    else s
  }

  /** Previous after Next undoes the move, apart from hiding the explanation. */
  lemma PreviousUndoesNext(s: State)
    requires Valid(s) && !OnLastQuestion(s)
    ensures Previous(Next(s)) == s.(showExplanation := false)
  {
  }

  /** The "Check Answer" button: `setShowExplanation(true)`. */
  function RevealExplanation(s: State): (r: State)
    ensures r.showExplanation
    ensures r.(showExplanation := s.showExplanation) == s
  {
    s.(showExplanation := true)
  }

  // ---------------------------------------------------------------------
  // The name form

  /** The name field's `onChange`. */
  function SetUserName(s: State, name: string): (r: State)
    ensures r.userName == name
    ensures r.(userName := s.userName) == s
  {
    s.(userName := name)
  }

  /** `handleStartQuiz`: start once the typed name is not blank. */
  function Start(s: State): (r: State)
    ensures r.(hasStarted := s.hasStarted) == s
    ensures r.hasStarted <==> s.hasStarted || !IsBlank(s.userName)
  {
    TrimEmptyIffBlank(s.userName);
    if Trim(s.userName) != "" then s.(hasStarted := true) else s
  }

  // ---------------------------------------------------------------------
  // Derived values

  /** `isQuestionAnswered(i)`: false for an index without a question. */
  function IsQuestionAnswered(s: State, i: int): (b: bool)
    ensures b <==> && 0 <= i < |s.questions| && i < |s.selections|
                   && match s.questions[i].key
                      case SingleKey(_) => s.selections[i].SingleChoice? && s.selections[i].index != -1
                      case MultipleKey(_) => s.selections[i].MultiChoice? && s.selections[i].indices != []
  {
    0 <= i < |s.questions| && i < |s.selections| && SelectionAnswered(s.questions[i], s.selections[i])
  }

  /** `isQuestionCorrect(i)`: false for an index without a question. */
  function IsQuestionCorrect(s: State, i: int): (b: bool)
    ensures b <==> && 0 <= i < |s.questions| && i < |s.selections|
                   && match s.questions[i].key
                      case SingleKey(c) => s.selections[i] == SingleChoice(c)
                      case MultipleKey(cs) =>
                        s.selections[i].MultiChoice? && ValueSet(s.selections[i].indices) == ValueSet(cs)
  {
    if 0 <= i < |s.questions| && i < |s.selections| then
      var q, sel := s.questions[i], s.selections[i];
      if q.key.MultipleKey? then
        MultipleCorrectIffSameSet(q, sel);
        SelectionCorrect(q, sel)
      else
        SingleCorrectIffKey(q, sel);
        SelectionCorrect(q, sel)
    else false
  }

  /** A subset as large as its superset is the whole superset. */
  lemma SubsetSameSize(a: set<int>, b: set<int>)
    requires a <= b && |a| == |b|
    ensures a == b
  {
    assert a * b == a && a + b == b;
    assert |b - a| == 0;
  }

  /** The size-then-membership test of a multiple-answer question is set
      equality: a proper subset or superset of the right options is wrong. */
  lemma MultipleCorrectIffSameSet(q: Question, sel: Selection)
    requires q.key.MultipleKey?
    ensures SelectionCorrect(q, sel) <==> sel.MultiChoice? && ValueSet(sel.indices) == ValueSet(q.key.correctAnswers)
  {
    if SelectionCorrect(q, sel) {
      var chosen := ValueSet(sel.indices);
      var right := ValueSet(q.key.correctAnswers);
      forall x | x in right
        ensures x in chosen
      {
        assert x in q.key.correctAnswers;
      }
      SubsetSameSize(right, chosen);
    } else if sel.MultiChoice? && ValueSet(sel.indices) == ValueSet(q.key.correctAnswers) {
      forall c | c in q.key.correctAnswers
        ensures c in sel.indices
      {
        assert c in ValueSet(q.key.correctAnswers);
      }
    }
  }

  /** A single-answer question is right exactly when its number is the key. */
  lemma SingleCorrectIffKey(q: Question, sel: Selection)
    requires q.key.SingleKey?
    ensures SelectionCorrect(q, sel) <==> sel == SingleChoice(q.key.correctAnswer)
  {
  }

  /** With the adapter's output invariant, a right answer is an answer. */
  lemma CorrectImpliesAnswered(q: Question, sel: Selection)
    requires WellFormed(q)
    ensures SelectionCorrect(q, sel) ==> SelectionAnswered(q, sel)
  {
    if q.key.MultipleKey? && SelectionCorrect(q, sel) {
      var cs := q.key.correctAnswers;
      assert cs[0] in cs;
      assert cs[0] in sel.indices;
    }
  }

  /** The review screen's list of right options names a right answer: the
      single key's index, or a multiple-answer selection of exactly those
      options. */
  lemma CorrectIndicesAnswer(q: Question)
    ensures q.key.SingleKey? ==> |CorrectIndices(q)| == 1 && SelectionCorrect(q, SingleChoice(CorrectIndices(q)[0]))
    ensures q.key.MultipleKey? ==> SelectionCorrect(q, MultiChoice(CorrectIndices(q)))
    ensures forall xs :: q.key.MultipleKey? ==>
              (SelectionCorrect(q, MultiChoice(xs)) <==> ValueSet(xs) == ValueSet(CorrectIndices(q)))
  {
    if q.key.MultipleKey? {
      MultipleCorrectIffSameSet(q, MultiChoice(CorrectIndices(q)));
      forall xs {
        MultipleCorrectIffSameSet(q, MultiChoice(xs));
      }
    }
  }

  /** `toArraySelection`: the selected indices as a list, `[]` for an entry
      that is missing or holds -1. */
  function ToArraySelection(value: Option<Selection>): (r: seq<int>)
    ensures value.None? ==> r == []
    ensures value == Some(SingleChoice(-1)) ==> r == []
  {
    match value
    case None => []
    case Some(MultiChoice(xs)) => xs
    case Some(SingleChoice(k)) => if k != -1 then [k] else []
  }

  /** The review screen shows an answer exactly when the question counts as
      answered. */
  lemma ArraySelectionNonEmptyIffAnswered(q: Question, sel: Selection)
    requires Matches(q, sel)
    ensures ToArraySelection(Some(sel)) != [] <==> SelectionAnswered(q, sel)
  {
  }

  /** The list of the review screen and the highlight of the question screen
      agree on which options are selected. */
  lemma ArraySelectionMembers(sel: Selection, y: int)
    ensures y in ToArraySelection(Some(sel)) <==>
              if sel.SingleChoice? then sel.index == y && y != -1 else y in sel.indices
  {
  }
}
