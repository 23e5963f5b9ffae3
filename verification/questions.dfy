/** The strict question shape the threaded quiz consumes and the adapter
    produces (`ThreadedQuizQuestion`, `QuizQuestion` in the threaded quiz):
    a tagged union of single-answer and multiple-answer questions. */
module Questions {
  import opened Wrappers
  import opened JsArray

  /** The `selectionType` tag with the answer key it carries. */
  datatype AnswerKey =
    | SingleKey(correctAnswer: int)
    | MultipleKey(correctAnswers: seq<int>)

  datatype Question = Question(
    question: string,
    options: seq<string>,
    key: AnswerKey,
    explanation: Option<string>,
    category: Option<string>)

  predicate IsOptionIndex(i: int, options: seq<string>) {
    0 <= i < |options|
  }

  /** The adapter's output invariant: every correct index names an option,
      and a multiple-answer key is a non-empty ascending list without
      repeats. */
  ghost predicate WellFormed(q: Question) {
    match q.key
    case SingleKey(c) => IsOptionIndex(c, q.options)
    case MultipleKey(cs) =>
      && |cs| > 0
      && StrictlyIncreasing(cs)
      && forall k :: 0 <= k < |cs| ==> IsOptionIndex(cs[k], q.options)
  }

  /** `q.category || 'General'`: a missing or empty category is "General". */
  function CategoryOf(q: Question): (c: string)
    ensures c != ""
    ensures q.category.Some? && q.category.value != "" ==> c == q.category.value
    ensures q.category.None? || q.category.value == "" ==> c == "General"
  {
    if q.category.Some? && q.category.value != "" then q.category.value else "General"
  }

  /** The correct indices as a list, as the review screen builds them: the
      one index of a single key, the indices of a multiple key. For a
      question the adapter produced it is never empty and names only
      options. */
  function CorrectIndices(q: Question): (r: seq<int>)
    ensures q.key.SingleKey? ==> r == [q.key.correctAnswer]
    ensures q.key.MultipleKey? ==> r == q.key.correctAnswers
    ensures WellFormed(q) ==> |r| > 0 && forall k :: 0 <= k < |r| ==> IsOptionIndex(r[k], q.options)
  {
    match q.key
    case SingleKey(c) => [c]
    case MultipleKey(cs) => cs
  }
}
