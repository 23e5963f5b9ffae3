/** The quiz-format adapter: turns loosely typed, 1-based authoring records
    (`AwsQuizQuestion`) into strict zero-based questions, skipping and
    counting the records it cannot use. It never fails. */
module AwsQuizAdapter {
  import opened Wrappers
  import opened JsString
  import opened JsArray
  import opened Questions

  /** One authored correct-answer value. `Num` is a finite integer number;
      `NonFiniteNum` is `NaN` or an infinity; `Other` is anything that is
      neither a number nor a string (`undefined`, `null`, an object, a
      nested array). */
  datatype Scalar = Num(n: int) | NonFiniteNum | Str(s: string) | Other

  /** The `correctAnswer` field: a single value or an array of values. */
  datatype CorrectAnswer = Single(value: Scalar) | Array(items: seq<Scalar>)

  /** An authoring record. `answers == None` stands for a value that is not
      an array (missing included); an absent optional text is `None`. */
  datatype AwsQuizQuestion = AwsQuizQuestion(
    question: string,
    answerSelectionType: Option<string>,
    answers: Option<seq<string>>,
    correctAnswer: CorrectAnswer,
    explanation: Option<string>,
    messageForCorrectAnswer: Option<string>,
    messageForIncorrectAnswer: Option<string>)

  datatype AwsQuiz = AwsQuiz(quizTitle: Option<string>, questions: Option<seq<AwsQuizQuestion>>)

  /** The adapter's result: the questions kept, in input order, and how many
      records were dropped. */
  datatype Conversion = Conversion(questions: seq<Question>, skipped: nat)

  /** Decoding of one authored value, shared by both coercions: a finite
      number or a string read by `parseInt(s, 10)`, shifted from 1-based to
      0-based. Anything else does not decode. */
  function CoerceIndex(v: Scalar): Option<int> {
    match v
    case Num(n) => Some(n - 1)
    case Str(s) =>
      (match ParseInt(s)
       case Some(parsed) => Some(parsed - 1)
       case None => None)
    case _ => None
  }

  /** What each kind of authored value decodes to: a finite number `n` to
      `n - 1`, a string to what `parseInt` reads minus one (nothing when it
      reads `NaN`), and `NaN`, the infinities and non-number, non-string
      values to nothing. */
  lemma CoerceIndexCases(v: Scalar)
    ensures v.Num? ==> CoerceIndex(v) == Some(v.n - 1)
    ensures v.Str? ==> (CoerceIndex(v).Some? <==> ParseInt(v.s).Some?)
    ensures v.Str? && CoerceIndex(v).Some? ==> CoerceIndex(v).value + 1 == ParseInt(v.s).value
    ensures v.NonFiniteNum? || v.Other? ==> CoerceIndex(v) == None
  {
  }

  /** `coerceSingleCorrectAnswerIndex`: an array never decodes as a single
      index; a finite number `n` decodes to `n - 1`, a string to what
      `parseInt` reads minus one, and anything else not at all. */
  function CoerceSingleCorrectAnswerIndex(c: CorrectAnswer): (r: Option<int>)
    ensures c.Array? ==> r == None
    ensures c.Single? && c.value.Num? ==> r == Some(c.value.n - 1)
    ensures c.Single? && c.value.Str? ==> (r.Some? <==> ParseInt(c.value.s).Some?)
    ensures c.Single? && c.value.Str? && r.Some? ==> r.value + 1 == ParseInt(c.value.s).value
    ensures c.Single? && (c.value.NonFiniteNum? || c.value.Other?) ==> r == None
  {
    match c
    case Array(_) => None
    case Single(v) =>
      CoerceIndexCases(v);
      CoerceIndex(v)
  }

  /** The elements of an authored array that decode, in order; the others are
      dropped. */
  function Decoded(items: seq<Scalar>): (r: seq<int>)
    ensures |r| <= |items|
    ensures forall i :: i in r <==> exists k :: 0 <= k < |items| && CoerceIndex(items[k]) == Some(i)
  {
    if items == [] then []
    else
      var init := items[..|items| - 1];
      var last := items[|items| - 1];
      assert forall k :: 0 <= k < |init| ==> init[k] == items[k];
      match CoerceIndex(last)
      case Some(i) => Decoded(init) + [i]
      case None => Decoded(init)
  }

  /** `coerceMultipleCorrectAnswerIndices`: only an array decodes; it fails
      when no element decodes, and otherwise yields the decoded indices
      without repeats, ascending. */
  function CoerceMultipleCorrectAnswerIndices(c: CorrectAnswer): (r: Option<seq<int>>)
    ensures c.Single? ==> r == None
    ensures c.Array? ==> (r == None <==> Decoded(c.items) == [])
    ensures r.Some? ==> |r.value| > 0 && StrictlyIncreasing(r.value)
    ensures r.Some? ==> forall i :: i in r.value <==> i in Decoded(c.items)
  {
    match c
    case Single(_) => None
    case Array(items) =>
      var indices := Decoded(items);
      if |indices| == 0 then None
      else
        assert indices[0] in indices;
        Some(SortedDistinct(indices))
  }

  /** JavaScript truthiness of an optional string: present and non-empty. */
  predicate Truthy(o: Option<string>) {
    o.Some? && o.value != ""
  }

  /** `explanation || messageForCorrectAnswer || messageForIncorrectAnswer`. */
  function ExplanationOf(q: AwsQuizQuestion): (r: Option<string>)
    ensures Truthy(r) <==> Truthy(q.explanation) || Truthy(q.messageForCorrectAnswer) || Truthy(q.messageForIncorrectAnswer)
    ensures Truthy(q.explanation) ==> r == q.explanation
    ensures !Truthy(q.explanation) && Truthy(q.messageForCorrectAnswer) ==> r == q.messageForCorrectAnswer
    ensures !Truthy(q.explanation) && !Truthy(q.messageForCorrectAnswer) ==> r == q.messageForIncorrectAnswer
  {
    if Truthy(q.explanation) then q.explanation
    else if Truthy(q.messageForCorrectAnswer) then q.messageForCorrectAnswer
    else q.messageForIncorrectAnswer
  }

  /** `answerSelectionType || (Array.isArray(correctAnswer) ? 'multiple' : 'single')`. */
  function SelectionTypeOf(q: AwsQuizQuestion): (t: string)
    ensures Truthy(q.answerSelectionType) ==> t == q.answerSelectionType.value
    ensures !Truthy(q.answerSelectionType) ==> (t == "multiple" <==> q.correctAnswer.Array?)
    ensures !Truthy(q.answerSelectionType) ==> (t == "single" <==> q.correctAnswer.Single?)
  {
    if Truthy(q.answerSelectionType) then q.answerSelectionType.value
    else if q.correctAnswer.Array? then "multiple"
    else "single"
  }

  /** True when the record has a non-empty `answers` array. */
  predicate HasAnswers(q: AwsQuizQuestion): (b: bool)
    ensures b <==> q.answers.Some? && q.answers.value != []
  {
    q.answers.Some? && |q.answers.value| > 0
  }

  /** The body of the `flatMap` callback: the converted question, or `None`
      when the record is skipped. A kept question copies the text and the
      options, carries the given category and the fallback explanation, and
      satisfies the output invariant. */
  function ConvertQuestion(q: AwsQuizQuestion, category: string): (r: Option<Question>)
    ensures !HasAnswers(q) ==> r == None
    ensures r.Some? ==> && r.value.question == q.question
                        && r.value.options == q.answers.value
                        && r.value.category == Some(category)
                        && r.value.explanation == ExplanationOf(q)
                        && WellFormed(r.value)
    ensures r.Some? ==> (r.value.key.MultipleKey? <==> SelectionTypeOf(q) == "multiple")
  {
    if !HasAnswers(q) then None
    else
      var options := q.answers.value;
      var explanation := ExplanationOf(q);
      if SelectionTypeOf(q) == "multiple" then
        match CoerceMultipleCorrectAnswerIndices(q.correctAnswer)
        case None => None
        case Some(indices) =>
          if exists k :: 0 <= k < |indices| && !IsOptionIndex(indices[k], options) then None
          else Some(Question(q.question, options, MultipleKey(indices), explanation, Some(category)))
      else
        match CoerceSingleCorrectAnswerIndex(q.correctAnswer)
        case None => None
        case Some(index) =>
          if index < 0 || index >= |options| then None
          else Some(Question(q.question, options, SingleKey(index), explanation, Some(category)))
  }

  /** The `flatMap` over the records with its `skipped` counter. */
  function ConvertAll(qs: seq<AwsQuizQuestion>, category: string): (r: Conversion)
    ensures |r.questions| + r.skipped == |qs|
    ensures forall k :: 0 <= k < |r.questions| ==>
              WellFormed(r.questions[k]) && r.questions[k].category == Some(category)
  {
    if qs == [] then Conversion([], 0)
    else
      var prev := ConvertAll(qs[..|qs| - 1], category);
      match ConvertQuestion(qs[|qs| - 1], category)
      case Some(q) => Conversion(prev.questions + [q], prev.skipped)
      case None => Conversion(prev.questions, prev.skipped + 1)
  }

  /** `awsQuizToThreadedQuestions`: a missing `questions` list reads as
      empty; every record is either kept or counted as skipped; every kept
      question satisfies the output invariant and carries `category`. */
  function AwsQuizToThreadedQuestions(quiz: AwsQuiz, category: string): (r: Conversion)
    ensures quiz.questions.None? ==> r == Conversion([], 0)
    ensures |r.questions| + r.skipped == |quiz.questions.GetOr([])|
    ensures forall k :: 0 <= k < |r.questions| ==>
              WellFormed(r.questions[k]) && r.questions[k].category == Some(category)
  {
    ConvertAll(quiz.questions.GetOr([]), category)
  }

  // ----- Properties of the adapter -----

  /** Converting a concatenation converts each part in turn: output order is
      input order, and the skip counts add up. */
  lemma {:induction false} ConvertAllAppend(a: seq<AwsQuizQuestion>, b: seq<AwsQuizQuestion>, category: string)
    ensures ConvertAll(a + b, category).questions == ConvertAll(a, category).questions + ConvertAll(b, category).questions
    ensures ConvertAll(a + b, category).skipped == ConvertAll(a, category).skipped + ConvertAll(b, category).skipped
  {
    if b == [] {
      assert a + b == a;
    } else {
      var b' := b[..|b| - 1];
      assert (a + b)[..|a + b| - 1] == a + b';
      assert (a + b)[|a + b| - 1] == b[|b| - 1];
      ConvertAllAppend(a, b', category);
    }
  }

  /** One record converts to the one question `ConvertQuestion` keeps, or to a
      single skip. */
  lemma ConvertAllSingle(q: AwsQuizQuestion, category: string)
    ensures ConvertAll([q], category) ==
      match ConvertQuestion(q, category)
      case Some(x) => Conversion([x], 0)
      case None => Conversion([], 1)
  {
    assert [q][..0] == [];
  }

  /** An explicit selection type that contradicts the shape of `correctAnswer`
      makes the record skipped. */
  lemma ExplicitTypeMismatchSkips(q: AwsQuizQuestion, category: string)
    requires || (q.answerSelectionType == Some("single") && q.correctAnswer.Array?)
             || (q.answerSelectionType == Some("multiple") && q.correctAnswer.Single?)
    ensures ConvertQuestion(q, category) == None
  {
  }

  /** Without an explicit selection type, a kept question is multiple-answer
      exactly when `correctAnswer` is an array. */
  lemma ImplicitTypeFollowsShape(q: AwsQuizQuestion, category: string)
    requires !Truthy(q.answerSelectionType)
    requires ConvertQuestion(q, category).Some?
    ensures ConvertQuestion(q, category).value.key.MultipleKey? <==> q.correctAnswer.Array?
  {
  }

  /** Single-answer decoding: a value that decodes to `i` keeps the record
      exactly when `i` names an option, and the key is then `i`; a value that
      does not decode skips it. */
  lemma SingleAnswerDecoding(q: AwsQuizQuestion, category: string)
    requires HasAnswers(q) && SelectionTypeOf(q) != "multiple"
    ensures CoerceSingleCorrectAnswerIndex(q.correctAnswer).None? ==> ConvertQuestion(q, category) == None
    ensures CoerceSingleCorrectAnswerIndex(q.correctAnswer).Some? ==>
              var i := CoerceSingleCorrectAnswerIndex(q.correctAnswer).value;
              && (ConvertQuestion(q, category).Some? <==> IsOptionIndex(i, q.answers.value))
              && (ConvertQuestion(q, category).Some? ==> ConvertQuestion(q, category).value.key == SingleKey(i))
  {
  }

  /** Multiple-answer decoding: the record is kept exactly when some element
      decodes and every decoded index names an option; the key then holds
      exactly the decoded indices. */
  lemma MultipleAnswerDecoding(q: AwsQuizQuestion, category: string)
    requires HasAnswers(q) && SelectionTypeOf(q) == "multiple" && q.correctAnswer.Array?
    ensures var d := Decoded(q.correctAnswer.items);
      ConvertQuestion(q, category).Some? <==>
        |d| > 0 && forall k :: 0 <= k < |d| ==> IsOptionIndex(d[k], q.answers.value)
    ensures ConvertQuestion(q, category).Some? ==>
      forall i :: i in ConvertQuestion(q, category).value.key.correctAnswers <==> i in Decoded(q.correctAnswer.items)
  {
    var d := Decoded(q.correctAnswer.items);
    var c := CoerceMultipleCorrectAnswerIndices(q.correctAnswer);
    if c.Some? {
      var ix := c.value;
      var options := q.answers.value;
      if exists k :: 0 <= k < |ix| && !IsOptionIndex(ix[k], options) {
        var k :| 0 <= k < |ix| && !IsOptionIndex(ix[k], options);
        assert ix[k] in d;
        var m :| 0 <= m < |d| && d[m] == ix[k];
      } else {
        forall m | 0 <= m < |d|
          ensures IsOptionIndex(d[m], options)
        {
          assert d[m] in ix;
        }
      }
    }
  }

  /** A string decodes to one less than what `parseInt` reads from it. */
  lemma StringDecodesAsParsed(s: string, v: int)
    requires ParseInt(s) == Some(v)
    ensures CoerceIndex(Str(s)) == Some(v - 1) == CoerceIndex(Num(v))
  {
  }

  /** A numeral string decodes like the number it spells, with or without
      trailing text: the authored `"2"`, `"2abc"` and `2` agree. */
  lemma StringDecodesLikeNumber(m: nat, rest: string)
    requires rest == [] || !IsDigit(rest[0])
    ensures CoerceIndex(Str(Decimal(m) + rest)) == CoerceIndex(Num(m))
  {
    var spelled := Decimal(m) + rest;
    ParseIntRoundTrip(m, rest);
    StringDecodesAsParsed(spelled, m);
  }

  // Worked examples in the shape of the authored quiz data.

  /** A single-answer record whose value decodes to an option index is kept
      with that index as its key. */
  lemma SingleKept(q: AwsQuizQuestion, category: string, i: int)
    requires HasAnswers(q) && SelectionTypeOf(q) != "multiple"
    requires CoerceSingleCorrectAnswerIndex(q.correctAnswer) == Some(i)
    requires IsOptionIndex(i, q.answers.value)
    ensures ConvertQuestion(q, category) ==
      Some(Question(q.question, q.answers.value, SingleKey(i), ExplanationOf(q), Some(category)))
  {
  }

  /** ... and one whose value decodes to no option index is skipped. */
  lemma SingleOutOfRangeSkipped(q: AwsQuizQuestion, category: string, i: int)
    requires HasAnswers(q) && SelectionTypeOf(q) != "multiple"
    requires CoerceSingleCorrectAnswerIndex(q.correctAnswer) == Some(i)
    requires !IsOptionIndex(i, q.answers.value)
    ensures ConvertQuestion(q, category) == None
  {
  }

  /** 5 is past the fourth option: the record is skipped. */
  lemma ExampleOutOfRangeSkipped()
    ensures ConvertQuestion(AwsQuizQuestion("Q", None, Some(["a", "b", "c", "d"]), Single(Num(5)), None, None, None), "Starter") == None
  {
  }

  /** A multiple-answer record whose array decodes to option indices is kept
      with those indices as its key. */
  lemma MultipleKept(q: AwsQuizQuestion, category: string, ix: seq<int>)
    requires HasAnswers(q) && SelectionTypeOf(q) == "multiple"
    requires CoerceMultipleCorrectAnswerIndices(q.correctAnswer) == Some(ix)
    requires forall k :: 0 <= k < |ix| ==> IsOptionIndex(ix[k], q.answers.value)
    ensures ConvertQuestion(q, category) ==
      Some(Question(q.question, q.answers.value, MultipleKey(ix), ExplanationOf(q), Some(category)))
  {
  }

  /** `[1, 1, 2]` collapses to `[0, 1]`. */
  lemma ExampleDuplicatesCollapse()
    ensures var four := ["a", "b", "c", "d"];
      ConvertQuestion(AwsQuizQuestion("Q", None, Some(four), Array([Num(1), Num(1), Num(2)]), None, None, None), "Starter")
        == Some(Question("Q", four, MultipleKey([0, 1]), None, Some("Starter")))
  {
    var q := AwsQuizQuestion("Q", None, Some(["a", "b", "c", "d"]), Array([Num(1), Num(1), Num(2)]), None, None, None);
    CollapseOneOneTwo([Num(1), Num(1), Num(2)]);
    MultipleKept(q, "Starter", [0, 1]);
  }

  lemma CollapseOneOneTwo(items: seq<Scalar>)
    requires items == [Num(1), Num(1), Num(2)]
    ensures CoerceMultipleCorrectAnswerIndices(Array(items)) == Some([0, 1])
  {
    DecodedOneOneTwo(items);
    SortedDistinctZeroZeroOne();
  }

  lemma DecodedOneOneTwo(items: seq<Scalar>)
    requires items == [Num(1), Num(1), Num(2)]
    ensures Decoded(items) == [0, 0, 1]
  {
    var i2 := items[..2];
    var i1 := i2[..1];
    assert i2 == [Num(1), Num(1)] && i1 == [Num(1)] && i1[..0] == [];
    assert Decoded(i1) == [0];
    assert Decoded(i2) == [0, 0];
  }

  lemma SortedDistinctZeroZeroOne()
    ensures SortedDistinct([0, 0, 1]) == [0, 1]
  {
    var d: seq<int> := [0, 0, 1];
    assert d[..2] == [0, 0] && d[..2][..1] == [0] && d[..2][..1][..0] == [];
    assert SortedDistinct([0]) == [0];
    assert SortedDistinct([0, 0]) == [0];
  }

  /** `[1, 4]` becomes `[0, 3]`. */
  lemma ExampleTwoOfFive(items: seq<Scalar>)
    requires items == [Num(1), Num(4)]
    ensures var five := ["a", "b", "c", "d", "e"];
      ConvertQuestion(AwsQuizQuestion("Q", Some("multiple"), Some(five), Array(items), None, None, None), "Starter")
        == Some(Question("Q", five, MultipleKey([0, 3]), None, Some("Starter")))
  {
    var q := AwsQuizQuestion("Q", Some("multiple"), Some(["a", "b", "c", "d", "e"]), Array(items), None, None, None);
    DecodeOneFour(items);
    MultipleKept(q, "Starter", [0, 3]);
  }

  lemma DecodeOneFour(items: seq<Scalar>)
    requires items == [Num(1), Num(4)]
    ensures CoerceMultipleCorrectAnswerIndices(Array(items)) == Some([0, 3])
  {
    DecodedOneFour(items);
    SortedDistinctZeroThree();
  }

  lemma DecodedOneFour(items: seq<Scalar>)
    requires items == [Num(1), Num(4)]
    ensures Decoded(items) == [0, 3]
  {
    var i1 := items[..1];
    assert i1 == [Num(1)] && i1[..0] == [];
    assert Decoded(i1) == [0];
  }

  lemma SortedDistinctZeroThree()
    ensures SortedDistinct([0, 3]) == [0, 3]
  {
    StrictlyIncreasingUnique(SortedDistinct([0, 3]), [0, 3]);
  }
}
