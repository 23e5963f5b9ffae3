/** What the threaded quiz derives from a run for its results screen: the
    score, the categories with their per-category counts, the rounded
    percentage and the feedback tier. */
module ThreadedQuizResults {
  import opened Wrappers
  import opened JsArray
  import opened Questions
  import opened ThreadedQuiz
  import opened Counting

  // ---------------------------------------------------------------------
  // Score

  /** The number of right answers among the first `k` displayed questions. */
  function CorrectAmongFirst(s: State, k: nat): (r: nat)
    requires k <= |s.questions|
    ensures r <= k
  {
    if k == 0 then 0
    else CorrectAmongFirst(s, k - 1) + (if IsQuestionCorrect(s, k - 1) then 1 else 0)
  }

  /** `calculateScore`: the number of displayed questions answered right. */
  function Score(s: State): (r: nat)
    ensures r <= |s.questions|
  {
    CorrectAmongFirst(s, |s.questions|)
  }

  /** A full score means every question was answered right, and only then. */
  lemma {:induction false} FullScoreIffAllCorrect(s: State, k: nat)
    requires k <= |s.questions|
    ensures CorrectAmongFirst(s, k) == k <==> forall i :: 0 <= i < k ==> IsQuestionCorrect(s, i)
  {
    if k > 0 {
      FullScoreIffAllCorrect(s, k - 1);
    }
  }

  /** The score counts exactly the questions answered right. */
  lemma {:induction false} ScoreCountsCorrect(s: State, k: nat)
    requires k <= |s.questions|
    ensures CorrectAmongFirst(s, k) == |IndicesWhere(i => IsQuestionCorrect(s, i), k)|
  {
    if k > 0 {
      ScoreCountsCorrect(s, k - 1);
      IndicesWhereStep(i => IsQuestionCorrect(s, i), k);
    }
  }

  /** No right answers, no points. */
  lemma {:induction false} NothingCorrectScoresZero(s: State, k: nat)
    requires k <= |s.questions|
    requires forall i :: 0 <= i < k ==> !IsQuestionCorrect(s, i)
    ensures CorrectAmongFirst(s, k) == 0
  {
    if k > 0 {
      NothingCorrectScoresZero(s, k - 1);
    }
  }

  /** A fresh run scores 0 when every question of the pool satisfies the
      adapter's output invariant: nothing is answered yet, and a right
      answer is an answer. */
  lemma InitScoresZero(pool: seq<Question>, cfg: Config, choices: seq<int>)
    requires DrawsFit(cfg, pool, choices)
    requires forall i :: 0 <= i < |pool| ==> WellFormed(pool[i])
    ensures Score(Init(pool, cfg, choices)) == 0
  {
    var s := Init(pool, cfg, choices);
    forall i | 0 <= i < |s.questions|
      ensures !IsQuestionCorrect(s, i)
    {
      var q := s.questions[i];
      assert q in multiset(s.questions);
      assert q in pool;
      CorrectImpliesAnswered(q, s.selections[i]);
    }
    NothingCorrectScoresZero(s, |s.questions|);
  }

  // ---------------------------------------------------------------------
  // Categories

  /** `q.category || 'General'` for every displayed question. */
  function CategoryNames(qs: seq<Question>): (r: seq<string>)
    ensures |r| == |qs|
    ensures forall i :: 0 <= i < |qs| ==> r[i] == CategoryOf(qs[i])
  {
    seq(|qs|, i requires 0 <= i < |qs| => CategoryOf(qs[i]))
  }

  /** `categories`: the distinct category names in order of first
      appearance, or none when categories are hidden. */
  function Categories(s: State): (r: seq<string>)
    ensures Distinct(r)
    ensures !s.config.showCategories ==> r == []
    ensures s.config.showCategories ==>
              forall c :: c in r <==> exists i :: 0 <= i < |s.questions| && CategoryOf(s.questions[i]) == c
  {
    if s.config.showCategories then
      var names := CategoryNames(s.questions);
      assert forall c :: c in names <==> exists i :: 0 <= i < |s.questions| && CategoryOf(s.questions[i]) == c;
      FirstOccurrences(names)
    else []
  }

  /** The number of the first `k` questions that belong to `category`. */
  function CountInCategory(qs: seq<Question>, category: string, k: nat): (r: nat)
    requires k <= |qs|
    ensures r <= k
  {
    if k == 0 then 0
    else CountInCategory(qs, category, k - 1) + (if CategoryOf(qs[k - 1]) == category then 1 else 0)
  }

  /** The positions of the first `k` questions that belong to `category`:
      the reference the running count is checked against. */
  ghost function CategoryPositions(qs: seq<Question>, category: string, k: nat): set<int> {
    IndicesWhere(i => 0 <= i < |qs| && CategoryOf(qs[i]) == category, k)
  }

  /** The running count is the number of positions in the category. */
  lemma {:induction false} CountInCategoryCounts(qs: seq<Question>, category: string, k: nat)
    requires k <= |qs|
    ensures CountInCategory(qs, category, k) == |CategoryPositions(qs, category, k)|
  {
    if k > 0 {
      CountInCategoryCounts(qs, category, k - 1);
      IndicesWhereStep(i => 0 <= i < |qs| && CategoryOf(qs[i]) == category, k);
    }
  }

  /** The questions of one category, in order: `displayedQuestions.filter(...)`.
      Every question it keeps is of the category, and every question of the
      category is kept. */
  function InCategory(qs: seq<Question>, category: string): (r: seq<Question>)
    ensures |r| <= |qs|
    ensures forall i :: 0 <= i < |r| ==> r[i] in qs && CategoryOf(r[i]) == category
    ensures forall i :: 0 <= i < |qs| && CategoryOf(qs[i]) == category ==> qs[i] in r
  {
    if qs == [] then []
    else
      var init := InCategory(qs[..|qs| - 1], category);
      var last := qs[|qs| - 1];
      assert forall i :: 0 <= i < |qs| - 1 ==> qs[..|qs| - 1][i] == qs[i];
      if CategoryOf(last) == category then init + [last] else init
  }

  /** Filtering a single question keeps it exactly when it is of the category. */
  lemma InCategorySingle(q: Question, category: string)
    ensures InCategory([q], category) == if CategoryOf(q) == category then [q] else []
  {
    assert [q][..0] == [];
  }

  /** Filtering distributes over concatenation, so the kept questions keep
      their relative order. */
  lemma {:induction false} InCategoryAppend(a: seq<Question>, b: seq<Question>, category: string)
    ensures InCategory(a + b, category) == InCategory(a, category) + InCategory(b, category)
    decreases |b|
  {
    if b == [] {
      assert a + b == a;
    } else {
      var front := b[..|b| - 1];
      assert (a + b)[..|a + b| - 1] == a + front;
      assert (a + b)[|a + b| - 1] == b[|b| - 1];
      InCategoryAppend(a, front, category);
    }
  }

  /** The filtered list is as long as the count. */
  lemma {:induction false} InCategoryCounts(qs: seq<Question>, category: string)
    ensures |InCategory(qs, category)| == CountInCategory(qs, category, |qs|)
  {
    if qs != [] {
      var init := qs[..|qs| - 1];
      InCategoryCounts(init, category);
      CountPrefix(qs, category, |qs| - 1);
    }
  }

  /** Counting over a prefix of `qs` is counting over the prefix itself. */
  lemma {:induction false} CountPrefix(qs: seq<Question>, category: string, k: nat)
    requires k <= |qs|
    ensures CountInCategory(qs[..k], category, k) == CountInCategory(qs, category, k)
  {
    if k > 0 {
      assert qs[..k][..k - 1] == qs[..k - 1];
      CountPrefix(qs, category, k - 1);
      CountPrefixOfPrefix(qs, category, k);
    }
  }

  lemma CountPrefixOfPrefix(qs: seq<Question>, category: string, k: nat)
    requires 0 < k <= |qs|
    ensures CountInCategory(qs[..k], category, k) == CountInCategory(qs[..k - 1], category, k - 1) + (if CategoryOf(qs[k - 1]) == category then 1 else 0)
  {
    assert qs[..k][..k - 1] == qs[..k - 1];
    SamePrefixSameCount(qs[..k], qs[..k - 1], category, k - 1);
  }

  /** The count over the first `k` questions only reads those questions. */
  lemma {:induction false} SamePrefixSameCount(a: seq<Question>, b: seq<Question>, category: string, k: nat)
    requires k <= |a| && k <= |b| && a[..k] == b[..k]
    ensures CountInCategory(a, category, k) == CountInCategory(b, category, k)
  {
    if k > 0 {
      assert a[k - 1] == a[..k][k - 1] == b[..k][k - 1] == b[k - 1];
      assert a[..k - 1] == a[..k][..k - 1] && b[..k - 1] == b[..k][..k - 1];
      SamePrefixSameCount(a, b, category, k - 1);
    }
  }

  /** Counting over more questions never gives less. */
  lemma {:induction false} CountMonotone(qs: seq<Question>, category: string, j: nat, k: nat)
    requires j <= k <= |qs|
    ensures CountInCategory(qs, category, j) <= CountInCategory(qs, category, k)
    decreases k
  {
    if j < k {
      CountMonotone(qs, category, j, k - 1);
    }
  }

  /** `getCurrentCategory`. */
  function CurrentCategory(s: State): (c: string)
    requires 0 <= s.current < |s.questions|
    ensures c != ""
    ensures var cat := s.questions[s.current].category;
      c == if cat.Some? && cat.value != "" then cat.value else "General"
  {
    CategoryOf(s.questions[s.current])
  }

  /** `getQuestionNumberInCategory`: the position of the current question
      among the questions of its category. */
  function QuestionNumberInCategory(s: State): (r: nat)
    requires 0 <= s.current < |s.questions|
    ensures 1 <= r <= s.current + 1
    ensures r == |CategoryPositions(s.questions, CurrentCategory(s), s.current + 1)|
  {
    var category := CurrentCategory(s);
    CountIncludesLast(s.questions, category, s.current + 1);
    CountInCategoryCounts(s.questions, category, s.current + 1);
    CountInCategory(s.questions, category, s.current + 1)
  }

  lemma CountIncludesLast(qs: seq<Question>, category: string, k: nat)
    requires 0 < k <= |qs| && CategoryOf(qs[k - 1]) == category
    ensures CountInCategory(qs, category, k) >= 1
  {
  }

  /** `getTotalQuestionsInCategory`: the size of the current category. */
  function TotalQuestionsInCategory(s: State): (r: nat)
    requires 0 <= s.current < |s.questions|
    ensures r <= |s.questions|
    ensures r == |CategoryPositions(s.questions, CurrentCategory(s), |s.questions|)|
  {
    var category := CurrentCategory(s);
    InCategoryCounts(s.questions, category);
    CountInCategoryCounts(s.questions, category, |s.questions|);
    |InCategory(s.questions, category)|
  }

  /** The badge "n of m" always has 1 <= n <= m. */
  lemma QuestionNumberWithinTotal(s: State)
    requires 0 <= s.current < |s.questions|
    ensures 1 <= QuestionNumberInCategory(s) <= TotalQuestionsInCategory(s)
  {
    var category := CurrentCategory(s);
    InCategoryCounts(s.questions, category);
    CountMonotone(s.questions, category, s.current + 1, |s.questions|);
  }

  /** `categoryCorrect`: the right answers among the first `k` questions of
      `category`. The component looks each question up with `findIndex`; the
      adapter makes one object per question, so that finds the question's
      own position. */
  function CategoryCorrect(s: State, category: string, k: nat): (r: nat)
    requires k <= |s.questions|
    ensures r <= CountInCategory(s.questions, category, k)
    ensures r <= CorrectAmongFirst(s, k)
  {
    if k == 0 then 0
    else
      CategoryCorrect(s, category, k - 1)
      + (if CategoryOf(s.questions[k - 1]) == category && IsQuestionCorrect(s, k - 1) then 1 else 0)
  }

  /** The per-category count is the number of questions of that category
      answered right. */
  lemma {:induction false} CategoryCorrectCounts(s: State, category: string, k: nat)
    requires k <= |s.questions|
    ensures CategoryCorrect(s, category, k) ==
              |IndicesWhere(i => 0 <= i < |s.questions| && CategoryOf(s.questions[i]) == category && IsQuestionCorrect(s, i), k)|
  {
    if k > 0 {
      CategoryCorrectCounts(s, category, k - 1);
      IndicesWhereStep(i => 0 <= i < |s.questions| && CategoryOf(s.questions[i]) == category && IsQuestionCorrect(s, i), k);
    }
  }

  // ---------------------------------------------------------------------
  // Percentage and feedback

  /** `Math.round((score / n) * 100)` in exact arithmetic: the whole
      percentage nearest to `score / n`, halves rounded up; `None` stands for
      the `NaN` of `0 / 0`. */
  function Percentage(score: nat, n: nat): (p: Option<int>)
    ensures n == 0 <==> p.None?
    ensures p.Some? ==> -(n as int) <= 200 * score - 2 * n * p.value < n
    ensures p.Some? && score <= n ==> 0 <= p.value <= 100
  {
    if n == 0 then None
    else
      var q := (200 * score + n) / (2 * n);
      PercentBounds(score, n, q);
      Some(q)
  }

  lemma PercentBounds(score: nat, n: nat, q: int)
    requires n > 0 && q == (200 * score + n) / (2 * n)
    ensures -(n as int) <= 200 * score - 2 * n * q < n
    ensures score <= n ==> 0 <= q <= 100
  {
    var m := 2 * n;
    var t := 200 * score + n;
    var rem := t % m;
    assert t == m * q + rem && 0 <= rem < m;
    assert 200 * score - 2 * n * q == rem - n;
    if score <= n {
      assert t < m * 101;
      if q > 100 {
        MulMonotone(m, 101, q);
      }
    }
  }

  lemma MulMonotone(a: nat, x: int, y: int)
    requires x <= y
    ensures a * x <= a * y
  {
  }

  /** The six message tiers of `getPerformanceFeedback`. */
  datatype Tier = PerfectScore | Outstanding | ExcellentWork | GoodJob | KeepLearning | KeepPracticing

  /** Tiers from best to worst. */
  function Rank(t: Tier): nat {
    match t
    case PerfectScore => 5
    case Outstanding => 4
    case ExcellentWork => 3
    case GoodJob => 2
    case KeepLearning => 1
    case KeepPracticing => 0
  }

  /** The smallest percentage for each tier above the last. */
  function Threshold(t: Tier): int {
    match t
    case PerfectScore => 100
    case Outstanding => 90
    case ExcellentWork => 80
    case GoodJob => 70
    case KeepLearning => 60
    case KeepPracticing => 0
  }

  /** The tier for a percentage: exactly 100 is perfect, then the 90/80/70/60
      steps. `NaN` fails every comparison and falls to the last tier. */
  function FeedbackTier(p: Option<int>): (t: Tier)
    ensures t == PerfectScore <==> p == Some(100)
    ensures t != KeepPracticing ==> p.Some? && p.value >= Threshold(t)
    ensures p.Some? && p.value <= 100 && t != PerfectScore ==> p.value < Threshold(Tier.PerfectScore)
    ensures p.Some? && p.value < 100 && Rank(t) < 4 ==> p.value < 90
    ensures p.Some? && p.value != 100 ==>
              forall T :: T != PerfectScore && Threshold(T) <= p.value ==> Rank(T) <= Rank(t)
  {
    match p
    case None => KeepPracticing
    case Some(x) =>
      if x == 100 then PerfectScore
      else if x >= 90 then Outstanding
      else if x >= 80 then ExcellentWork
      else if x >= 70 then GoodJob
      else if x >= 60 then KeepLearning
      else KeepPracticing
  }

  /** Up to 100, a higher percentage never earns a lower tier. */
  lemma TierMonotone(x: int, y: int)
    requires x <= y <= 100
    ensures Rank(FeedbackTier(Some(x))) <= Rank(FeedbackTier(Some(y)))
  {
  }

  /** The perfect tier goes by the rounded percentage: it is earned with at
      most half a percent wrong, so from 200 questions up a wrong answer can
      still read "Perfect Score!". */
  lemma PerfectTierCondition(score: nat, n: nat)
    requires 0 < n && score <= n
    ensures FeedbackTier(Percentage(score, n)) == PerfectScore <==> 200 * score >= 199 * n
  {
    var p := Percentage(score, n).value;
    if 200 * score >= 199 * n && p < 100 {
      MulMonotone(2 * n, p, 99);
      assert false;
    }
  }

  /** Below 200 questions the perfect tier means every answer right. */
  lemma PerfectTierSmallQuiz(score: nat, n: nat)
    requires 0 < n < 200 && score <= n
    ensures FeedbackTier(Percentage(score, n)) == PerfectScore <==> score == n
  {
    PerfectTierCondition(score, n);
  }

  /** 999 right out of 1000 rounds to 100%. */
  lemma NearlyPerfectRoundsUp()
    ensures FeedbackTier(Percentage(999, 1000)) == PerfectScore
  {
    PerfectTierCondition(999, 1000);
  }

  /** The name the feedback addresses: the typed name when one is required
      and non-empty, otherwise none. */
  function FeedbackName(cfg: Config, userName: string): (name: string)
    ensures name == "" || name == userName
    ensures name != "" <==> cfg.requireName && userName != ""
  {
    if cfg.requireName && userName != "" then userName else ""
  }
}
