/** Counting the positions where a condition holds: the reference the
    quizzes' running counts are checked against. */
module Counting {

  /** The positions below `k` where `p` holds. */
  function IndicesWhere(p: int -> bool, k: nat): set<int> {
    set i | 0 <= i < k && p(i)
  }

  /** Going one position further adds that position when `p` holds there. */
  lemma IndicesWhereStep(p: int -> bool, k: nat)
    requires k > 0
    ensures |IndicesWhere(p, k)| == |IndicesWhere(p, k - 1)| + (if p(k - 1) then 1 else 0)
  {
    if p(k - 1) {
      IndicesWhereGrows(p, k);
    } else {
      IndicesWhereStays(p, k);
    }
  }

  lemma IndicesWhereGrows(p: int -> bool, k: nat)
    requires k > 0 && p(k - 1)
    ensures IndicesWhere(p, k) == IndicesWhere(p, k - 1) + {k - 1}
    ensures k - 1 !in IndicesWhere(p, k - 1)
  {
    var before := IndicesWhere(p, k - 1);
    var after := IndicesWhere(p, k);
    forall i | i in after
      ensures i in before + {k - 1}
    {
    }
    forall i | i in before + {k - 1}
      ensures i in after
    {
    }
  }

  lemma IndicesWhereStays(p: int -> bool, k: nat)
    requires k > 0 && !p(k - 1)
    ensures IndicesWhere(p, k) == IndicesWhere(p, k - 1)
  {
    var before := IndicesWhere(p, k - 1);
    var after := IndicesWhere(p, k);
    forall i | i in after
      ensures i in before
    {
    }
  }
}
