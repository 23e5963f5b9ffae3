/** `shuffleArray`: the in-place Fisher–Yates shuffle on a copy of the input.
    The random draws `Math.floor(Math.random() * (i + 1))` are a parameter:
    `choices[i]` is the index drawn when the loop is at position `i`. */
module FisherYates {

  /** Every draw at position `i` lies in `0..i`, as `Math.floor(Math.random() * (i + 1))`
      guarantees. `choices[0]` is never read. */
  ghost predicate ValidChoices(n: nat, choices: seq<int>) {
    |choices| == n && forall i :: 0 <= i < n ==> 0 <= choices[i] <= i
  }

  /** `[s[i], s[j]] = [s[j], s[i]]`. */
  function SwapAt<T>(s: seq<T>, i: nat, j: nat): (r: seq<T>)
    requires i < |s| && j < |s|
    ensures |r| == |s| && r[i] == s[j] && r[j] == s[i]
    ensures forall k :: 0 <= k < |s| && k != i && k != j ==> r[k] == s[k]
  {
    s[i := s[j]][j := s[i]]
  }

  /** The loop from position `i` down to 1. */
  function ShuffleFrom<T>(s: seq<T>, choices: seq<int>, i: int): (r: seq<T>)
    requires ValidChoices(|s|, choices)
    requires i < |s|
    ensures |r| == |s|
    decreases i
  {
    if i <= 0 then s
    else ShuffleFrom(SwapAt(s, i, choices[i]), choices, i - 1)
  }

  /** The whole shuffle: the loop starts at the last position. */
  function Shuffle<T>(s: seq<T>, choices: seq<int>): seq<T>
    requires ValidChoices(|s|, choices)
  {
    ShuffleFrom(s, choices, |s| - 1)
  }

  /** `shuffleArray` as the source writes it: a loop over a copy of the
      input that swaps from the back. The result is the functional shuffle,
      a permutation of the input; the input itself is a value and stays as
      it was. */
  method ShuffleArray<T>(a: seq<T>, choices: seq<int>) returns (r: seq<T>)
    requires ValidChoices(|a|, choices)
    ensures r == Shuffle(a, choices)
    ensures |r| == |a| && multiset(r) == multiset(a)
  {
    var shuffled := a;
    var i := |a| - 1;
    while i > 0
      invariant i < |a| == |shuffled|
      invariant ShuffleFrom(shuffled, choices, i) == Shuffle(a, choices)
      decreases i
    {
      var j := choices[i];
      var next := shuffled[i := shuffled[j]][j := shuffled[i]];
      SwapIsStep(shuffled, next, choices, i);
      shuffled := next;
      i := i - 1;
    }
    r := shuffled;
    ShufflePermutes(a, choices, |a| - 1);
  }

  /** One loop iteration is one step of the functional shuffle. */
  lemma SwapIsStep<T>(before: seq<T>, after: seq<T>, choices: seq<int>, i: int)
    requires ValidChoices(|before|, choices)
    requires 0 < i < |before| == |after|
    requires after[i] == before[choices[i]] && after[choices[i]] == before[i]
    requires forall k :: 0 <= k < |before| && k != i && k != choices[i] ==> after[k] == before[k]
    ensures ShuffleFrom(after, choices, i - 1) == ShuffleFrom(before, choices, i)
  {
    assert after == SwapAt(before, i, choices[i]);
  }

  /** A swap moves elements without adding or losing any. */
  lemma SwapPermutes<T>(s: seq<T>, i: nat, j: nat)
    requires i < |s| && j < |s|
    ensures multiset(SwapAt(s, i, j)) == multiset(s)
  {
  }

  /** The shuffle returns a permutation of its input, whatever the draws. */
  lemma {:induction false} ShufflePermutes<T>(s: seq<T>, choices: seq<int>, i: int)
    requires ValidChoices(|s|, choices)
    requires i < |s|
    ensures multiset(ShuffleFrom(s, choices, i)) == multiset(s)
    decreases i
  {
    if i > 0 {
      SwapPermutes(s, i, choices[i]);
      ShufflePermutes(SwapAt(s, i, choices[i]), choices, i - 1);
    }
  }

  /** Draws that always pick the current position leave the order unchanged. */
  lemma {:induction false} IdentityDraws<T>(s: seq<T>, choices: seq<int>, i: int)
    requires ValidChoices(|s|, choices)
    requires forall k :: 0 <= k < |s| ==> choices[k] == k
    requires i < |s|
    ensures ShuffleFrom(s, choices, i) == s
    decreases i
  {
    if i > 0 {
      assert SwapAt(s, i, choices[i]) == s;
      IdentityDraws(s, choices, i - 1);
    }
  }

  /** Drawing 0 at every step of a two-element shuffle swaps the pair. */
  lemma SwapPair<T>(x: T, y: T)
    ensures Shuffle([x, y], [0, 0]) == [y, x]
  {
    assert ShuffleFrom([x, y], [0, 0], 1) == ShuffleFrom([y, x], [0, 0], 0);
  }
}
