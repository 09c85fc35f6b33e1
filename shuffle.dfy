/**
 * The Fisher-Yates shuffle the depth-first search applies to its four directions,
 * driven by a stream of pseudo-random numbers: the `k`-th call of `rand()` returns
 * `rand(k)`.
 */
module Shuffle {

  /** `s` with the elements at `i` and `j` exchanged. */
  function Swap<T>(s: seq<T>, i: nat, j: nat): (t: seq<T>)
    requires i < |s| && j < |s|
    ensures |t| == |s|
  {
    s[i := s[j]][j := s[i]]
  }

  /**
   * Positions `i` down to 1 of `s`, each exchanged with the position the next draw
   * picks among `0..i`; the draws are `rand(k)`, `rand(k + 1)`, and so on.
   */
  function FisherYates<T>(s: seq<T>, i: nat, rand: nat -> nat, k: nat): (t: seq<T>)
    requires i < |s|
    ensures |t| == |s|
    decreases i
  {
    if i == 0 then s
    else FisherYates(Swap(s, i, rand(k) % (i + 1)), i - 1, rand, k + 1)
  }

  lemma SwapPermutes<T>(s: seq<T>, i: nat, j: nat)
    requires i < |s| && j < |s|
    ensures multiset(Swap(s, i, j)) == multiset(s)
  {
    if i != j {
      var t := s[i := s[j]];
      assert multiset(t) == multiset(s) - multiset{s[i]} + multiset{s[j]};
      assert multiset(t[j := s[i]]) == multiset(t) - multiset{t[j]} + multiset{s[i]};
    }
  }

  /** Whatever numbers the generator returns, the shuffle only reorders. */
  lemma {:induction false} FisherYatesPermutes<T>(s: seq<T>, i: nat, rand: nat -> nat, k: nat)
    requires i < |s|
    ensures multiset(FisherYates(s, i, rand, k)) == multiset(s)
    decreases i
  {
    if i > 0 {
      var j := rand(k) % (i + 1);
      SwapPermutes(s, i, j);
      FisherYatesPermutes(Swap(s, i, j), i - 1, rand, k + 1);
    }
  }

  /** A shuffle of the four directions holds each of them exactly once. */
  lemma DirectionsShuffled(rand: nat -> nat, k: nat)
    ensures var p := FisherYates([0, 1, 2, 3], 3, rand, k);
            multiset(p) == multiset{0, 1, 2, 3} && forall m :: 0 <= m < 4 ==> 0 <= p[m] < 4
  {
    var p := FisherYates([0, 1, 2, 3], 3, rand, k);
    FisherYatesPermutes([0, 1, 2, 3], 3, rand, k);
    assert multiset([0, 1, 2, 3]) == multiset{0, 1, 2, 3};
    forall m | 0 <= m < 4
      ensures 0 <= p[m] < 4
    {
      assert p[m] in multiset(p);
    }
  }
  /** Each of the four directions appears somewhere in the shuffled order. */
  lemma DirectionsCovered(rand: nat -> nat, k: nat)
    ensures var p := FisherYates([0, 1, 2, 3], 3, rand, k);
            |p| == 4 && (forall d :: 0 <= d < 4 ==> d in p) && forall m :: 0 <= m < 4 ==> 0 <= p[m] < 4
  {
    DirectionsShuffled(rand, k);
    HoldsEach(FisherYates([0, 1, 2, 3], 3, rand, k));
  }

  /** A sequence holding 0, 1, 2 and 3 once each has four elements and contains each of them. */
  lemma HoldsEach(p: seq<int>)
    requires multiset(p) == multiset{0, 1, 2, 3}
    ensures |p| == 4 && forall d :: 0 <= d < 4 ==> d in p
  {
    assert |p| == |multiset(p)|;
    forall d | 0 <= d < 4
      ensures d in p
    {
      assert d in multiset(p);
    }
  }
}
