/** Weighted counts over sequences, used to count the threads at a set of program points. */
module Sums {

  /** A weight per element, added up over a sequence. */
  function Sum<T>(xs: seq<T>, weight: T -> nat): nat {
    if xs == [] then 0 else weight(xs[0]) + Sum(xs[1..], weight)
  }

  /** Replacing one element changes the sum by the difference of the two weights. */
  lemma {:induction false} SumUpdate<T>(xs: seq<T>, i: nat, x: T, weight: T -> nat)
    requires i < |xs|
    ensures Sum(xs[i := x], weight) + weight(xs[i]) == Sum(xs, weight) + weight(x)
  {
    if i == 0 {
      assert xs[0 := x][1..] == xs[1..];
    } else {
      assert xs[i := x][1..] == xs[1..][i - 1 := x];
      SumUpdate(xs[1..], i - 1, x, weight);
    }
  }

  /** No element weighs more than the whole. */
  lemma {:induction false} SumBoundsElement<T>(xs: seq<T>, i: nat, weight: T -> nat)
    requires i < |xs|
    ensures weight(xs[i]) <= Sum(xs, weight)
  {
    if i > 0 {
      SumBoundsElement(xs[1..], i - 1, weight);
    }
  }

  /** A positive sum has a positive element. */
  lemma {:induction false} SumHasWitness<T>(xs: seq<T>, weight: T -> nat) returns (i: nat)
    requires Sum(xs, weight) > 0
    ensures i < |xs| && weight(xs[i]) > 0
  {
    if weight(xs[0]) > 0 {
      i := 0;
    } else {
      var j := SumHasWitness(xs[1..], weight);
      i := j + 1;
    }
  }

  /** A sum in which every element weighs nothing is zero. */
  lemma {:induction false} SumOfZeros<T>(xs: seq<T>, weight: T -> nat)
    requires forall i :: 0 <= i < |xs| ==> weight(xs[i]) == 0
    ensures Sum(xs, weight) == 0
  {
    if xs != [] {
      SumOfZeros(xs[1..], weight);
    }
  }

  /** A bound on every weight bounds the sum. */
  lemma {:induction false} SumAtMost<T>(xs: seq<T>, weight: T -> nat, bound: nat)
    requires forall i :: 0 <= i < |xs| ==> weight(xs[i]) <= bound
    ensures Sum(xs, weight) <= bound * |xs|
  {
    if xs != [] {
      SumAtMost(xs[1..], weight, bound);
    }
  }
}
