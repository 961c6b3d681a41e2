/** Counting the positions of a sequence that hold a given value, and summing a
    sequence of naturals, with how one update changes each. */
module Counting {
  function Count<T(==)>(xs: seq<T>, x: T): (n: nat)
    ensures n <= |xs|
  {
    if xs == [] then 0 else (if xs[0] == x then 1 else 0) + Count(xs[1..], x)
  }

  lemma {:induction false} CountUpdate<T>(xs: seq<T>, i: nat, v: T, x: T)
    requires i < |xs|
    ensures Count(xs[i := v], x) == Count(xs, x) - (if xs[i] == x then 1 else 0) + (if v == x then 1 else 0)
  {
    if i == 0 {
      assert xs[i := v][1..] == xs[1..];
    } else {
      assert xs[i := v][1..] == xs[1..][i - 1 := v];
      CountUpdate(xs[1..], i - 1, v, x);
    }
  }

  lemma {:induction false} CountZero<T>(xs: seq<T>, x: T, i: nat)
    requires Count(xs, x) == 0 && i < |xs|
    ensures xs[i] != x
  {
    if i > 0 { CountZero(xs[1..], x, i - 1); }
  }

  lemma {:induction false} CountAll<T>(xs: seq<T>, x: T)
    requires forall i :: 0 <= i < |xs| ==> xs[i] == x
    ensures Count(xs, x) == |xs|
  {
    if xs != [] { CountAll(xs[1..], x); }
  }

  /** Two different values together occupy at most every position. */
  lemma {:induction false} CountTwo<T>(xs: seq<T>, x: T, y: T)
    requires x != y
    ensures Count(xs, x) + Count(xs, y) <= |xs|
  {
    if xs != [] { CountTwo(xs[1..], x, y); }
  }

  /** A value present at `i` is counted. */
  lemma {:induction false} CountPositive<T>(xs: seq<T>, x: T, i: nat)
    requires i < |xs| && xs[i] == x
    ensures Count(xs, x) > 0
  {
    if i > 0 { CountPositive(xs[1..], x, i - 1); }
  }

  function Sum(xs: seq<nat>): nat
  {
    if xs == [] then 0 else xs[0] + Sum(xs[1..])
  }

  lemma {:induction false} SumUpdate(xs: seq<nat>, i: nat, v: nat)
    requires i < |xs|
    ensures Sum(xs[i := v]) == Sum(xs) - xs[i] + v
  {
    if i == 0 {
      assert xs[i := v][1..] == xs[1..];
    } else {
      assert xs[i := v][1..] == xs[1..][i - 1 := v];
      SumUpdate(xs[1..], i - 1, v);
    }
  }

  lemma {:induction false} SumZero(xs: seq<nat>, i: nat)
    requires Sum(xs) == 0 && i < |xs|
    ensures xs[i] == 0
  {
    if i > 0 { SumZero(xs[1..], i - 1); }
  }
}
