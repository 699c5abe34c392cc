/** Concatenating what a step yields for each element of a sequence, in order. */
module Folds {

  function ConcatMap<T, U>(f: T -> seq<U>, xs: seq<T>): seq<U>
    decreases |xs|
  {
    if |xs| == 0 then [] else f(xs[0]) + ConcatMap(f, xs[1..])
  }

  /** Everything yielded for an element is in the concatenation. */
  lemma {:induction false} ConcatMapHas<T, U>(f: T -> seq<U>, xs: seq<T>, j: nat, b: U)
    requires j < |xs| && b in f(xs[j])
    ensures b in ConcatMap(f, xs)
    decreases j
  {
    if j > 0 {
      assert xs[1..][j - 1] == xs[j];
      ConcatMapHas(f, xs[1..], j - 1, b);
    }
  }

  /** Everything in the concatenation was yielded for some element. */
  lemma {:induction false} ConcatMapFrom<T, U>(f: T -> seq<U>, xs: seq<T>, b: U) returns (j: nat)
    requires b in ConcatMap(f, xs)
    ensures j < |xs| && b in f(xs[j])
    decreases |xs|
  {
    if b in f(xs[0]) {
      j := 0;
    } else {
      var k := ConcatMapFrom(f, xs[1..], b);
      j := k + 1;
      assert xs[1..][k] == xs[j];
    }
  }

  /** The concatenation over a split sequence is the concatenation of the two parts. */
  lemma {:induction false} ConcatMapAppend<T, U>(f: T -> seq<U>, xs: seq<T>, ys: seq<T>)
    ensures ConcatMap(f, xs + ys) == ConcatMap(f, xs) + ConcatMap(f, ys)
    decreases |xs|
  {
    if |xs| > 0 {
      assert (xs + ys)[1..] == xs[1..] + ys;
      ConcatMapAppend(f, xs[1..], ys);
    } else {
      assert xs + ys == ys;
    }
  }
}
