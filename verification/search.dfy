/**
 * The least-position search behind every leftmost or lazy regular-expression
 * choice the scripts make: try positions from `lo` upwards and keep the
 * first at which the rest of the pattern succeeds.
 */
module Search {
  import opened Optional

  /** A successful try: the position it was made at and what it produced. */
  datatype Found<T> = Found(at: nat, value: T)

  /** The first position in `[lo, hi]` at which `f` succeeds. */
  function Least<T>(f: nat -> Option<T>, lo: nat, hi: nat): (r: Option<Found<T>>)
    ensures r.Some? ==> lo <= r.value.at <= hi && f(r.value.at) == Some(r.value.value)
    decreases if lo <= hi then hi - lo + 1 else 0
  {
    if lo > hi then None
    else match f(lo)
      case Some(v) => Some(Found(lo, v))
      case None => Least(f, lo + 1, hi)
  }

  /** Every position before the one found fails. */
  lemma {:induction false} LeastFirst<T>(f: nat -> Option<T>, lo: nat, hi: nat, j: nat)
    requires Least(f, lo, hi).Some? && lo <= j < Least(f, lo, hi).value.at
    ensures f(j).None?
    decreases if lo <= hi then hi - lo + 1 else 0
  {
    if j > lo {
      LeastFirst(f, lo + 1, hi, j);
    }
  }

  /** A position in range where `f` succeeds bounds the one found; in particular the search cannot fail. */
  lemma {:induction false} LeastBelow<T>(f: nat -> Option<T>, lo: nat, hi: nat, j: nat)
    requires lo <= j <= hi && f(j).Some?
    ensures Least(f, lo, hi).Some? && Least(f, lo, hi).value.at <= j
    decreases j - lo
  {
    if f(lo).None? {
      LeastBelow(f, lo + 1, hi, j);
    }
  }

  /** The search fails exactly when every position in range fails. */
  lemma LeastNone<T>(f: nat -> Option<T>, lo: nat, hi: nat)
    ensures Least(f, lo, hi).None? <==> forall j :: lo <= j <= hi ==> f(j).None?
  {
    if Least(f, lo, hi).None? {
      forall j | lo <= j <= hi
        ensures f(j).None?
      {
        if f(j).Some? {
          LeastBelow(f, lo, hi, j);
        }
      }
    }
  }

  /** Positions known to fail can be skipped. */
  lemma {:induction false} LeastSkip<T>(f: nat -> Option<T>, lo: nat, mid: nat, hi: nat)
    requires lo <= mid && forall j :: lo <= j < mid ==> f(j).None?
    ensures Least(f, lo, hi) == Least(f, mid, hi)
    decreases mid - lo
  {
    if lo < mid {
      LeastSkip(f, lo + 1, mid, hi);
    }
  }

  /** A search that succeeds at its first position stops there. */
  lemma LeastHere<T>(f: nat -> Option<T>, lo: nat, hi: nat)
    requires lo <= hi && f(lo).Some?
    ensures Least(f, lo, hi) == Some(Found(lo, f(lo).value))
  {
  }

  /** A search that fails up to `mid` and succeeds there finds `mid`. */
  lemma LeastAt<T>(f: nat -> Option<T>, lo: nat, mid: nat, hi: nat)
    requires lo <= mid <= hi && f(mid).Some?
    requires forall j :: lo <= j < mid ==> f(j).None?
    ensures Least(f, lo, hi) == Some(Found(mid, f(mid).value))
  {
    LeastSkip(f, lo, mid, hi);
  }
}
