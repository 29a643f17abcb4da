/** Sequence helpers that stand for the JavaScript array library calls the
    controllers use: `find` / `findIndex` and `filter`. */
module Seqs {
  import opened Outcome

  /** Index of the first element satisfying `p`, as `Array.prototype.findIndex`
      (None where it returns -1). */
  function FirstWhere<T>(s: seq<T>, p: T -> bool): (r: Option<nat>)
    ensures r.Some? ==> r.value < |s| && p(s[r.value])
    ensures r.Some? ==> forall j :: 0 <= j < r.value ==> !p(s[j])
    ensures r.None? <==> forall j :: 0 <= j < |s| ==> !p(s[j])
  {
    if s == [] then None
    else if p(s[0]) then Some(0)
    else match FirstWhere(s[1..], p)
      case None => None
      case Some(k) => Some(k + 1)
  }

  /** An element satisfying p with none before it is the one FirstWhere finds. */
  lemma FirstWhereAt<T>(s: seq<T>, p: T -> bool, k: nat)
    requires k < |s| && p(s[k])
    requires forall j :: 0 <= j < k ==> !p(s[j])
    ensures FirstWhere(s, p) == Some(k)
  {
  }

  /** `a` is `b` with some elements deleted, order kept. */
  predicate IsSubsequence<T(==)>(a: seq<T>, b: seq<T>)
    decreases |b|
  {
    if a == [] then true
    else if b == [] then false
    else (a[0] == b[0] && IsSubsequence(a[1..], b[1..])) || IsSubsequence(a, b[1..])
  }

  /** `Array.prototype.filter`. */
  function Filter<T(==,!new)>(xs: seq<T>, keep: T -> bool): (r: seq<T>)
    ensures IsSubsequence(r, xs)
    ensures forall x :: x in r <==> x in xs && keep(x)
    ensures |r| <= |xs|
    ensures forall x :: multiset(r)[x] == if keep(x) then multiset(xs)[x] else 0
  {
    if xs == [] then []
    else
      var rest := Filter(xs[1..], keep);
      assert xs == [xs[0]] + xs[1..];
      if keep(xs[0]) then [xs[0]] + rest else rest
  }

  /** Filtering by two predicates that agree everywhere gives the same list. */
  lemma {:induction false} FilterSame<T(!new)>(xs: seq<T>, a: T -> bool, b: T -> bool)
    requires forall x :: a(x) == b(x)
    ensures Filter(xs, a) == Filter(xs, b)
  {
    if xs != [] {
      FilterSame(xs[1..], a, b);
    }
  }

  /** Filtering keeps everything when the predicate holds everywhere. */
  lemma {:induction false} FilterAll<T(!new)>(xs: seq<T>, keep: T -> bool)
    requires forall x :: x in xs ==> keep(x)
    ensures Filter(xs, keep) == xs
  {
    if xs != [] {
      FilterAll(xs[1..], keep);
    }
  }

  /** Two successive filters are one filter by the conjunction. */
  lemma {:induction false} FilterFilter<T(!new)>(xs: seq<T>, a: T -> bool, b: T -> bool, both: T -> bool)
    requires forall x :: both(x) == (a(x) && b(x))
    ensures Filter(Filter(xs, a), b) == Filter(xs, both)
  {
    if xs != [] {
      FilterFilter(xs[1..], a, b, both);
      var rest := Filter(xs[1..], a);
      if a(xs[0]) {
        assert Filter(xs, a) == [xs[0]] + rest;
        assert ([xs[0]] + rest)[1..] == rest;
      }
    }
  }
}
