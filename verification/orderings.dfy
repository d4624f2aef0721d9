/** Three-way comparison results and the properties a comparator needs for
    a sort to be well defined (the contract of Rust's `Ord`/`sort_by`). */
module Orderings {

  /** Rust's `std::cmp::Ordering`. */
  datatype Ordering = Less | Equal | Greater

  /** The discriminant Rust gives each variant (`Less = -1`, `Equal = 0`,
      `Greater = 1`). */
  function Sign(o: Ordering): int {
    match o
    case Less => -1
    case Equal => 0
    case Greater => 1
  }

  /** The result of comparing the same two values in the opposite order
      (`Ordering::reverse`): it negates the discriminant. */
  function Flip(o: Ordering): (r: Ordering)
    ensures Sign(r) == -Sign(o)
  {
    match o
    case Less => Greater
    case Equal => Equal
    case Greater => Less
  }

  /** `a` may stay ahead of `b` in a sorted output. */
  predicate NotAfter<T>(cmp: (T, T) -> Ordering, a: T, b: T) {
    cmp(a, b) != Greater
  }

  /** A comparator that describes a consistent total preorder: swapping the
      arguments flips the answer, and "not after" is transitive.  This is
      what Rust's `sort_by` asks of its closure. */
  ghost predicate TotalPreorder<T(!new)>(cmp: (T, T) -> Ordering) {
    && (forall a, b :: cmp(b, a) == Flip(cmp(a, b)))
    && (forall a, b, c :: NotAfter(cmp, a, b) && NotAfter(cmp, b, c) ==> NotAfter(cmp, a, c))
  }

  lemma FlipAt<T(!new)>(cmp: (T, T) -> Ordering, a: T, b: T)
    requires TotalPreorder(cmp)
    ensures cmp(b, a) == Flip(cmp(a, b))
  {
  }

  /** Every element is "not after" every later one. */
  ghost predicate Sorted<T>(s: seq<T>, cmp: (T, T) -> Ordering) {
    forall i, j :: 0 <= i < j < |s| ==> NotAfter(cmp, s[i], s[j])
  }

  /** Every element is "not after" the next one; under a total preorder this
      is the same as `Sorted` (see `AdjacentSortedIsSorted`). */
  ghost predicate AdjacentSorted<T>(s: seq<T>, cmp: (T, T) -> Ordering) {
    forall i :: 0 <= i < |s| - 1 ==> NotAfter(cmp, s[i], s[i + 1])
  }

  lemma {:induction false} AdjacentSortedIsSorted<T(!new)>(s: seq<T>, cmp: (T, T) -> Ordering)
    requires TotalPreorder(cmp)
    ensures AdjacentSorted(s, cmp) <==> Sorted(s, cmp)
  {
    if AdjacentSorted(s, cmp) {
      forall i, j | 0 <= i < j < |s|
        ensures NotAfter(cmp, s[i], s[j])
      {
        AdjacentChain(s, cmp, i, j);
      }
    }
  }

  lemma {:induction false} AdjacentChain<T(!new)>(s: seq<T>, cmp: (T, T) -> Ordering, i: nat, j: nat)
    requires TotalPreorder(cmp) && AdjacentSorted(s, cmp)
    requires i < j < |s|
    ensures NotAfter(cmp, s[i], s[j])
    decreases j - i
  {
    if i + 1 < j {
      AdjacentChain(s, cmp, i + 1, j);
      assert NotAfter(cmp, s[i], s[i + 1]);
    }
  }

  /** Sorting with the reversed comparator `|a, b| b.cmp(a)`. */
  function Reverse<T>(cmp: (T, T) -> Ordering): (T, T) -> Ordering {
    (a: T, b: T) => cmp(b, a)
  }

  lemma ReversePreservesTotalPreorder<T(!new)>(cmp: (T, T) -> Ordering)
    requires TotalPreorder(cmp)
    ensures TotalPreorder(Reverse(cmp))
  {
    var rev := Reverse(cmp);
    forall a, b, c | NotAfter(rev, a, b) && NotAfter(rev, b, c)
      ensures NotAfter(rev, a, c)
    {
      assert rev(a, b) == cmp(b, a) && rev(b, c) == cmp(c, b) && rev(a, c) == cmp(c, a);
      assert NotAfter(cmp, c, b) && NotAfter(cmp, b, a);
    }
  }
}
