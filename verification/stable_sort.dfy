/** A stable comparison sort over an opaque element type.  Rust's
    `slice::sort_by` is a stable sort whose result, for a comparator that is a
    total preorder, is the unique stable sorted permutation of its input
    (`StableSortUnique`).  Insertion sort computes that same permutation, so
    it stands in for Rust's driftsort here; for an inconsistent comparator
    only its permutation property carries over. */
module StableSort {
  import opened Orderings

  /** How many leading elements of `ys` compare Greater than `x`: inserting
      `x` there keeps it ahead of every element it compares Equal to. */
  function InsertPos<T>(x: T, ys: seq<T>, cmp: (T, T) -> Ordering): (j: nat)
    ensures j <= |ys|
    ensures forall i :: 0 <= i < j ==> cmp(x, ys[i]) == Greater
    ensures j < |ys| ==> cmp(x, ys[j]) != Greater
  {
    if |ys| == 0 || cmp(x, ys[0]) != Greater then 0
    else 1 + InsertPos(x, ys[1..], cmp)
  }

  function Insert<T>(x: T, ys: seq<T>, cmp: (T, T) -> Ordering): (r: seq<T>)
    ensures |r| == |ys| + 1
    ensures multiset(r) == multiset(ys) + multiset{x}
  {
    var j := InsertPos(x, ys, cmp);
    assert ys == ys[..j] + ys[j..];
    ys[..j] + [x] + ys[j..]
  }

  /** Sorts `s` by `cmp`: the result is a rearrangement of `s` whatever `cmp`
      answers, and is sorted when `cmp` is a total preorder (`SortSorted`). */
  function Sort<T>(s: seq<T>, cmp: (T, T) -> Ordering): (r: seq<T>)
    ensures |r| == |s|
    ensures multiset(r) == multiset(s)
  {
    if |s| == 0 then []
    else
      assert s == [s[0]] + s[1..];
      Insert(s[0], Sort(s[1..], cmp), cmp)
  }

  lemma InsertSorted<T(!new)>(x: T, ys: seq<T>, cmp: (T, T) -> Ordering)
    requires TotalPreorder(cmp)
    requires Sorted(ys, cmp)
    ensures Sorted(Insert(x, ys, cmp), cmp)
  {
    var j := InsertPos(x, ys, cmp);
    var r := Insert(x, ys, cmp);
    InsertLayout(x, ys, cmp);
    forall a, b | 0 <= a < b < |r|
      ensures NotAfter(cmp, r[a], r[b])
    {
      if b < j {
        assert r[a] == ys[a] && r[b] == ys[b];
      } else if j < a {
        assert r[a] == ys[a - 1] && r[b] == ys[b - 1];
      } else if b == j {
        assert r[a] == ys[a];
        FlipAt(cmp, x, ys[a]);
      } else if a == j {
        assert r[b] == ys[b - 1];
        if j < b - 1 {
          assert NotAfter(cmp, ys[j], ys[b - 1]);
        }
      } else {
        assert r[a] == ys[a] && r[b] == ys[b - 1];
      }
    }
  }

  lemma {:induction false} SortSorted<T(!new)>(s: seq<T>, cmp: (T, T) -> Ordering)
    requires TotalPreorder(cmp)
    ensures Sorted(Sort(s, cmp), cmp)
  {
    if |s| > 0 {
      SortSorted(s[1..], cmp);
      InsertSorted(s[0], Sort(s[1..], cmp), cmp);
    }
  }

  /** For a total preorder, an input in which no element compares Greater
      than its successor is already sorted, and comes back unchanged (as it
      would from any stable sort). */
  lemma {:induction false} SortKeepsSortedInput<T(!new)>(s: seq<T>, cmp: (T, T) -> Ordering)
    requires TotalPreorder(cmp)
    requires AdjacentSorted(s, cmp)
    ensures Sort(s, cmp) == s
  {
    if |s| > 0 {
      var tail := s[1..];
      AdjacentSortedTail(s, cmp);
      SortKeepsSortedInput(tail, cmp);
      assert Sort(s, cmp) == Insert(s[0], tail, cmp);
      InsertAtFront(s[0], tail, cmp);
      assert s == [s[0]] + tail;
    }
  }

  /** Elements that all compare Equal with one another keep their input
      order: the comparator is then constant on them, a total preorder on
      the only values a sort ever passes it. */
  lemma {:induction false} SortKeepsAllEqual<T>(s: seq<T>, cmp: (T, T) -> Ordering)
    requires forall i, j :: 0 <= i < |s| && 0 <= j < |s| ==> cmp(s[i], s[j]) == Equal
    ensures Sort(s, cmp) == s
  {
    if |s| > 0 {
      var tail := s[1..];
      forall i, j | 0 <= i < |tail| && 0 <= j < |tail|
        ensures cmp(tail[i], tail[j]) == Equal
      {
        assert tail[i] == s[i + 1] && tail[j] == s[j + 1];
      }
      SortKeepsAllEqual(tail, cmp);
      assert Sort(s, cmp) == Insert(s[0], tail, cmp);
      assert |tail| > 0 ==> tail[0] == s[1];
      InsertAtFront(s[0], tail, cmp);
      assert s == [s[0]] + tail;
    }
  }

  lemma AdjacentSortedTail<T>(s: seq<T>, cmp: (T, T) -> Ordering)
    requires AdjacentSorted(s, cmp) && |s| > 0
    ensures AdjacentSorted(s[1..], cmp)
    ensures |s| > 1 ==> NotAfter(cmp, s[0], s[1..][0])
  {
    var tail := s[1..];
    forall i | 0 <= i < |tail| - 1
      ensures NotAfter(cmp, tail[i], tail[i + 1])
    {
      assert tail[i] == s[i + 1] && tail[i + 1] == s[i + 2];
    }
  }

  /** An element not after the head of `ys` is inserted in front. */
  lemma InsertAtFront<T>(x: T, ys: seq<T>, cmp: (T, T) -> Ordering)
    requires |ys| == 0 || NotAfter(cmp, x, ys[0])
    ensures Insert(x, ys, cmp) == [x] + ys
  {
    assert InsertPos(x, ys, cmp) == 0;
    assert ys[..0] == [] && ys[0..] == ys;
  }

  // ---------------------------------------------------------------------
  // Stability, stated on elements tagged with their input position (the
  // source pairs every element with its index before sorting).

  type Tagged<T> = (T, nat)

  /** Compares tagged elements by their payload only, ignoring the tag. */
  function Lift<T>(cmp: (T, T) -> Ordering): (Tagged<T>, Tagged<T>) -> Ordering {
    (x: Tagged<T>, y: Tagged<T>) => cmp(x.0, y.0)
  }

  /** Pairs every element with its position: the tags strictly increase,
      and dropping them gives the input back. */
  function Tag<T>(s: seq<T>): (ts: seq<Tagged<T>>)
    ensures Untag(ts) == s
    ensures TagsIncreasing(ts)
  {
    seq(|s|, i requires 0 <= i < |s| => (s[i], i))
  }

  /** Drops the tags. */
  function Untag<T>(ts: seq<Tagged<T>>): (s: seq<T>)
    ensures |s| == |ts|
  {
    seq(|ts|, i requires 0 <= i < |ts| => ts[i].0)
  }

  ghost predicate TagsIncreasing<T>(ts: seq<Tagged<T>>) {
    forall i, j :: 0 <= i < j < |ts| ==> ts[i].1 < ts[j].1
  }

  /** Elements that compare Equal keep the relative order of their tags. */
  ghost predicate Stable<T>(ts: seq<Tagged<T>>, cmp: (T, T) -> Ordering) {
    forall i, j :: 0 <= i < j < |ts| && cmp(ts[i].0, ts[j].0) == Equal ==> ts[i].1 < ts[j].1
  }

  lemma LiftPreservesTotalPreorder<T(!new)>(cmp: (T, T) -> Ordering)
    requires TotalPreorder(cmp)
    ensures TotalPreorder(Lift(cmp))
  {
    var l := Lift(cmp);
    forall x: Tagged<T>, y: Tagged<T>
      ensures l(y, x) == Flip(l(x, y))
    {
      assert l(y, x) == cmp(y.0, x.0) && l(x, y) == cmp(x.0, y.0);
    }
    forall x: Tagged<T>, y: Tagged<T>, z: Tagged<T> | NotAfter(l, x, y) && NotAfter(l, y, z)
      ensures NotAfter(l, x, z)
    {
      assert NotAfter(cmp, x.0, y.0) && NotAfter(cmp, y.0, z.0);
    }
  }

  /** Where each element of `ys`, and `x`, ends up after the insertion. */
  lemma InsertLayout<T>(x: T, ys: seq<T>, cmp: (T, T) -> Ordering)
    ensures var j, r := InsertPos(x, ys, cmp), Insert(x, ys, cmp);
      && r[j] == x
      && (forall k :: 0 <= k < j ==> r[k] == ys[k])
      && (forall k :: j < k < |r| ==> r[k] == ys[k - 1])
  {
  }

  lemma InsertStable<T(!new)>(x: Tagged<T>, ys: seq<Tagged<T>>, cmp: (T, T) -> Ordering)
    requires TotalPreorder(cmp)
    requires Stable(ys, cmp)
    requires forall k :: 0 <= k < |ys| ==> x.1 < ys[k].1
    ensures Stable(Insert(x, ys, Lift(cmp)), cmp)
  {
    var j := InsertPos(x, ys, Lift(cmp));
    var r := Insert(x, ys, Lift(cmp));
    InsertLayout(x, ys, Lift(cmp));
    forall a, b | 0 <= a < b < |r| && cmp(r[a].0, r[b].0) == Equal
      ensures r[a].1 < r[b].1
    {
      if b < j {
        assert r[a] == ys[a] && r[b] == ys[b];
      } else if j < a {
        assert r[a] == ys[a - 1] && r[b] == ys[b - 1];
      } else if b == j {
        assert false;
      } else if a == j {
        assert r[b] == ys[b - 1];
      } else {
        assert r[a] == ys[a] && r[b] == ys[b - 1];
      }
    }
  }

  /** Sorting position-tagged input keeps Equal elements in input order. */
  lemma {:induction false} SortStable<T(!new)>(ts: seq<Tagged<T>>, cmp: (T, T) -> Ordering)
    requires TotalPreorder(cmp)
    requires TagsIncreasing(ts)
    ensures Stable(Sort(ts, Lift(cmp)), cmp)
  {
    if |ts| > 0 {
      var tail := ts[1..];
      SortStable(tail, cmp);
      var rest := Sort(tail, Lift(cmp));
      forall k | 0 <= k < |rest|
        ensures ts[0].1 < rest[k].1
      {
        assert rest[k] in multiset(rest);
        assert rest[k] in multiset(tail);
        var m :| 0 <= m < |tail| && tail[m] == rest[k];
        assert tail[m] == ts[m + 1];
      }
      InsertStable(ts[0], rest, cmp);
    }
  }

  lemma {:induction false} UntagInsertPos<T>(x: Tagged<T>, ys: seq<Tagged<T>>, cmp: (T, T) -> Ordering)
    ensures InsertPos(x, ys, Lift(cmp)) == InsertPos(x.0, Untag(ys), cmp)
  {
    if |ys| > 0 {
      assert Untag(ys)[1..] == Untag(ys[1..]);
      assert Lift(cmp)(x, ys[0]) == cmp(x.0, Untag(ys)[0]);
      UntagInsertPos(x, ys[1..], cmp);
    }
  }

  lemma UntagInsert<T>(x: Tagged<T>, ys: seq<Tagged<T>>, cmp: (T, T) -> Ordering)
    ensures Untag(Insert(x, ys, Lift(cmp))) == Insert(x.0, Untag(ys), cmp)
  {
    UntagInsertPos(x, ys, cmp);
    var j := InsertPos(x, ys, Lift(cmp));
    var u := Untag(ys);
    var lhs := Untag(ys[..j] + [x] + ys[j..]);
    var rhs := u[..j] + [x.0] + u[j..];
    assert |lhs| == |rhs|;
    forall k | 0 <= k < |lhs|
      ensures lhs[k] == rhs[k]
    {
      if k < j {
      } else if k == j {
      } else {
        assert lhs[k] == ys[k - 1].0;
      }
    }
  }

  /** The tags ride along without influencing the order: sorting tagged
      elements and dropping the tags is sorting the elements themselves. */
  lemma {:induction false} UntagSort<T>(ts: seq<Tagged<T>>, cmp: (T, T) -> Ordering)
    ensures Untag(Sort(ts, Lift(cmp))) == Sort(Untag(ts), cmp)
  {
    if |ts| > 0 {
      var u := Untag(ts);
      var rest := Sort(ts[1..], Lift(cmp));
      assert u[1..] == Untag(ts[1..]);
      UntagSort(ts[1..], cmp);
      UntagInsert(ts[0], rest, cmp);
      assert Sort(ts, Lift(cmp)) == Insert(ts[0], rest, Lift(cmp));
      assert Sort(u, cmp) == Insert(u[0], Sort(u[1..], cmp), cmp);
    }
  }

  // ---------------------------------------------------------------------
  // Uniqueness: for a total preorder there is only one stable sorted
  // permutation, so any stable sort algorithm yields the same sequence.

  /** Sorted permutations of one another are equal when `cmp` never answers
      Equal for two different elements of them. */
  lemma {:induction false} SortedPermutationUnique<T(!new)>(a: seq<T>, b: seq<T>, cmp: (T, T) -> Ordering)
    requires TotalPreorder(cmp)
    requires Sorted(a, cmp) && Sorted(b, cmp)
    requires multiset(a) == multiset(b)
    requires forall x, y :: x in a && y in a && cmp(x, y) == Equal ==> x == y
    ensures a == b
  {
    if |a| == 0 {
      assert |multiset(b)| == 0;
    } else {
      SortedHeadsEqual(a, b, cmp);
      SortedTail(a, cmp);
      SortedTail(b, cmp);
      TailsPermutation(a, b);
      EqualOnlyIfSameInTail(a, cmp);
      SortedPermutationUnique(a[1..], b[1..], cmp);
      assert a == [a[0]] + a[1..] && b == [b[0]] + b[1..];
    }
  }

  lemma TailsPermutation<T>(a: seq<T>, b: seq<T>)
    requires |a| > 0 && |b| > 0 && a[0] == b[0]
    requires multiset(a) == multiset(b)
    ensures multiset(a[1..]) == multiset(b[1..])
  {
    assert a == [a[0]] + a[1..] && b == [b[0]] + b[1..];
    assert multiset(a[1..]) == multiset(a) - multiset{a[0]};
    assert multiset(b[1..]) == multiset(b) - multiset{b[0]};
  }

  lemma EqualOnlyIfSameInTail<T>(a: seq<T>, cmp: (T, T) -> Ordering)
    requires |a| > 0
    requires forall x, y :: x in a && y in a && cmp(x, y) == Equal ==> x == y
    ensures forall x, y :: x in a[1..] && y in a[1..] && cmp(x, y) == Equal ==> x == y
  {
    forall x, y | x in a[1..] && y in a[1..] && cmp(x, y) == Equal
      ensures x == y
    {
      assert x in a && y in a;
    }
  }

  lemma SortedTail<T>(s: seq<T>, cmp: (T, T) -> Ordering)
    requires Sorted(s, cmp) && |s| > 0
    ensures Sorted(s[1..], cmp)
  {
    var t := s[1..];
    forall i, j | 0 <= i < j < |t|
      ensures NotAfter(cmp, t[i], t[j])
    {
      assert t[i] == s[i + 1] && t[j] == s[j + 1];
    }
  }

  lemma SortedHeadsEqual<T(!new)>(a: seq<T>, b: seq<T>, cmp: (T, T) -> Ordering)
    requires TotalPreorder(cmp)
    requires Sorted(a, cmp) && Sorted(b, cmp)
    requires multiset(a) == multiset(b)
    requires forall x, y :: x in a && y in a && cmp(x, y) == Equal ==> x == y
    requires |a| > 0
    ensures |b| > 0 && a[0] == b[0]
  {
    assert a[0] in multiset(b);
    var j :| 0 <= j < |b| && b[j] == a[0];
    assert b[0] in multiset(a);
    var i :| 0 <= i < |a| && a[i] == b[0];
    FlipAt(cmp, a[0], a[0]);
    FlipAt(cmp, b[0], b[0]);
    FlipAt(cmp, a[0], b[0]);
    assert NotAfter(cmp, a[0], b[0]) by {
      if i > 0 { assert NotAfter(cmp, a[0], a[i]); }
    }
    assert NotAfter(cmp, b[0], a[0]) by {
      if j > 0 { assert NotAfter(cmp, b[0], b[j]); }
    }
    assert a[0] in a && b[0] in a;
  }

  /** Orders tagged elements by payload, then by tag. */
  function ThenByTag<T>(cmp: (T, T) -> Ordering): (Tagged<T>, Tagged<T>) -> Ordering {
    (x: Tagged<T>, y: Tagged<T>) =>
      if cmp(x.0, y.0) != Equal then cmp(x.0, y.0)
      else if x.1 < y.1 then Less
      else if x.1 > y.1 then Greater
      else Equal
  }

  lemma ThenByTagTotalPreorder<T(!new)>(cmp: (T, T) -> Ordering)
    requires TotalPreorder(cmp)
    ensures TotalPreorder(ThenByTag(cmp))
  {
    var t := ThenByTag(cmp);
    forall x: Tagged<T>, y: Tagged<T>
      ensures t(y, x) == Flip(t(x, y))
    {
      assert cmp(y.0, x.0) == Flip(cmp(x.0, y.0));
    }
    forall x: Tagged<T>, y: Tagged<T>, z: Tagged<T> | NotAfter(t, x, y) && NotAfter(t, y, z)
      ensures NotAfter(t, x, z)
    {
      assert NotAfter(cmp, x.0, y.0) && NotAfter(cmp, y.0, z.0);
      assert NotAfter(cmp, x.0, z.0);
      assert cmp(y.0, x.0) == Flip(cmp(x.0, y.0));
      assert cmp(z.0, y.0) == Flip(cmp(y.0, z.0));
      assert cmp(z.0, x.0) == Flip(cmp(x.0, z.0));
      if cmp(x.0, z.0) == Equal {
        assert NotAfter(cmp, z.0, x.0);
        assert NotAfter(cmp, y.0, x.0);
        assert NotAfter(cmp, z.0, y.0);
        assert cmp(x.0, y.0) == Equal && cmp(y.0, z.0) == Equal;
      }
    }
  }

  lemma SortedStableIsSortedByTag<T(!new)>(ts: seq<Tagged<T>>, cmp: (T, T) -> Ordering)
    requires Sorted(ts, Lift(cmp)) && Stable(ts, cmp)
    ensures Sorted(ts, ThenByTag(cmp))
  {
    forall i, j | 0 <= i < j < |ts|
      ensures NotAfter(ThenByTag(cmp), ts[i], ts[j])
    {
      assert NotAfter(Lift(cmp), ts[i], ts[j]);
    }
  }

  /** Any two stable sorted permutations of the same input, in which no two
      different elements carry the same tag, are the same sequence. */
  lemma StableSortUnique<T(!new)>(ts: seq<Tagged<T>>, us: seq<Tagged<T>>, cmp: (T, T) -> Ordering)
    requires TotalPreorder(cmp)
    requires forall x, y :: x in ts && y in ts && x.1 == y.1 ==> x == y
    requires multiset(ts) == multiset(us)
    requires Sorted(ts, Lift(cmp)) && Stable(ts, cmp)
    requires Sorted(us, Lift(cmp)) && Stable(us, cmp)
    ensures ts == us
  {
    var t := ThenByTag(cmp);
    ThenByTagTotalPreorder(cmp);
    SortedStableIsSortedByTag(ts, cmp);
    SortedStableIsSortedByTag(us, cmp);
    forall x, y | x in ts && y in ts && t(x, y) == Equal
      ensures x == y
    {
    }
    SortedPermutationUnique(ts, us, t);
  }
}
