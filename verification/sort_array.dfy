/** `sort_array`: sorts a JS array with a caller-supplied JS predicate.  Each
    element is paired with its index, the pairs are sorted with Rust's stable
    `sort_by`, and the elements are copied out in the new order.  The
    predicate's answer is turned into an `Ordering` by its sign; a thrown
    exception, a non-number, NaN and zero all become `Equal`, so the sort
    itself never fails. */
module SortArray {
  import opened Orderings
  import opened JsValues
  import opened StableSort

  /** The comparator bridge: the sign of the predicate's numeric answer. */
  function ToOrdering(outcome: CallOutcome): (o: Ordering)
    ensures outcome.Threw? ==> o == Equal
    ensures outcome.Returned? && !outcome.value.JsNumber? ==> o == Equal
    ensures outcome == Returned(JsNumber(NaN)) ==> o == Equal
    ensures outcome == Returned(JsNumber(NegInfinity)) ==> o == Less
    ensures outcome == Returned(JsNumber(PosInfinity)) ==> o == Greater
    ensures forall x: real :: outcome == Returned(JsNumber(Finite(x))) ==>
      (o == Less <==> x < 0.0) && (o == Greater <==> x > 0.0)
  {
    match outcome
    case Returned(val) =>
      (match AsF64(val)
       case Some(num) =>
         if F64Less(num, Zero) then Less
         else if F64Less(Zero, num) then Greater
         else Equal
       case None => Equal)
    case Threw(_) => Equal
  }

  /** The closure handed to `sort_by`: calls the predicate and bridges. */
  function Bridge<T>(pred: (T, T) -> CallOutcome): (T, T) -> Ordering {
    (a: T, b: T) => ToOrdering(pred(a, b))
  }

  /** The `(element, index)` items after `items.sort_by(...)`. */
  function SortItems<T>(values: seq<T>, pred: (T, T) -> CallOutcome): (items: seq<Tagged<T>>)
    ensures |items| == |values|
    ensures multiset(items) == multiset(Tag(values))
  {
    Sort(Tag(values), Lift(Bridge(pred)))
  }

  /** The whole entry point: always `Ok`, and the result is a rearrangement
      of the input, whatever the predicate does. */
  function SortArray<T>(values: seq<T>, pred: (T, T) -> CallOutcome): (r: Result<seq<T>, JsValue>)
    ensures r.Ok?
    ensures |r.value| == |values|
    ensures multiset(r.value) == multiset(values)
  {
    UntagSort(Tag(values), Bridge(pred));
    Ok(Untag(SortItems(values, pred)))
  }

  /** Dropping the index tags, the items are the input sorted directly. */
  lemma SortArrayIsSort<T>(values: seq<T>, pred: (T, T) -> CallOutcome)
    ensures SortArray(values, pred).value == Sort(values, Bridge(pred))
  {
    UntagSort(Tag(values), Bridge(pred));
  }

  /** With a consistent predicate, no element is followed by one it puts
      before itself, neither a neighbour nor any later element. */
  lemma SortArraySorted<T(!new)>(values: seq<T>, pred: (T, T) -> CallOutcome)
    requires TotalPreorder(Bridge(pred))
    ensures Sorted(SortArray(values, pred).value, Bridge(pred))
    ensures AdjacentSorted(SortArray(values, pred).value, Bridge(pred))
  {
    SortArrayIsSort(values, pred);
    SortSorted(values, Bridge(pred));
    AdjacentSortedIsSorted(SortArray(values, pred).value, Bridge(pred));
  }

  /** With a consistent predicate, elements it calls equal come out in their
      input order: the index carried by each item only increases across a
      run of Equal elements. */
  lemma SortArrayStable<T(!new)>(values: seq<T>, pred: (T, T) -> CallOutcome)
    requires TotalPreorder(Bridge(pred))
    ensures var items := SortItems(values, pred);
      && Untag(items) == SortArray(values, pred).value
      && Sorted(items, Lift(Bridge(pred)))
      && Stable(items, Bridge(pred))
  {
    LiftPreservesTotalPreorder(Bridge(pred));
    SortSorted(Tag(values), Lift(Bridge(pred)));
    SortStable(Tag(values), Bridge(pred));
  }

  /** With a consistent predicate the result does not depend on the sorting
      algorithm: every stable sorted rearrangement of the indexed items is
      the one computed here. */
  lemma SortArrayUnique<T(!new)>(values: seq<T>, pred: (T, T) -> CallOutcome, other: seq<Tagged<T>>)
    requires TotalPreorder(Bridge(pred))
    requires multiset(other) == multiset(Tag(values))
    requires Sorted(other, Lift(Bridge(pred))) && Stable(other, Bridge(pred))
    ensures other == SortItems(values, pred)
  {
    var items := SortItems(values, pred);
    SortArrayStable(values, pred);
    forall x, y | x in items && y in items && x.1 == y.1
      ensures x == y
    {
      assert x in multiset(Tag(values)) && y in multiset(Tag(values));
    }
    StableSortUnique(items, other, Bridge(pred));
  }

  /** With a consistent predicate, an array it never reorders between
      neighbours is already sorted and comes back unchanged. */
  lemma SortArrayKeepsSortedInput<T(!new)>(values: seq<T>, pred: (T, T) -> CallOutcome)
    requires TotalPreorder(Bridge(pred))
    requires AdjacentSorted(values, Bridge(pred))
    ensures SortArray(values, pred).value == values
  {
    SortArrayIsSort(values, pred);
    SortKeepsSortedInput(values, Bridge(pred));
  }

  /** A predicate that throws, or answers with something other than a
      number, for every pair of elements in either order makes them all
      compare Equal, so the array comes back as it was instead of the sort
      aborting. */
  lemma SortArrayIgnoresFailingPredicate<T>(values: seq<T>, pred: (T, T) -> CallOutcome)
    requires forall i, j :: 0 <= i < |values| && 0 <= j < |values| ==>
      pred(values[i], values[j]).Threw? || !pred(values[i], values[j]).value.JsNumber?
    ensures SortArray(values, pred).value == values
  {
    forall i, j | 0 <= i < |values| && 0 <= j < |values|
      ensures Bridge(pred)(values[i], values[j]) == Equal
    {
      assert Bridge(pred)(values[i], values[j]) == ToOrdering(pred(values[i], values[j]));
    }
    SortArrayIsSort(values, pred);
    SortKeepsAllEqual(values, Bridge(pred));
  }

  /** The usual `(a, b) => key(a) - key(b)` predicate is consistent, and the
      array comes back in non-decreasing key order. */
  lemma KeyPredicateSortsByKey<T(!new)>(values: seq<T>, pred: (T, T) -> CallOutcome, key: T -> real)
    requires forall a, b :: pred(a, b) == Returned(JsNumber(Finite(key(a) - key(b))))
    ensures TotalPreorder(Bridge(pred))
    ensures var r := SortArray(values, pred).value;
      forall i, j :: 0 <= i < j < |r| ==> key(r[i]) <= key(r[j])
  {
    var cmp := Bridge(pred);
    forall a, b
      ensures cmp(a, b) == (if key(a) < key(b) then Less else if key(a) > key(b) then Greater else Equal)
    {
      assert cmp(a, b) == ToOrdering(Returned(JsNumber(Finite(key(a) - key(b)))));
    }
    SortArraySorted(values, pred);
    var r := SortArray(values, pred).value;
    forall i, j | 0 <= i < j < |r|
      ensures key(r[i]) <= key(r[j])
    {
      assert NotAfter(cmp, r[i], r[j]);
    }
  }
}
