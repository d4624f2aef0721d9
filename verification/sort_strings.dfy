/** `sort_strings`: keeps the string elements of a JS array, in order, and
    sorts them with Rust's `String` ordering, ascending (`sort`) or descending
    (`sort_by(|a, b| b.cmp(a))`).  Elements that are not strings are dropped. */
module SortStrings {
  import opened Orderings
  import opened JsValues
  import opened StableSort

  /** `Ord for String`: byte-wise lexicographic order on the UTF-8 bytes,
      a proper prefix sorting first. */
  function CompareBytes(a: seq<byte>, b: seq<byte>): Ordering {
    if |a| == 0 && |b| == 0 then Equal
    else if |a| == 0 then Less
    else if |b| == 0 then Greater
    else if a[0] < b[0] then Less
    else if a[0] > b[0] then Greater
    else CompareBytes(a[1..], b[1..])
  }

  /** The textbook definition: `a` comes first when it is a proper prefix of
      `b`, or when the first byte where they differ is smaller in `a`. */
  ghost predicate LexLess(a: seq<byte>, b: seq<byte>) {
    || (|a| < |b| && a == b[..|a|])
    || (exists k :: 0 <= k < |a| && k < |b| && a[..k] == b[..k] && a[k] < b[k])
  }

  lemma CompareBytesLess(a: seq<byte>, b: seq<byte>)
    ensures CompareBytes(a, b) == Less <==> LexLess(a, b)
  {
    if CompareBytes(a, b) == Less {
      LessIsLexLess(a, b);
    }
    if |a| < |b| && a == b[..|a|] {
      ProperPrefixIsLess(a, b);
    }
    if exists k :: 0 <= k < |a| && k < |b| && a[..k] == b[..k] && a[k] < b[k] {
      var k :| 0 <= k < |a| && k < |b| && a[..k] == b[..k] && a[k] < b[k];
      FirstDifferenceIsLess(a, b, k);
    }
  }

  lemma {:induction false} LessIsLexLess(a: seq<byte>, b: seq<byte>)
    requires CompareBytes(a, b) == Less
    ensures LexLess(a, b)
  {
    if |a| == 0 {
      assert a == b[..0];
    } else if a[0] < b[0] {
      assert a[..0] == b[..0];
    } else {
      assert |b| > 0 && a[0] == b[0];
      LessIsLexLess(a[1..], b[1..]);
      LexLessCons(a[0], a[1..], b[1..]);
      assert a == [a[0]] + a[1..] && b == [a[0]] + b[1..];
    }
  }

  lemma LexLessCons(x: byte, a: seq<byte>, b: seq<byte>)
    requires LexLess(a, b)
    ensures LexLess([x] + a, [x] + b)
  {
    var xa, xb := [x] + a, [x] + b;
    if |a| < |b| && a == b[..|a|] {
      assert xb[..|xa|] == [x] + b[..|a|];
    } else {
      var k :| 0 <= k < |a| && k < |b| && a[..k] == b[..k] && a[k] < b[k];
      assert xa[..k + 1] == [x] + a[..k] && xb[..k + 1] == [x] + b[..k];
      assert xa[k + 1] == a[k] && xb[k + 1] == b[k];
    }
  }

  lemma {:induction false} ProperPrefixIsLess(a: seq<byte>, b: seq<byte>)
    requires |a| < |b| && a == b[..|a|]
    ensures CompareBytes(a, b) == Less
  {
    if |a| > 0 {
      assert a[0] == b[0];
      assert a[1..] == b[1..][..|a| - 1];
      ProperPrefixIsLess(a[1..], b[1..]);
    }
  }

  lemma {:induction false} FirstDifferenceIsLess(a: seq<byte>, b: seq<byte>, k: nat)
    requires k < |a| && k < |b| && a[..k] == b[..k] && a[k] < b[k]
    ensures CompareBytes(a, b) == Less
  {
    if k > 0 {
      assert a[0] == a[..k][0] == b[..k][0] == b[0];
      assert a[1..][..k - 1] == a[1..k] == b[1..k] == b[1..][..k - 1];
      FirstDifferenceIsLess(a[1..], b[1..], k - 1);
    }
  }

  lemma {:induction false} CompareBytesEqual(a: seq<byte>, b: seq<byte>)
    ensures CompareBytes(a, b) == Equal <==> a == b
  {
    if |a| > 0 && |b| > 0 && a[0] == b[0] {
      CompareBytesEqual(a[1..], b[1..]);
      assert a == [a[0]] + a[1..] && b == [b[0]] + b[1..];
    }
  }

  lemma {:induction false} CompareBytesFlip(a: seq<byte>, b: seq<byte>)
    ensures CompareBytes(b, a) == Flip(CompareBytes(a, b))
  {
    if |a| > 0 && |b| > 0 && a[0] == b[0] {
      CompareBytesFlip(a[1..], b[1..]);
    }
  }

  lemma {:induction false} CompareBytesTransitive(a: seq<byte>, b: seq<byte>, c: seq<byte>)
    requires CompareBytes(a, b) != Greater && CompareBytes(b, c) != Greater
    ensures CompareBytes(a, c) != Greater
  {
    CompareBytesEmpty(a, b);
    CompareBytesEmpty(b, c);
    CompareBytesEmpty(a, c);
    if |a| > 0 && |b| > 0 && |c| > 0 {
      NotGreaterHeads(a, b);
      NotGreaterHeads(b, c);
      if a[0] == b[0] == c[0] {
        CompareBytesTransitive(a[1..], b[1..], c[1..]);
      }
      TransitiveStep(a, b, c);
    }
  }

  /** One step of transitivity, given the verdict on the tails. */
  lemma TransitiveStep(a: seq<byte>, b: seq<byte>, c: seq<byte>)
    requires |a| > 0 && |b| > 0 && |c| > 0
    requires a[0] <= b[0] <= c[0]
    requires a[0] == b[0] == c[0] ==> CompareBytes(a[1..], c[1..]) != Greater
    ensures CompareBytes(a, c) != Greater
  {
    HeadsDecide(a, c);
    ByteChain(a[0], b[0], c[0]);
  }

  lemma ByteChain(x: byte, y: byte, z: byte)
    requires x <= y <= z
    ensures x < z || x == y == z
  {
  }

  lemma CompareBytesEmpty(a: seq<byte>, b: seq<byte>)
    ensures |a| == 0 ==> CompareBytes(a, b) != Greater
    ensures |a| > 0 && |b| == 0 ==> CompareBytes(a, b) == Greater
  {
  }

  /** Unequal first bytes decide a comparison; equal ones defer to the rest. */
  lemma HeadsDecide(a: seq<byte>, b: seq<byte>)
    requires |a| > 0 && |b| > 0
    ensures a[0] < b[0] ==> CompareBytes(a, b) == Less
    ensures a[0] == b[0] ==> CompareBytes(a, b) == CompareBytes(a[1..], b[1..])
  {
  }

  /** Unfolding one step of a comparison that does not answer Greater. */
  lemma NotGreaterHeads(a: seq<byte>, b: seq<byte>)
    requires |a| > 0 && |b| > 0
    requires CompareBytes(a, b) != Greater
    ensures a[0] <= b[0]
    ensures a[0] == b[0] ==> CompareBytes(a[1..], b[1..]) != Greater
  {
  }

  /** String order is a total order: a total preorder whose Equal is
      equality. */
  lemma CompareBytesTotalPreorder()
    ensures TotalPreorder(CompareBytes)
    ensures TotalPreorder(Reverse(CompareBytes))
  {
    forall a, b
      ensures CompareBytes(b, a) == Flip(CompareBytes(a, b))
    {
      CompareBytesFlip(a, b);
    }
    forall a, b, c | NotAfter(CompareBytes, a, b) && NotAfter(CompareBytes, b, c)
      ensures NotAfter(CompareBytes, a, c)
    {
      CompareBytesTransitive(a, b, c);
    }
    ReversePreservesTotalPreorder(CompareBytes);
  }

  /** The strings of the array, in array order (`as_string` succeeds). */
  function StringElements(values: seq<JsValue>): (strs: seq<seq<byte>>)
    ensures |strs| <= |values|
    ensures forall s :: multiset(strs)[s] == multiset(values)[JsString(s)]
  {
    if |values| == 0 then []
    else
      assert values == [values[0]] + values[1..];
      match AsString(values[0])
      case Some(s) => [s] + StringElements(values[1..])
      case None => StringElements(values[1..])
  }

  /** The comparator `sort_strings` sorts with. */
  function Direction(ascending: bool): (seq<byte>, seq<byte>) -> Ordering {
    if ascending then CompareBytes else Reverse(CompareBytes)
  }

  /** The result holds exactly the string elements, each as often as it
      occurs, in ascending or descending string order. */
  function SortStrings(values: seq<JsValue>, ascending: bool): (r: seq<seq<byte>>)
    ensures multiset(r) == multiset(StringElements(values))
    ensures forall s :: multiset(r)[s] == multiset(values)[JsString(s)]
    ensures ascending ==> forall i, j :: 0 <= i < j < |r| ==> CompareBytes(r[i], r[j]) != Greater
    ensures !ascending ==> forall i, j :: 0 <= i < j < |r| ==> CompareBytes(r[i], r[j]) != Less
  {
    var r := Sort(StringElements(values), Direction(ascending));
    SortInDirection(StringElements(values), ascending, r);
    r
  }

  lemma SortInDirection(strs: seq<seq<byte>>, ascending: bool, r: seq<seq<byte>>)
    requires r == Sort(strs, Direction(ascending))
    ensures ascending ==> forall i, j :: 0 <= i < j < |r| ==> CompareBytes(r[i], r[j]) != Greater
    ensures !ascending ==> forall i, j :: 0 <= i < j < |r| ==> CompareBytes(r[i], r[j]) != Less
  {
    var cmp := Direction(ascending);
    CompareBytesTotalPreorder();
    SortSorted(strs, cmp);
    forall i, j | 0 <= i < j < |r|
      ensures ascending ==> CompareBytes(r[i], r[j]) != Greater
      ensures !ascending ==> CompareBytes(r[i], r[j]) != Less
    {
      assert NotAfter(cmp, r[i], r[j]);
      CompareBytesFlip(r[i], r[j]);
    }
  }

  /** The result is the only ascending (or descending) arrangement of the
      string elements, so it is what any correct sort produces. */
  /** A list in ascending (or descending) string order is sorted under the
      comparator of that direction. */
  lemma DirectionSorted(s: seq<seq<byte>>, ascending: bool)
    requires ascending ==> forall i, j :: 0 <= i < j < |s| ==> CompareBytes(s[i], s[j]) != Greater
    requires !ascending ==> forall i, j :: 0 <= i < j < |s| ==> CompareBytes(s[i], s[j]) != Less
    ensures Sorted(s, Direction(ascending))
  {
    forall i, j | 0 <= i < j < |s|
      ensures NotAfter(Direction(ascending), s[i], s[j])
    {
      CompareBytesFlip(s[i], s[j]);
    }
  }

  lemma SortStringsUnique(values: seq<JsValue>, ascending: bool, other: seq<seq<byte>>)
    requires multiset(other) == multiset(StringElements(values))
    requires ascending ==> forall i, j :: 0 <= i < j < |other| ==> CompareBytes(other[i], other[j]) != Greater
    requires !ascending ==> forall i, j :: 0 <= i < j < |other| ==> CompareBytes(other[i], other[j]) != Less
    ensures other == SortStrings(values, ascending)
  {
    var r := SortStrings(values, ascending);
    var cmp := Direction(ascending);
    CompareBytesTotalPreorder();
    DirectionSorted(r, ascending);
    DirectionSorted(other, ascending);
    forall x, y | x in r && y in r && cmp(x, y) == Equal
      ensures x == y
    {
      CompareBytesEqual(x, y);
      CompareBytesEqual(y, x);
    }
    SortedPermutationUnique(r, other, cmp);
  }
}
