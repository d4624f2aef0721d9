/** `prime_sieve`: the sieve of Eratosthenes over a `Vec<bool>` of
    `limit + 1` flags, returning the primes up to `limit` in ascending order.
    The float square root of the source (`(limit as f64).sqrt() as u32`) is
    an integer square root here; the two agree on every `u32`. */
module PrimeSieve {
  import opened Uint

  /** `limit` below this keeps `limit + 1` and every `j += i` inside `u32`. */
  const LIMIT_BOUND: nat := 0xFFFF_0000

  /** `d` is a positive divisor of `n`. */
  ghost predicate Divides(d: nat, n: nat) {
    d > 0 && exists m: nat :: n == d * m
  }

  ghost predicate IsPrime(n: nat) {
    n >= 2 && forall d :: 2 <= d < n ==> !Divides(d, n)
  }

  /** `k` is not yet crossed out once every `d` below `i` has been sieved:
      it has no divisor `d` in `[2, i)` with `d * d <= k`. */
  ghost predicate Survives(k: nat, i: nat) {
    k >= 2 && forall d :: 2 <= d < i && d * d <= k ==> !Divides(d, k)
  }

  /** The integer square root: the largest `r` with `r * r <= n`. */
  method IntSqrt(n: nat) returns (r: nat)
    ensures r * r <= n < (r + 1) * (r + 1)
  {
    r := 0;
    while (r + 1) * (r + 1) <= n
      invariant r * r <= n
      decreases n - r * r
    {
      r := r + 1;
    }
  }

  /** The kernel: the flags start true from 2 on, each `i` up to the square
      root that is still flagged crosses out its multiples from `i * i`, and
      the flagged numbers are collected.  Returns exactly the primes in
      `[2, limit]`, ascending. */
  method Sieve(limit: u32) returns (primes: seq<u32>)
    requires limit < LIMIT_BOUND
    ensures limit < 2 ==> primes == []
    ensures forall k :: 0 <= k < |primes| ==> 2 <= primes[k] <= limit
    ensures forall k, l :: 0 <= k < l < |primes| ==> primes[k] < primes[l]
    ensures forall x: nat :: x in primes <==> 2 <= x <= limit && IsPrime(x)
  {
    if limit < 2 {
      return [];
    }
    var isPrime := seq(limit + 1, k => k >= 2);
    var sqrtLimit := IntSqrt(limit);
    assert sqrtLimit < 0x1_0000 by {
      if sqrtLimit >= 0x1_0000 {
        SquareMonotone(0x1_0000, sqrtLimit);
      }
    }
    var i := 2;
    while i <= sqrtLimit
      invariant 2 <= i <= sqrtLimit + 1
      invariant |isPrime| == limit + 1
      invariant forall k :: 0 <= k <= limit ==> (isPrime[k] <==> Survives(k, i))
    {
      if isPrime[i] {
        isPrime := CrossOutMultiples(isPrime, i);
        forall k | 0 <= k <= limit
          ensures isPrime[k] <==> Survives(k, i + 1)
        {
          SurvivesStep(k, i);
        }
      } else {
        forall k | 0 <= k <= limit
          ensures isPrime[k] <==> Survives(k, i + 1)
        {
          CompositeSievesNothing(k, i);
        }
      }
      i := i + 1;
    }
    forall k | 0 <= k <= limit
      ensures isPrime[k] <==> IsPrime(k)
    {
      SurvivorsArePrimes(k, i);
    }
    primes := Collect(isPrime);
  }

  /** The inner `while j <= limit` loop: clears the flag of every multiple of
      `i` from `i * i` up to the end, and of nothing else. */
  method CrossOutMultiples(flags: seq<bool>, i: nat) returns (r: seq<bool>)
    requires i >= 1
    requires |flags| + i <= U32_MODULUS
    ensures |r| == |flags|
    ensures forall k :: 0 <= k < |flags| ==> (r[k] <==> flags[k] && !(i * i <= k && Divides(i, k)))
  {
    r := flags;
    var j := i * i;
    assert Divides(i, j) by {
      MultipleDivides(i, i);
    }
    while j < |flags|
      invariant i * i <= j
      invariant j == i * i || j < |flags| + i
      invariant Divides(i, j)
      invariant |r| == |flags|
      invariant forall k :: 0 <= k < |flags| ==>
        (r[k] <==> flags[k] && !(i * i <= k < j && Divides(i, k)))
    {
      assert j + i < U32_MODULUS;
      r := r[j := false];
      forall k | j < k < j + i
        ensures !Divides(i, k)
      {
        NoMultipleBetween(i, j, k);
      }
      MultipleStep(i, j);
      j := j + i;
    }
  }

  /** The final `for i in 2..=limit` loop: the flagged numbers, ascending. */
  method Collect(flags: seq<bool>) returns (r: seq<u32>)
    requires |flags| <= U32_MODULUS
    ensures forall k :: 0 <= k < |r| ==> 2 <= r[k] < |flags| && flags[r[k]]
    ensures forall k, l :: 0 <= k < l < |r| ==> r[k] < r[l]
    ensures forall x: nat :: x in r <==> 2 <= x < |flags| && flags[x]
  {
    r := [];
    var x := 2;
    while x < |flags|
      invariant 2 <= x
      invariant forall k :: 0 <= k < |r| ==> 2 <= r[k] < x && r[k] < |flags| && flags[r[k]]
      invariant forall k, l :: 0 <= k < l < |r| ==> r[k] < r[l]
      invariant forall y: nat :: y in r <==> 2 <= y < x && y < |flags| && flags[y]
    {
      if flags[x] {
        r := r + [x];
      }
      x := x + 1;
    }
  }

  /** Two strictly ascending lists with the same members are the same list,
      so `Sieve`'s contract pins its result down completely. */
  lemma {:induction false} AscendingListUnique(a: seq<u32>, b: seq<u32>)
    requires forall k, l :: 0 <= k < l < |a| ==> a[k] < a[l]
    requires forall k, l :: 0 <= k < l < |b| ==> b[k] < b[l]
    requires forall x :: x in a <==> x in b
    ensures a == b
  {
    assert |a| > 0 <==> |b| > 0 by {
      if |a| > 0 {
        assert a[0] in b;
      }
      if |b| > 0 {
        assert b[0] in a;
      }
    }
    if |a| > 0 {
      assert a[0] == b[0] by {
        assert a[0] in b && b[0] in a;
      }
      forall x
        ensures x in a[1..] <==> x in b[1..]
      {
        if x in a[1..] {
          assert x in b && x != b[0];
        }
        if x in b[1..] {
          assert x in a && x != a[0];
        }
      }
      AscendingListUnique(a[1..], b[1..]);
      assert a == [a[0]] + a[1..] && b == [b[0]] + b[1..];
    }
  }

  // ---------------------------------------------------------------------
  // Arithmetic facts the sieve relies on.

  lemma SquareMonotone(a: nat, b: nat)
    requires a <= b
    ensures a * a <= b * b
  {
    assert a * a <= a * b <= b * b;
  }

  lemma MulCancelLess(c: nat, a: nat, b: nat)
    requires c * a < c * b
    ensures a < b
  {
  }

  lemma SquareBelow(d: nat, i: nat, k: nat)
    requires d * d <= i && i * i <= k
    ensures d * d <= k
  {
    assert i <= i * i;
  }

  lemma DividesTransitive(d: nat, i: nat, k: nat)
    requires Divides(d, i) && Divides(i, k)
    ensures Divides(d, k)
  {
    var a: nat :| i == d * a;
    var b: nat :| k == i * b;
    assert k == d * (a * b);
  }

  lemma MultipleDivides(d: nat, m: nat)
    requires d > 0
    ensures Divides(d, d * m)
  {
  }

  lemma MultipleStep(i: nat, j: nat)
    requires Divides(i, j)
    ensures Divides(i, j + i)
  {
    var a: nat :| j == i * a;
    assert j + i == i * (a + 1);
  }

  /** Between two consecutive multiples of `i` there is no multiple of `i`. */
  lemma NoMultipleBetween(i: nat, j: nat, k: nat)
    requires Divides(i, j)
    requires j < k < j + i
    ensures !Divides(i, k)
  {
    if Divides(i, k) {
      var a: nat :| j == i * a;
      var m: nat :| k == i * m;
      assert i * (a + 1) == i * a + i;
      MulCancelLess(i, m, a + 1);
      MulCancelLess(i, a, m);
    }
  }

  /** Sieving with `i` crosses out the multiples of `i` from `i * i` on. */
  lemma SurvivesStep(k: nat, i: nat)
    requires i >= 2
    ensures Survives(k, i + 1) <==> Survives(k, i) && !(i * i <= k && Divides(i, k))
  {
  }

  /** When `i` itself was crossed out, every multiple of `i` from `i * i` on
      already was too, so sieving with `i` changes nothing. */
  lemma CompositeSievesNothing(k: nat, i: nat)
    requires i >= 2
    requires !Survives(i, i)
    ensures Survives(k, i + 1) <==> Survives(k, i)
  {
    SurvivesStep(k, i);
    if Survives(k, i) && i * i <= k && Divides(i, k) {
      var d :| 2 <= d < i && d * d <= i && Divides(d, i);
      SquareBelow(d, i, k);
      DividesTransitive(d, i, k);
    }
  }

  /** Once every `d` with `d * d <= k` has been sieved, the survivors are
      exactly the primes. */
  lemma SurvivorsArePrimes(k: nat, i: nat)
    requires k < i * i
    ensures Survives(k, i) <==> IsPrime(k)
  {
    if IsPrime(k) {
      forall d | 2 <= d < i && d * d <= k
        ensures !Divides(d, k)
      {
        assert d < d * d;
      }
    }
    if Survives(k, i) && !IsPrime(k) {
      var d :| 2 <= d < k && Divides(d, k);
      var e: nat :| k == d * e;
      assert Divides(e, k) by {
        assert k == e * d;
      }
      SmallCofactor(k, d, e, i);
    }
  }

  /** The smaller factor of `k` has a square at most `k`, so it is below `i`
      when `k < i * i`. */
  lemma SmallerFactor(k: nat, f: nat, g: nat, i: nat)
    requires k == f * g && f <= g && k < i * i
    ensures f * f <= k && f < i
  {
    assert f * f <= f * g;
    if f >= i {
      SquareMonotone(i, f);
    }
  }

  /** A factorisation `k = d * e` with both factors at least 2 has a factor
      below `i` whose square is at most `k`, when `k < i * i`. */
  lemma SmallCofactor(k: nat, d: nat, e: nat, i: nat)
    requires k == d * e && 2 <= d < k && k < i * i
    requires Divides(d, k) && Divides(e, k)
    ensures !Survives(k, i)
  {
    assert e >= 2;
    var f, g := if d <= e then d else e, if d <= e then e else d;
    assert k == f * g;
    SmallerFactor(k, f, g, i);
    assert 2 <= f && Divides(f, k);
  }
}
