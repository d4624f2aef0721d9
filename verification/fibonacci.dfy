/** `fibonacci_sequence`: the first `n` Fibonacci numbers as `u64`s, each new
    term the `wrapping_add` of the two before it.  From index 94 on the true
    values no longer fit in 64 bits and the terms silently wrap. */
module Fibonacci {
  import opened Uint

  /** The Fibonacci numbers, unbounded. */
  function Fib(n: nat): nat {
    if n < 2 then n else Fib(n - 1) + Fib(n - 2)
  }

  /** The terms the kernel produces: the Fibonacci recurrence run in 64-bit
      wrapping arithmetic. */
  function WrappedFib(n: nat): u64 {
    if n < 2 then n else WrappingAddU64(WrappedFib(n - 1), WrappedFib(n - 2))
  }

  /** The kernel: push 0, then 1, then wrapped sums of the last two. */
  method FibonacciSequence(n: u32) returns (fib: seq<u64>)
    ensures |fib| == n
    ensures n >= 1 ==> fib[0] == 0
    ensures n >= 2 ==> fib[1] == 1
    ensures forall i :: 2 <= i < n ==> fib[i] == WrappingAddU64(fib[i - 1], fib[i - 2])
    ensures forall i :: 0 <= i < n ==> fib[i] == Fib(i) % U64_MODULUS
  {
    if n == 0 {
      return [];
    } else if n == 1 {
      return [0];
    }
    fib := [0, 1];
    var i := 2;
    while i < n
      invariant 2 <= i <= n && |fib| == i
      invariant forall k :: 0 <= k < i ==> fib[k] == WrappedFib(k)
    {
      assert WrappedFib(i) == WrappingAddU64(fib[i - 1], fib[i - 2]);
      fib := fib + [WrappingAddU64(fib[i - 1], fib[i - 2])];
      i := i + 1;
    }
    forall k | 2 <= k < n
      ensures fib[k] == WrappingAddU64(fib[k - 1], fib[k - 2])
    {
      assert fib[k] == WrappedFib(k);
    }
    forall k | 0 <= k < n
      ensures fib[k] == Fib(k) % U64_MODULUS
    {
      WrappedFibIsResidue(k);
    }
  }

  /** Wrapping at every step gives the true term reduced modulo 2^64. */
  lemma {:induction false} WrappedFibIsResidue(n: nat)
    ensures WrappedFib(n) == Fib(n) % U64_MODULUS
  {
    if n >= 2 {
      WrappedFibIsResidue(n - 1);
      WrappedFibIsResidue(n - 2);
      WrappingAddOfResidues(Fib(n - 1), Fib(n - 2), Fib(n));
    }
  }

  /** Adding residues with wrap-around gives the residue of the sum. */
  lemma WrappingAddOfResidues(a: nat, b: nat, sum: nat)
    requires sum == a + b
    ensures WrappingAddU64(a % U64_MODULUS, b % U64_MODULUS) == sum % U64_MODULUS
  {
  }

  lemma {:induction false} FibMonotone(i: nat, j: nat)
    requires i <= j
    ensures Fib(i) <= Fib(j)
    decreases j - i
  {
    if i < j {
      FibMonotone(i, j - 1);
    }
  }

  /** Fib(m + n + 1) = Fib(m + 1) Fib(n + 1) + Fib(m) Fib(n). */
  lemma {:induction false} FibAddition(m: nat, n: nat)
    ensures Fib(m + n + 1) == Fib(m + 1) * Fib(n + 1) + Fib(m) * Fib(n)
  {
    if n >= 2 {
      FibAddition(m, n - 1);
      FibAddition(m, n - 2);
      FibAdditionStep(m, n);
    } else if n == 1 {
      assert Fib(2) == 1 && Fib(1) == 1;
      assert Fib(m + 2) == Fib(m + 1) + Fib(m);
    } else {
      assert Fib(1) == 1 && Fib(0) == 0;
    }
  }

  lemma FibAdditionStep(m: nat, n: nat)
    requires n >= 2
    requires Fib(m + n) == Fib(m + 1) * Fib(n) + Fib(m) * Fib(n - 1)
    requires Fib(m + n - 1) == Fib(m + 1) * Fib(n - 1) + Fib(m) * Fib(n - 2)
    ensures Fib(m + n + 1) == Fib(m + 1) * Fib(n + 1) + Fib(m) * Fib(n)
  {
    var a, b := Fib(m + 1), Fib(m);
    var x, y, z := Fib(n), Fib(n - 1), Fib(n - 2);
    assert Fib(n + 1) == x + y && x == y + z;
    Distribute(a, x, y);
    Distribute(b, y, z);
  }

  lemma Distribute(a: nat, x: nat, y: nat)
    ensures a * (x + y) == a * x + a * y
  {
  }

  /** From Fib(k) and Fib(k + 1), the terms at 2k + 1 and 2k + 2. */
  lemma FibDoubling(k: nat)
    ensures Fib(2 * k + 1) == Fib(k + 1) * Fib(k + 1) + Fib(k) * Fib(k)
    ensures Fib(2 * k + 2) == Fib(k + 1) * (Fib(k + 1) + 2 * Fib(k))
  {
    FibAddition(k, k);
    assert k + k + 1 == 2 * k + 1;
    FibAddition(k + 1, k);
    assert k + 1 + k + 1 == 2 * k + 2;
    DoublingAlgebra(Fib(k), Fib(k + 1), Fib(k + 2), Fib(2 * k + 2));
  }

  lemma FibRecurrence(n: nat)
    requires n >= 2
    ensures Fib(n) == Fib(n - 1) + Fib(n - 2)
  {
  }

  lemma DoublingAlgebra(a: nat, b: nat, c: nat, x: nat)
    requires c == b + a
    requires x == c * b + b * a
    ensures x == b * (b + 2 * a)
  {
  }

  /** Fib(93) and Fib(94), doubling up from Fib(5) = 5 and Fib(6) = 8. */
  lemma FibAt93And94()
    ensures Fib(93) == 12200160415121876738
    ensures Fib(94) == 19740274219868223167
  {
    FibAt46And47();
    DoublingFrom(46, 1836311903, 2971215073);
  }

  lemma FibAt46And47()
    ensures Fib(46) == 1836311903 && Fib(47) == 2971215073
  {
    FibAt23And24();
    DoublingFrom(23, 28657, 46368);
    FibRecurrence(48);
  }

  /** FibDoubling with the two starting terms given as numbers. */
  lemma DoublingFrom(k: nat, a: nat, b: nat)
    requires Fib(k) == a && Fib(k + 1) == b
    ensures Fib(2 * k + 1) == b * b + a * a
    ensures Fib(2 * k + 2) == b * (b + 2 * a)
  {
    FibDoubling(k);
  }

  lemma FibAt23And24()
    ensures Fib(23) == 28657 && Fib(24) == 46368
  {
    assert Fib(5) == 5 && Fib(6) == 8;
    DoublingFrom(5, 5, 8);
    DoublingFrom(11, 89, 144);
  }

  /** Up to index 93 every term fits in a `u64`: the output is exact. */
  lemma NoWrapBelow94(i: nat)
    requires i <= 93
    ensures Fib(i) % U64_MODULUS == Fib(i)
  {
    FibAt93And94();
    FibMonotone(i, 93);
  }

  /** Index 94 is the first term that does not fit: from there on the output
      differs from the true Fibonacci number, with no error raised. */
  lemma WrapsAt94()
    ensures Fib(94) % U64_MODULUS != Fib(94)
    ensures Fib(94) % U64_MODULUS == Fib(94) - U64_MODULUS
  {
    FibAt93And94();
  }

  /** The sequence starts 0, 1, 1, 2, 3, 5, 8. */
  lemma FirstSevenTerms()
    ensures [Fib(0), Fib(1), Fib(2), Fib(3), Fib(4), Fib(5), Fib(6)] == [0, 1, 1, 2, 3, 5, 8]
  {
  }
}
