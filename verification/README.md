# wasm-sorter core, modelled in Dafny

`wasm-sorter` is a Rust crate that is compiled to WebAssembly and exported to
JavaScript through wasm-bindgen. It offers two kinds of entry point:

- Sort wrappers:
  - `sort_array` sorts a JS array with a JS comparator function.
  - `sort_strings` keeps the string elements of a JS array and sorts them
    ascending or descending.
- Integer benchmark kernels:
  - `prime_sieve` is a sieve of Eratosthenes.
  - `fibonacci_sequence` returns the first `n` Fibonacci numbers in `u64`,
    which wrap around on overflow.
  - `hash_computation` is a 32-bit multiply/xor-shift mixing hash, folded
    over the bytes of a string and repeated `iterations` times.

The project models these five entry points as pure Dafny functions and methods
and proves what each one computes.

| file | module | models |
|---|---|---|
| `orderings.dfy` | `Orderings` | `std::cmp::Ordering`; what makes a comparator consistent (a total preorder); sortedness |
| `stable_sort.dfy` | `StableSort` | a stable comparison sort over an opaque element type; index tagging; uniqueness of the stable sorted permutation |
| `js_values.dfy` | `JsValues` | JS values crossing the boundary, IEEE doubles as far as `<` is concerned, `as_f64`, `as_string`, the outcome of calling a JS function |
| `sort_array.dfy` | `SortArray` | `sort_array`: the sign-to-`Ordering` comparator bridge and the sort of `(element, index)` items |
| `sort_strings.dfy` | `SortStrings` | `sort_strings`: the string filter, byte-wise `String` ordering, both directions |
| `uint.dfy` | `Uint` | `u32`, `u64` and `u64::wrapping_add` |
| `prime_sieve.dfy` | `PrimeSieve` | `prime_sieve`: the flag vector, the sieving loops and the final collection |
| `fibonacci.dfy` | `Fibonacci` | `fibonacci_sequence` and its relation to the true Fibonacci numbers |
| `hash.dfy` | `Hash` | `hash_computation`: the per-byte mixing step, the byte fold and the repeated rounds |

Modelling choices:

- **A stable insertion sort stands in for `sort_by`.** `StableSort.Sort` is
  an insertion sort. Rust's `sort_by` is driftsort, which uses insertion
  sort only for short slices. For a consistent comparator (a total preorder)
  the algorithm does not matter: `StableSort.StableSortUnique` proves that
  only one stable sorted rearrangement of index-tagged items exists.
  `SortArray.SortArrayUnique` proves the same for `sort_array` with a
  consistent predicate, and `SortStrings.SortStringsUnique` for
  `sort_strings`. So, for a consistent predicate, any correct stable sort
  returns exactly the result modelled here.
- **Strings are UTF-8 bytes.** A JS string is modelled by the UTF-8 bytes
  that wasm-bindgen copies into the Rust `String`. Rust's `Ord for String`
  is byte-wise lexicographic order on those bytes.
- **Doubles have a sign and nothing more.** A JS number is `F64`: a finite
  real, one of the two infinities, or NaN. The comparator bridge only tests
  `num < 0.0` and `num > 0.0`, so nothing more is needed.
- **Integer square root.** The sieve's `(limit as f64).sqrt() as u32` is
  replaced by an integer square root, `PrimeSieve.IntSqrt`. For every `u32`
  the two agree, because the `f64` square root is correctly rounded and the
  values involved are well inside the 53-bit mantissa.
- **Flags are a sequence.** The sieve's `Vec<bool>` is a `seq<bool>` that
  the loops update one index at a time.
- **JS value accessors.** `JsValues.AsF64` and `JsValues.AsString` model
  wasm-bindgen's `as_f64` and `as_string`: each yields `Some` exactly for a
  JS number or a JS string, and then its value. They are plain accessors
  and carry no property of their own.

Two behaviours of the code are worth stating plainly:

- **A predicate that fails does not abort the sort.** At
  `wasm-sorter/src/lib.rs:45-49` an `Err` from `call2` becomes
  `Ordering::Equal`, and so does an answer that is not a number.
  `sort_array` always returns `Ok`. `SortArray.ToOrdering` and
  `SortArray.SortArray` state this, and
  `SortArray.SortArrayIgnoresFailingPredicate` states its consequence.
- **Fibonacci terms wrap silently.** `wasm-sorter/src/lib.rs:326` uses
  `wrapping_add`. `Fibonacci.FibonacciSequence` states the wrap-around, and
  `Fibonacci.NoWrapBelow94` and `Fibonacci.WrapsAt94` locate exactly where
  wrapping begins.

## Model

| member | source | states |
|---|---|---|
| SortArray.ToOrdering | wasm-sorter/src/lib.rs:35-50 | a thrown exception, a non-number and NaN all give Equal; a finite answer gives Less exactly when it is negative and Greater exactly when it is positive; the infinities give Less and Greater |
| SortArray.SortItems | wasm-sorter/src/lib.rs:24-51 | the sorted `(element, index)` items are a rearrangement of the input paired with its positions |
| SortArray.SortArray | wasm-sorter/src/lib.rs:20-64 | whatever the predicate does, the result is `Ok` and holds the input elements, each exactly as often as in the input |
| SortArray.SortArrayIsSort | wasm-sorter/src/lib.rs:24-57 | the indices carried through the sort do not influence the order: the result equals sorting the bare elements with the bridged comparator |
| SortArray.SortArraySorted | wasm-sorter/src/lib.rs:33-51 | with a consistent predicate, no element is followed by one the predicate puts before it, whether a neighbour or any later element |
| SortArray.SortArrayStable | wasm-sorter/src/lib.rs:24-51 | with a consistent predicate the items are sorted, and elements the predicate calls equal keep their input order |
| SortArray.SortArrayUnique | wasm-sorter/src/lib.rs:33-51 | with a consistent predicate, every stable sorted rearrangement of the indexed items equals the result, so it does not depend on the sorting algorithm |
| SortArray.SortArrayKeepsSortedInput | wasm-sorter/src/lib.rs:33-57 | with a consistent predicate, an array that it never orders backwards between neighbours comes back unchanged |
| SortArray.SortArrayIgnoresFailingPredicate | wasm-sorter/src/lib.rs:45-49 | a predicate that throws or returns a non-number for every pair of elements, in either order, leaves the array as it was instead of aborting |
| SortArray.KeyPredicateSortsByKey | wasm-sorter/src/lib.rs:33-51 | the predicate `(a, b) => key(a) - key(b)` is a consistent comparator, and the result is in non-decreasing key order |
| StableSort.Sort | wasm-sorter/src/lib.rs:33 | sorting keeps the length and the multiset of elements for any comparator, consistent or not |
| StableSort.SortSorted | wasm-sorter/src/lib.rs:33 | under a total preorder every element is not after every later element |
| StableSort.SortStable | wasm-sorter/src/lib.rs:24-33 | items tagged with increasing indices keep index order among comparator-equal elements |
| StableSort.UntagSort | wasm-sorter/src/lib.rs:24-57 | sorting tagged items by their payload and then dropping the tags equals sorting the payloads |
| StableSort.StableSortUnique | wasm-sorter/src/lib.rs:33 | two stable sorted rearrangements of the same uniquely tagged items are equal |
| StableSort.SortedPermutationUnique | wasm-sorter/src/lib.rs:109-112 | two sorted rearrangements of each other are equal when Equal only holds between equal elements |
| StableSort.SortKeepsSortedInput | wasm-sorter/src/lib.rs:33 | under a total preorder, an input with no neighbour pair out of order is returned unchanged |
| StableSort.SortKeepsAllEqual | wasm-sorter/src/lib.rs:33 | elements that all compare Equal with one another come back in their input order |
| Orderings.ReversePreservesTotalPreorder | wasm-sorter/src/lib.rs:112 | the reversed comparator `b.cmp(a)` is a total preorder when the comparator is |
| SortStrings.CompareBytesLess | wasm-sorter/src/lib.rs:110 | the string order answers Less exactly when the first string is a proper prefix of the second or is smaller at the first differing byte |
| SortStrings.CompareBytesEqual | wasm-sorter/src/lib.rs:110 | the string order answers Equal exactly for identical strings |
| SortStrings.CompareBytesTotalPreorder | wasm-sorter/src/lib.rs:109-113 | both the ascending and the reversed string order are total preorders |
| SortStrings.StringElements | wasm-sorter/src/lib.rs:99-106 | each string occurs in the kept list as often as it occurs as a string element of the array; no other value is kept |
| SortStrings.SortStrings | wasm-sorter/src/lib.rs:96-122 | the result holds every string element as often as it occurs, in ascending order when `ascending` and in descending order otherwise |
| SortStrings.SortStringsUnique | wasm-sorter/src/lib.rs:108-113 | any rearrangement of the string elements in the requested order equals the result |
| PrimeSieve.IntSqrt | wasm-sorter/src/lib.rs:253 | the result is the largest number whose square does not exceed the input |
| PrimeSieve.Sieve | wasm-sorter/src/lib.rs:242-273 | an empty result below 2; every element in `[2, limit]`; strictly ascending; a number is listed exactly when it is a prime in `[2, limit]` |
| PrimeSieve.CrossOutMultiples | wasm-sorter/src/lib.rs:257-262 | clears exactly the flags of the multiples of `i` from `i * i` on, and leaves the other flags alone |
| PrimeSieve.Collect | wasm-sorter/src/lib.rs:265-271 | lists, ascending, exactly the numbers from 2 on whose flag is set |
| PrimeSieve.SurvivesStep | wasm-sorter/src/lib.rs:255-262 | sieving with `i` removes exactly the multiples of `i` that are at least `i * i` |
| PrimeSieve.CompositeSievesNothing | wasm-sorter/src/lib.rs:256 | skipping an `i` that is already crossed out loses nothing: its multiples from `i * i` on are already crossed out |
| PrimeSieve.SurvivorsArePrimes | wasm-sorter/src/lib.rs:253-263 | once every `d` with `d * d` up to the limit has been sieved, the numbers still flagged are exactly the primes |
| PrimeSieve.AscendingListUnique | wasm-sorter/src/lib.rs:265-271 | two strictly ascending lists with the same members are equal, so the sieve's contract determines its output |
| Uint.WrappingAddU64 | wasm-sorter/src/lib.rs:326 | the result is the sum reduced modulo 2^64 |
| Fibonacci.FibonacciSequence | wasm-sorter/src/lib.rs:307-331 | `n` terms; 0 and 1 first when present; each later term is the wrapping sum of the two before it; term `i` is the true Fibonacci number modulo 2^64 |
| Fibonacci.WrappedFibIsResidue | wasm-sorter/src/lib.rs:323-328 | the wrapping recurrence yields the true Fibonacci numbers modulo 2^64 |
| Fibonacci.NoWrapBelow94 | wasm-sorter/src/lib.rs:326 | terms 0 to 93 fit in `u64`, so they are exact |
| Fibonacci.WrapsAt94 | wasm-sorter/src/lib.rs:326 | term 94 is the first that does not fit in `u64` and is off by 2^64 |
| Fibonacci.FirstSevenTerms | wasm-sorter/src/lib.rs:316-328 | the sequence starts 0, 1, 1, 2, 3, 5, 8 |
| Fibonacci.FibAddition | wasm-sorter/src/lib.rs:323-328 | the addition formula F(m+n+1) = F(m+1)·F(n+1) + F(m)·F(n) for the recurrence |
| Fibonacci.FibMonotone | wasm-sorter/src/lib.rs:323-328 | the true Fibonacci numbers never decrease |
| Hash.HashComputation | wasm-sorter/src/lib.rs:334-352 | 0 when there are no iterations or no bytes; otherwise `iterations` rounds of the mixing fold from 0, which is also one fold over the input repeated `iterations` times |
| Hash.PassConcat | wasm-sorter/src/lib.rs:341-348 | folding over two byte strings one after the other equals folding over their concatenation |
| Hash.RoundsAreOnePass | wasm-sorter/src/lib.rs:340-349 | repeating the fold `n` times from 0 equals one fold over the bytes repeated `n` times |
| Hash.EmptyDataHashesToZero | wasm-sorter/src/lib.rs:337-351 | with no bytes the hash stays 0 for any number of rounds |

## Left out

- `log`, `console_log!` and `init_panic_hook` (`wasm-sorter/src/lib.rs:4-18`),
  and the `console_log!` calls in each entry point, are left out. They are
  console output and a process-wide panic hook, with no effect on results.
- JS marshalling is left out: `Array::get`, `Array::new`, `Array::push`, the
  `Vec` copies and the UTF-16 to UTF-8 transcoding of strings. These are
  foreign calls. Arrays are `seq`s, and strings arrive as UTF-8 bytes.
- `sort_numbers`, `monte_carlo_pi`, `mandelbrot_iterations`, `mandelbrot_set`,
  `matrix_multiply` and `test_simple_math` are left out. They are
  floating-point numerics, and the model has no IEEE arithmetic.
- SortArray.SortArray: for a predicate that is not a consistent total
  preorder, the order of the result is the stand-in insertion sort's, not
  `sort_by`'s. Only the permutation property is promised there; every
  ordering property requires a consistent predicate.
- SortArray.SortArray is always a permutation, even for an inconsistent
  comparator. Recent Rust versions of `sort_by` may instead panic when the
  comparator is not a total order. That panic is not modelled, because it
  depends on the standard library's algorithm and not on this crate.
- SortArray.SortArray models the JS predicate as a pure function of its two
  arguments. A predicate with side effects, or one that answers differently
  for the same pair on different calls, is not modelled.
- SortArray.KeyPredicateSortsByKey takes the predicate's difference as an
  exact real. Rounding of the JS subtraction is not modelled.
- PrimeSieve.Sieve requires `limit < 0xFFFF_0000`, so that `limit + 1` and
  every `j += i` stay inside `u32`; near `u32::MAX` the source overflows.
  Below that bound the model still returns a result where the source traps:
  on wasm32, `vec![true; limit + 1]` (`wasm-sorter/src/lib.rs:248`) panics
  with a capacity overflow once `limit >= 2^31 - 1`, and smaller limits can
  exhaust WebAssembly memory. Allocation failure is not modelled.
- Fibonacci.FibonacciSequence returns `n` terms for every `u32` `n`. On
  wasm32, `Vec::with_capacity(n as usize)` for `u64` elements
  (`wasm-sorter/src/lib.rs:314`) panics with a capacity overflow once
  `n >= 2^28`, and smaller `n` can exhaust WebAssembly memory. Allocation
  failure is not modelled.
- PrimeSieve.IntSqrt stands in for the `f64` square root and the truncating
  cast. Equality of the two is argued above, not proved.
- Hash.HashComputation takes the string as its UTF-8 bytes (`as_bytes`). The
  JS-to-Rust string conversion is not modelled.
