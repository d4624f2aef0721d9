/** `hash_computation`: a 32-bit multiply / xor-shift mix folded over the
    input bytes, the whole pass repeated `iterations` times on one running
    value that starts at 0.  All arithmetic wraps modulo 2^32, which `bv32`
    does natively. */
module Hash {
  import opened Uint
  import opened JsValues

  /** One step: absorb `b` into the running value `h`. */
  function Mix(h: bv32, b: byte): bv32 {
    var h1 := h * 31 + (b as bv32);
    var h2 := h1 ^ (h1 >> 16);
    var h3 := h2 * 0x85eb_ca6b;
    var h4 := h3 ^ (h3 >> 13);
    var h5 := h4 * 0xc2b2_ae35;
    h5 ^ (h5 >> 16)
  }

  /** One pass: `Mix` folded left over `data`, starting from `h`. */
  function Pass(h: bv32, data: seq<byte>): bv32
    decreases |data|
  {
    if |data| == 0 then h else Pass(Mix(h, data[0]), data[1..])
  }

  /** `rounds` passes over `data`, starting from 0. */
  function Rounds(data: seq<byte>, rounds: nat): bv32 {
    if rounds == 0 then 0 else Pass(Rounds(data, rounds - 1), data)
  }

  /** `data` written out `n` times back to back. */
  function Repeat(data: seq<byte>, n: nat): (r: seq<byte>)
    ensures |r| == n * |data|
  {
    if n == 0 then [] else Repeat(data, n - 1) + data
  }

  /** The kernel, with its two nested loops. */
  method HashComputation(data: seq<byte>, iterations: u32) returns (hash: bv32)
    ensures iterations == 0 || |data| == 0 ==> hash == 0
    ensures hash == Rounds(data, iterations)
    ensures hash == Pass(0, Repeat(data, iterations))
  {
    hash := 0;
    var round := 0;
    while round < iterations
      invariant round <= iterations
      invariant hash == Rounds(data, round)
    {
      var i := 0;
      ghost var start := hash;
      while i < |data|
        invariant i <= |data|
        invariant Pass(hash, data[i..]) == Pass(start, data)
      {
        assert data[i..][1..] == data[i + 1..];
        hash := Mix(hash, data[i]);
        i := i + 1;
      }
      assert data[i..] == [];
      round := round + 1;
    }
    RoundsAreOnePass(data, iterations);
    if |data| == 0 {
      EmptyDataHashesToZero(iterations);
    }
  }

  /** Folding over a concatenation is folding over the parts in turn. */
  lemma {:induction false} PassConcat(h: bv32, a: seq<byte>, b: seq<byte>)
    ensures Pass(h, a + b) == Pass(Pass(h, a), b)
    decreases |a|
  {
    if |a| > 0 {
      assert (a + b)[1..] == a[1..] + b;
      PassConcat(Mix(h, a[0]), a[1..], b);
    } else {
      assert a + b == b;
    }
  }

  /** Repeating the pass `n` times is a single pass over `n` copies of the
      input: the outer loop adds nothing but length. */
  lemma {:induction false} RoundsAreOnePass(data: seq<byte>, n: nat)
    ensures Rounds(data, n) == Pass(0, Repeat(data, n))
  {
    if n > 0 {
      RoundsAreOnePass(data, n - 1);
      PassConcat(0, Repeat(data, n - 1), data);
    }
  }

  /** Empty input: nothing is ever mixed in, so the hash stays 0. */
  lemma {:induction false} EmptyDataHashesToZero(n: nat)
    ensures Rounds([], n) == 0
  {
    if n > 0 {
      EmptyDataHashesToZero(n - 1);
    }
  }
}
