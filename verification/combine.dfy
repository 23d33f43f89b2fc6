/** `skr::hash_combine`: mixes the hash of one more value into a running
    seed, with every operation wrapping modulo 2^width of `size_t`. */
module Combine {
  import opened Bits
  import opened SizeT

  /** The additive constant of the mix, 2^32 divided by the golden ratio. */
  const GoldenRatio: nat := 0x9e37_79b9

  /** `seed ^ (combine + 0x9e3779b9 + (seed << 6) + (seed >> 2))`. */
  function HashCombine(w: Width, seed: nat, combine: nat): (r: nat)
    requires Fits(w, seed) && Fits(w, combine)
    ensures Fits(w, r)
  {
    var sum := WrappedMix(w, seed, combine);
    XorFits(w, seed, sum);
    Xor(seed, sum)
  }

  /** The right operand of the `^` as the source computes it: each `+` and
      the `<<` wrap modulo 2^width, and `>>` is a division. */
  function WrappedMix(w: Width, seed: nat, combine: nat): nat {
    var b := Bound(w);
    (((combine + GoldenRatio) % b + seed * 64 % b) % b + seed / 4) % b
  }

  /** The same amount computed with a single reduction:
      combine + 0x9e3779b9 + 64 * seed + seed / 4 modulo 2^width. */
  function Mix(w: Width, seed: nat, combine: nat): (m: nat)
    ensures Fits(w, m)
  {
    (combine + GoldenRatio + 64 * seed + seed / 4) % Bound(w)
  }

  /** The intermediate wrap-arounds of the source change nothing. */
  lemma WrappedMixIsMix(w: Width, seed: nat, combine: nat)
    ensures WrappedMix(w, seed, combine) == Mix(w, seed, combine)
  {
    WrappedSum(combine + GoldenRatio, seed * 64, seed / 4, Bound(w));
  }

  /** Three wrapped additions equal one reduction of the whole sum. */
  lemma WrappedSum(c: int, s: int, q: int, b: int)
    requires b > 0
    ensures ((c % b + s % b) % b + q) % b == (c + s + q) % b
  {
    var x := c % b + s % b;
    assert x % b == (c + s % b) % b by { ModAddLeft(c, s % b, b); }
    assert (c + s % b) % b == (c + s) % b by { ModAddLeft(s, c, b); }
    ModAddLeft(c + s, q, b);
  }

  /** The result is the seed exclusive-or the mix, and exclusive-or with
      the seed again exposes the mix. */
  lemma HashCombineFormula(w: Width, seed: nat, combine: nat)
    requires Fits(w, seed) && Fits(w, combine)
    ensures HashCombine(w, seed, combine) == Xor(seed, Mix(w, seed, combine))
    ensures Xor(HashCombine(w, seed, combine), seed) == Mix(w, seed, combine)
  {
    var m := Mix(w, seed, combine);
    WrappedMixIsMix(w, seed, combine);
    XorCommutes(seed, m);
    XorCancel(m, seed);
  }

  /** From a zero seed the result is the combined value plus the constant,
      wrapped. */
  lemma HashCombineZeroSeed(w: Width, combine: nat)
    requires Fits(w, combine)
    ensures HashCombine(w, 0, combine) == (combine + GoldenRatio) % Bound(w)
  {
    HashCombineFormula(w, 0, combine);
  }

  /** Recovers the combined value from the seed and the result of
      `hash_combine`. */
  function Uncombine(w: Width, seed: nat, r: nat): (combine: nat)
    ensures Fits(w, combine)
  {
    (Xor(r, seed) - GoldenRatio - 64 * seed - seed / 4) % Bound(w)
  }

  /** `hash_combine` with a fixed seed loses nothing: `Uncombine` inverts it. */
  lemma HashCombineRoundTrip(w: Width, seed: nat, combine: nat)
    requires Fits(w, seed) && Fits(w, combine)
    ensures Uncombine(w, seed, HashCombine(w, seed, combine)) == combine
  {
    HashCombineFormula(w, seed, combine);
    ModAddSub(combine, GoldenRatio + 64 * seed + seed / 4, Bound(w));
  }

  /** Hence, for one seed, distinct combined values give distinct results. */
  lemma HashCombineInjective(w: Width, seed: nat, x: nat, y: nat)
    requires Fits(w, seed) && Fits(w, x) && Fits(w, y)
    ensures HashCombine(w, seed, x) == HashCombine(w, seed, y) <==> x == y
  {
    HashCombineRoundTrip(w, seed, x);
    HashCombineRoundTrip(w, seed, y);
  }
}
