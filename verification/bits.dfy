/** Unsigned machine words as natural numbers: powers of two and the
    bitwise exclusive-or that the hash functions use. The words of the
    toolkit are `uint32_t`, `uint64_t` and `size_t`; each is a natural number
    below 2^width, and every wrapping operation is written out with `%`. */
module Bits {

  const TwoTo32: nat := 0x1_0000_0000
  const TwoTo63: nat := 0x8000_0000_0000_0000
  const TwoTo64: nat := 0x1_0000_0000_0000_0000

  function Pow2(n: nat): (r: nat)
    ensures r >= 1
  {
    if n == 0 then 1 else 2 * Pow2(n - 1)
  }

  lemma {:induction false} Pow2Add(a: nat, b: nat)
    ensures Pow2(a + b) == Pow2(a) * Pow2(b)
    decreases a
  {
    if a > 0 {
      Pow2Add(a - 1, b);
    }
  }

  lemma Pow2Word32()
    ensures Pow2(32) == TwoTo32
  {
    assert Pow2(2) == 4;
    assert Pow2(4) == 16 by { Pow2Add(2, 2); }
    assert Pow2(8) == 256 by { Pow2Add(4, 4); }
    assert Pow2(16) == 0x1_0000 by { Pow2Add(8, 8); }
    Pow2Add(16, 16);
  }

  lemma Pow2Word64()
    ensures Pow2(64) == TwoTo64
  {
    Pow2Word32();
    Pow2Add(32, 32);
  }

  /** The bit (0 or 1) that exclusive-or produces from two bits. */
  function XorBit(a: nat, b: nat): (r: nat)
    ensures r < 2
    ensures r == 0 <==> a % 2 == b % 2
  {
    if a % 2 == b % 2 then 0 else 1
  }

  /** Bitwise exclusive-or of two unbounded naturals, lowest bit first. */
  function Xor(a: nat, b: nat): nat
    decreases a + b
  {
    if a == 0 then b
    else if b == 0 then a
    else 2 * Xor(a / 2, b / 2) + XorBit(a, b)
  }

  /** The bit-by-bit reading of `Xor`, valid also when an operand is zero. */
  lemma XorUnfold(a: nat, b: nat)
    ensures Xor(a, b) == 2 * Xor(a / 2, b / 2) + XorBit(a, b)
  {
  }

  lemma {:induction false} XorCommutes(a: nat, b: nat)
    ensures Xor(a, b) == Xor(b, a)
    decreases a + b
  {
    if a != 0 && b != 0 {
      XorCommutes(a / 2, b / 2);
    }
  }

  lemma {:induction false} XorSelf(a: nat)
    ensures Xor(a, a) == 0
    decreases a
  {
    if a != 0 {
      XorSelf(a / 2);
    }
  }

  /** Exclusive-or with the same operand twice is the identity. */
  lemma {:induction false} XorCancel(a: nat, b: nat)
    ensures Xor(Xor(a, b), b) == a
    decreases a + b
  {
    if a != 0 || b != 0 {
      var x := Xor(a, b);
      XorUnfold(a, b);
      XorUnfold(x, b);
      XorCancel(a / 2, b / 2);
    }
  }

  /** Two words are equal exactly when their exclusive-or is zero. */
  lemma XorZeroIff(a: nat, b: nat)
    ensures Xor(a, b) == 0 <==> a == b
  {
    if Xor(a, b) == 0 {
      XorCancel(a, b);
    } else if a == b {
      XorSelf(a);
    }
  }

  /** Exclusive-or of two n-bit words is an n-bit word. */
  lemma {:induction false} XorBound(a: nat, b: nat, n: nat)
    requires a < Pow2(n) && b < Pow2(n)
    ensures Xor(a, b) < Pow2(n)
    decreases n
  {
    if a != 0 && b != 0 {
      XorBound(a / 2, b / 2, n - 1);
    }
  }

  /** The low n bits of an exclusive-or depend only on the low n bits of
      its operands. */
  lemma {:induction false} XorLowBits(a: nat, b: nat, n: nat)
    ensures Xor(a, b) % Pow2(n) == Xor(a % Pow2(n), b % Pow2(n))
    decreases n
  {
    if n > 0 {
      var m := Pow2(n - 1);
      var x, y := Xor(a, b), Xor(a / 2, b / 2);
      XorUnfold(a, b);
      DivModUnique(x, 2, y, XorBit(a, b));
      DivModHalf(x, m);
      assert x % Pow2(n) == 2 * (y % m) + XorBit(a, b);
      DivModHalf(a, m);
      DivModHalf(b, m);
      XorUnfold(a % Pow2(n), b % Pow2(n));
      XorLowBits(a / 2, b / 2, n - 1);
    }
  }

  /** A nonzero multiple of a positive number is at least that number in
      magnitude. */
  lemma MulMagnitude(d: int, k: int)
    requires d > 0
    ensures k >= 1 ==> d * k >= d
    ensures k <= -1 ==> d * k <= -d
  {
  }

  /** Quotient and remainder are determined by any decomposition
      `x == d * q + r` with `0 <= r < d`. */
  lemma DivModUnique(x: int, d: int, q: int, r: int)
    requires d > 0 && 0 <= r < d && x == d * q + r
    ensures x / d == q && x % d == r
  {
    var k := x / d - q;
    assert d * k == r - x % d;
    MulMagnitude(d, k);
  }

  /** Halving commutes with reduction modulo a power of two. */
  lemma DivModHalf(x: nat, m: nat)
    requires m >= 1
    ensures (x % (2 * m)) / 2 == (x / 2) % m
    ensures (x % (2 * m)) % 2 == x % 2
    ensures x % (2 * m) == 2 * ((x / 2) % m) + x % 2
  {
    var q, r := x / (2 * m), x % (2 * m);
    assert x == 2 * m * q + r;
    DivModUnique(r, 2, r / 2, r % 2);
    DivModUnique(x, 2, m * q + r / 2, r % 2);
    DivModUnique(x / 2, m, q, r / 2);
  }

  /** Reducing an addend first does not change a sum modulo b. */
  lemma ModAddLeft(a: int, c: int, b: int)
    requires b > 0
    ensures (a % b + c) % b == (a + c) % b
  {
    DivModUnique(a % b + c, b, (a + c) / b - a / b, (a + c) % b);
  }

  /** Adding k modulo b and then subtracting it again gives back any
      residue below b. */
  lemma ModAddSub(x: int, k: int, b: int)
    requires b > 0 && 0 <= x < b
    ensures ((x + k) % b - k) % b == x
  {
    DivModUnique((x + k) % b - k, b, -((x + k) / b), x);
  }

  /** Bound lemmas for the two word widths of the toolkit. */
  lemma Xor32(a: nat, b: nat)
    requires a < TwoTo32 && b < TwoTo32
    ensures Xor(a, b) < TwoTo32
  {
    Pow2Word32();
    XorBound(a, b, 32);
  }

  lemma Xor64(a: nat, b: nat)
    requires a < TwoTo64 && b < TwoTo64
    ensures Xor(a, b) < TwoTo64
  {
    Pow2Word64();
    XorBound(a, b, 64);
  }
}
