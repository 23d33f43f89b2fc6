/** The target's `size_t`, the result type of every hash in the toolkit.
    Its width is a compile-time property of the target (`sizeof(size_t)`),
    so it is a parameter of the model rather than a constant. */
module SizeT {
  import opened Bits

  /** The two widths the toolkit handles: 4-byte and 8-byte `size_t`. */
  datatype Width = Size32 | Size64

  /** 2^width: the modulus of `size_t` arithmetic on the target. */
  function Bound(w: Width): (b: nat)
    ensures b == TwoTo32 || b == TwoTo64
  {
    match w
    case Size32 => TwoTo32
    case Size64 => TwoTo64
  }

  /** A value of the target's `size_t`. */
  predicate Fits(w: Width, v: nat) {
    v < Bound(w)
  }

  /** `static_cast<size_t>` of a value of any integral type: the value
      reduced modulo 2^width, which is two's-complement wrap-around for a
      negative value and truncation for a wider one. */
  function Cast(w: Width, x: int): (r: nat)
    ensures Fits(w, r)
    ensures (r - x) % Bound(w) == 0
    ensures 0 <= x < Bound(w) ==> r == x
    ensures x < 0 && 0 <= x + Bound(w) ==> r == x + Bound(w)
  {
    var b := Bound(w);
    DivModUnique(x % b - x, b, -(x / b), 0);
    x % b
  }

  /** An exclusive-or of two `size_t` values is a `size_t` value. */
  lemma XorFits(w: Width, a: nat, b: nat)
    requires Fits(w, a) && Fits(w, b)
    ensures Fits(w, Xor(a, b))
  {
    if w == Size32 { Xor32(a, b); } else { Xor64(a, b); }
  }
}
