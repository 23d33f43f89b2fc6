/** `skr::fold_if_needed`: narrows a 64-bit value to `size_t`, folding the
    high half into the low half when `size_t` has only 32 bits. */
module Fold {
  import opened Bits
  import opened SizeT

  function Low(v: nat): nat { v % TwoTo32 }
  function High(v: nat): nat { v / TwoTo32 }

  /** `static_cast<size_t>(v ^ (v >> 32))` on a 4-byte `size_t`,
      `static_cast<size_t>(v)` on an 8-byte one. */
  function FoldIfNeeded(w: Width, v: nat): (r: nat)
    requires v < TwoTo64
    ensures Fits(w, r)
    ensures w == Size64 ==> r == v
    ensures w == Size32 ==> r == Xor(Low(v), High(v))
  {
    match w
    case Size32 =>
      FoldLowHalf(v);
      Cast(w, Xor(v, v / TwoTo32))
    case Size64 => Cast(w, v)
  }

  /** The low 32 bits of `v ^ (v >> 32)` are the exclusive-or of the two
      halves of v. */
  lemma FoldLowHalf(v: nat)
    requires v < TwoTo64
    ensures Xor(v, High(v)) % TwoTo32 == Xor(Low(v), High(v))
  {
    Pow2Word32();
    XorLowBits(v, High(v), 32);
  }

  /** A value that already fits a 4-byte `size_t` passes through unchanged. */
  lemma FoldNarrowIdentity(v: nat)
    requires v < TwoTo32
    ensures FoldIfNeeded(Size32, v) == v
  {
  }

  /** The 64-bit value with its halves exchanged. */
  function SwapHalves(v: nat): (s: nat)
    requires v < TwoTo64
    ensures s < TwoTo64
  {
    Low(v) * TwoTo32 + High(v)
  }

  /** Folding cannot tell a value from the one with its halves exchanged. */
  lemma FoldSwapHalves(v: nat)
    requires v < TwoTo64
    ensures FoldIfNeeded(Size32, SwapHalves(v)) == FoldIfNeeded(Size32, v)
  {
    var s := SwapHalves(v);
    DivModUnique(s, TwoTo32, Low(v), High(v));
    XorCommutes(Low(v), High(v));
  }

  /** Given the high half, the fold gives back the low half: the fold loses
      exactly the information in one half. */
  lemma FoldRecoversLow(v: nat)
    requires v < TwoTo64
    ensures Xor(FoldIfNeeded(Size32, v), High(v)) == Low(v)
  {
    XorCancel(Low(v), High(v));
  }
}
