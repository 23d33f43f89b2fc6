/** `skr::Hash<float>` and `skr::Hash<double>`. A floating-point value is
    modelled by its bit pattern only: it compares equal to zero exactly
    when every bit but the sign bit is clear (+0.0 and -0.0). */
module FloatHash {
  import opened Bits
  import opened SizeT
  import opened Fold

  const FloatSignBit: nat := 0x8000_0000
  const DoubleSignBit: nat := TwoTo63

  /** `val == 0` for the float with these bits. */
  predicate IsZeroFloat(bits: nat) {
    bits % FloatSignBit == 0
  }

  /** `val == 0` for the double with these bits. */
  predicate IsZeroDouble(bits: nat) {
    bits % DoubleSignBit == 0
  }

  /** The zero test accepts exactly the patterns of +0.0 and -0.0. */
  lemma ZeroFloatPatterns(bits: nat)
    requires bits < TwoTo32
    ensures IsZeroFloat(bits) <==> bits == 0 || bits == FloatSignBit
  {
  }

  lemma ZeroDoublePatterns(bits: nat)
    requires bits < TwoTo64
    ensures IsZeroDouble(bits) <==> bits == 0 || bits == DoubleSignBit
  {
  }

  /** Both zeros hash to 0; every other float hashes to its bit pattern,
      so only the zeros hash to 0. */
  function HashFloat(w: Width, bits: nat): (r: nat)
    requires bits < TwoTo32
    ensures Fits(w, r)
    ensures r == 0 <==> IsZeroFloat(bits)
    ensures !IsZeroFloat(bits) ==> r == bits
  {
    if IsZeroFloat(bits) then 0 else Cast(w, bits)
  }

  /** Two floats hash equally exactly when they have the same bits or are
      both zero. */
  lemma HashFloatInjective(w: Width, x: nat, y: nat)
    requires x < TwoTo32 && y < TwoTo32
    ensures (HashFloat(w, x) == HashFloat(w, y)) <==>
            (x == y || (IsZeroFloat(x) && IsZeroFloat(y)))
  {
  }

  /** Both zeros hash to 0. Every other double hashes to its bit pattern
      with an 8-byte `size_t`, and to the exclusive-or of the pattern's two
      halves with a 4-byte one. */
  function HashDouble(w: Width, bits: nat): (r: nat)
    requires bits < TwoTo64
    ensures Fits(w, r)
    ensures IsZeroDouble(bits) ==> r == 0
    ensures w == Size64 ==> (r == 0 <==> IsZeroDouble(bits))
    ensures !IsZeroDouble(bits) && w == Size64 ==> r == bits
    ensures !IsZeroDouble(bits) && w == Size32 ==> r == Xor(Low(bits), High(bits))
  {
    if IsZeroDouble(bits) then 0 else FoldIfNeeded(w, bits)
  }

  /** With an 8-byte `size_t` nothing is folded: doubles hash equally
      exactly when they have the same bits or are both zero. */
  lemma HashDoubleInjective64(x: nat, y: nat)
    requires x < TwoTo64 && y < TwoTo64
    ensures HashDouble(Size64, x) == 0 <==> IsZeroDouble(x)
    ensures (HashDouble(Size64, x) == HashDouble(Size64, y)) <==>
            (x == y || (IsZeroDouble(x) && IsZeroDouble(y)))
  {
  }

  /** With a 4-byte `size_t` a double hashes to 0 exactly when it is a zero
      or its two halves are equal. */
  lemma HashDoubleZero32(bits: nat)
    requires bits < TwoTo64
    ensures HashDouble(Size32, bits) == 0 <==> IsZeroDouble(bits) || Low(bits) == High(bits)
  {
    XorZeroIff(Low(bits), High(bits));
  }

  /** Without the zero test, -0.0 would fold to 0x80000000 on a 4-byte
      `size_t` rather than to the hash of +0.0. */
  lemma NegativeZeroNeedsTest()
    ensures FoldIfNeeded(Size32, DoubleSignBit) == FloatSignBit
    ensures FoldIfNeeded(Size32, 0) == 0
  {
    assert High(DoubleSignBit) == FloatSignBit;
  }

  /** With a 4-byte `size_t` a nonzero double can hash to 0: the one whose
      halves are equal, such as 0x0000000100000001. */
  lemma FoldedDoubleHitsZero()
    ensures !IsZeroDouble(0x1_0000_0001)
    ensures HashDouble(Size32, 0x1_0000_0001) == 0
  {
    XorSelf(1);
  }
}
