/** The `SKR_IMPL_HASH_CAST` specialisations of `skr::Hash` (booleans,
    character types and fixed-width integers, each hashed to its value
    converted to `size_t`) and the enum branch of the generic `skr::Hash<T>`,
    which hashes an enumerator as its underlying integer. */
module Primitive {
  import opened Bits
  import opened SizeT

  /** The types given a `SKR_IMPL_HASH_CAST` specialisation. */
  datatype Prim =
    | Bool | Char | SignedChar | UnsignedChar | WChar | Char16 | Char32
    | Int16 | UInt16 | Int32 | UInt32 | Int64 | UInt64

  /** Number of value bits of an integral type. */
  datatype BitCount = One | Eight | Sixteen | ThirtyTwo | SixtyFour

  /** Width and signedness of an integral type. */
  datatype IntKind = IntKind(bits: BitCount, signed: bool)

  /** What the C++ language leaves to the target: the width of `size_t`,
      whether plain `char` is signed, and the representation of `wchar_t`. */
  datatype Target = Target(size: Width, charSigned: bool, wchar: IntKind)

  /** 2^bits: the number of values of a type with that many bits. */
  function Modulus(c: BitCount): (m: nat)
    ensures m >= 2
  {
    match c
    case One => 2
    case Eight => 0x100
    case Sixteen => 0x1_0000
    case ThirtyTwo => TwoTo32
    case SixtyFour => TwoTo64
  }

  function KindOf(t: Target, p: Prim): IntKind {
    match p
    case Bool => IntKind(One, false)
    case Char => IntKind(Eight, t.charSigned)
    case SignedChar => IntKind(Eight, true)
    case UnsignedChar => IntKind(Eight, false)
    case WChar => t.wchar
    case Char16 => IntKind(Sixteen, false)
    case Char32 => IntKind(ThirtyTwo, false)
    case Int16 => IntKind(Sixteen, true)
    case UInt16 => IntKind(Sixteen, false)
    case Int32 => IntKind(ThirtyTwo, true)
    case UInt32 => IntKind(ThirtyTwo, false)
    case Int64 => IntKind(SixtyFour, true)
    case UInt64 => IntKind(SixtyFour, false)
  }

  /** The values of an integral type: two's complement when signed. */
  predicate InRange(k: IntKind, v: int) {
    var m := Modulus(k.bits);
    if k.signed then -(m / 2) <= v < m / 2 else 0 <= v < m
  }

  /** `Hash<T>()(val)` for a `SKR_IMPL_HASH_CAST` type T:
      `static_cast<size_t>(val)`. A value that `size_t` can hold hashes to
      itself; a negative one wraps to 2^width plus the value; anything
      else is reduced modulo 2^width. */
  function HashPrim(t: Target, p: Prim, v: int): (r: nat)
    requires InRange(KindOf(t, p), v)
    ensures Fits(t.size, r)
    ensures (r - v) % Bound(t.size) == 0
    ensures 0 <= v < Bound(t.size) ==> r == v
    ensures v < 0 && 0 <= v + Bound(t.size) ==> r == v + Bound(t.size)
  {
    Cast(t.size, v)
  }

  /** When the type is no wider than `size_t`, the hash is injective:
      two values of the type hash equally exactly when they are equal. */
  lemma HashPrimInjective(t: Target, p: Prim, x: int, y: int)
    requires InRange(KindOf(t, p), x) && InRange(KindOf(t, p), y)
    requires Modulus(KindOf(t, p).bits) <= Bound(t.size)
    ensures HashPrim(t, p, x) == HashPrim(t, p, y) <==> x == y
  {
    var b := Bound(t.size);
    if HashPrim(t, p, x) == HashPrim(t, p, y) {
      assert x - y == b * (x / b - y / b);
      MulMagnitude(b, x / b - y / b);
    }
  }

  /** A 64-bit integer is wider than a 4-byte `size_t`: two values of a
      64-bit type collide there exactly when they differ by a multiple of
      2^32. */
  lemma WideIntegersCollide(t: Target, p: Prim, x: int, y: int)
    requires t.size == Size32 && (p == Int64 || p == UInt64)
    requires InRange(KindOf(t, p), x) && InRange(KindOf(t, p), y)
    ensures HashPrim(t, p, x) == HashPrim(t, p, y) <==> (x - y) % TwoTo32 == 0
  {
    var b := TwoTo32;
    if (x - y) % b == 0 {
      assert HashPrim(t, p, x) == x % b;
      assert HashPrim(t, p, y) == y % b;
      DivModUnique(x, b, y / b + (x - y) / b, y % b);
    } else if HashPrim(t, p, x) == HashPrim(t, p, y) {
      DivModUnique(x - y, b, x / b - y / b, 0);
    }
  }

  /** An enumerator: its underlying integral type and its value. */
  datatype Enum = Enum(underlying: Prim, value: int)

  predicate ValidEnum(t: Target, e: Enum) {
    InRange(KindOf(t, e.underlying), e.value)
  }

  /** The enum branch of `Hash<T>`: hash the value as its underlying type,
      which converts the enumerator's value to `size_t`. */
  function HashEnum(t: Target, e: Enum): (r: nat)
    requires ValidEnum(t, e)
    ensures Fits(t.size, r)
    ensures (r - e.value) % Bound(t.size) == 0
    ensures 0 <= e.value < Bound(t.size) ==> r == e.value
    ensures e.value < 0 && 0 <= e.value + Bound(t.size) ==> r == e.value + Bound(t.size)
  {
    HashPrim(t, e.underlying, e.value)
  }

  /** Two enumerators of one enumeration (same underlying type) hash equally
      exactly when their values are equal, when the underlying type is no
      wider than `size_t`. */
  lemma HashEnumInjective(t: Target, x: Enum, y: Enum)
    requires ValidEnum(t, x) && ValidEnum(t, y)
    requires x.underlying == y.underlying
    requires Modulus(KindOf(t, x.underlying).bits) <= Bound(t.size)
    ensures HashEnum(t, x) == HashEnum(t, y) <==> x == y
  {
    HashPrimInjective(t, x.underlying, x.value, y.value);
  }
}
