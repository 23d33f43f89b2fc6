# SakuraEngine hashing toolkit, in Dafny

This project models `modules/base/include/SkrBase/tools/hash.hpp` of
SakuraEngine: the `skr::Hash<T>` function objects and the helpers
`skr::hash_combine` and `skr::fold_if_needed`. Every hash in that header is a
small, pure, deterministic integer function, so each is modelled as a Dafny
function (or, for the string hashes, a method that runs the same loop as the
C++) and its promises are proved about it.

Representation choices:

- Machine words (`uint32_t`, `uint64_t`, `size_t`) are natural numbers below
  2^width. Every wrap-around of the C++ arithmetic is written out with `%`,
  `<< k` is a multiplication by 2^k and `>> k` a division. Bitwise
  exclusive-or is defined on naturals (`Bits.Xor`), with its algebra proved
  by induction on the bits.
- The width of `size_t` is a compile-time property of the target, so it is a
  parameter (`SizeT.Width`: 4 or 8 bytes). Whether plain `char` is signed and
  how wide `wchar_t` is are also target parameters (`Primitive.Target`).
- A `float` or `double` is modelled by its bit pattern only. It compares equal
  to 0 exactly when every bit but the sign bit is clear.
- A `const char*` (or `char16_t*`, `char32_t*`) is the sequence of code units
  stored from that address onward. The C++ loop reads up to the first NUL, so
  the sequence must contain one. That is the only precondition of the string
  hashes. Each code unit is modelled by its unsigned value. For `char`, that
  is the stored byte (0 to 255), which is what the loop's `(uint8_t)`
  conversion yields whether or not `char` is signed.

Modules, one per concern of the header:

- `Bits`: powers of two, `Xor` and its lemmas (commutes, cancels, bounds, low bits).
- `SizeT`: the width of `size_t` and `static_cast<size_t>`.
- `Combine`: `hash_combine`.
- `Fold`: `fold_if_needed`.
- `Primitive`: the `SKR_IMPL_HASH_CAST` hashes and the enum branch of `Hash<T>`.
- `FloatHash`: `Hash<float>` and `Hash<double>`.
- `StringHash`: the FNV-1 hashes of 8-, 16- and 32-bit strings and their
  `const` forwarders.

## Model

| member | source | states |
|---|---|---|
| SizeT.Cast | modules/base/include/SkrBase/tools/hash.hpp:46-53 | `static_cast<size_t>` gives a `size_t` value congruent to the input modulo 2^width. Values that `size_t` holds are unchanged, and a negative value no smaller than -2^width wraps to 2^width plus the value. |
| Combine.HashCombine | modules/base/include/SkrBase/tools/hash.hpp:36-39 | `hash_combine` of two `size_t` values is a `size_t` value on either width. |
| Combine.WrappedMixIsMix | modules/base/include/SkrBase/tools/hash.hpp:38 | Wrapping after each `+` and after the `<< 6` gives the same value as one reduction of `combine + 0x9e3779b9 + 64*seed + seed/4` modulo 2^width. |
| Combine.HashCombineFormula | modules/base/include/SkrBase/tools/hash.hpp:36-39 | `hash_combine(seed, x)` equals `seed XOR ((x + 0x9e3779b9 + 64*seed + seed/4) mod 2^width)`, and XOR with the seed again gives back that sum. |
| Combine.HashCombineZeroSeed | modules/base/include/SkrBase/tools/hash.hpp:36-39 | `hash_combine(0, x) == (x + 0x9e3779b9) mod 2^width`. |
| Combine.HashCombineRoundTrip | modules/base/include/SkrBase/tools/hash.hpp:36-39 | From the seed and the result, `Uncombine` recovers the combined value exactly. |
| Combine.HashCombineInjective | modules/base/include/SkrBase/tools/hash.hpp:36-39 | For a fixed seed, two combined values give the same result if and only if they are equal. |
| Fold.FoldIfNeeded | modules/base/include/SkrBase/tools/hash.hpp:56-66 | With an 8-byte `size_t` the value is returned unchanged. With a 4-byte `size_t` the result is the low half XOR the high half of the 64-bit value. Either way the result fits `size_t`. |
| Fold.FoldLowHalf | modules/base/include/SkrBase/tools/hash.hpp:60 | The low 32 bits of `v ^ (v >> 32)` are the XOR of the two 32-bit halves of v. |
| Fold.FoldNarrowIdentity | modules/base/include/SkrBase/tools/hash.hpp:58-61 | A value below 2^32 folds to itself on a 4-byte `size_t`. |
| Fold.FoldSwapHalves | modules/base/include/SkrBase/tools/hash.hpp:58-61 | On a 4-byte `size_t`, exchanging the halves of the value does not change the fold. |
| Fold.FoldRecoversLow | modules/base/include/SkrBase/tools/hash.hpp:58-61 | On a 4-byte `size_t`, the fold XOR the high half gives back the low half, so the fold loses exactly one half's worth of information. |
| Primitive.HashPrim | modules/base/include/SkrBase/tools/hash.hpp:46-53 | A boolean, character or fixed-width integer hashes to its value converted to `size_t`. That result fits `size_t`, is congruent to the value, equals it when `size_t` holds it, and wraps a negative value no smaller than -2^width to 2^width plus the value. |
| Primitive.HashPrimInjective | modules/base/include/SkrBase/tools/hash.hpp:77-94 | For a type no wider than `size_t`, two values hash equally if and only if they are equal. |
| Primitive.WideIntegersCollide | modules/base/include/SkrBase/tools/hash.hpp:93-94 | With a 4-byte `size_t`, two `int64_t` or two `uint64_t` values hash equally if and only if they differ by a multiple of 2^32. |
| Primitive.HashEnum | modules/base/include/SkrBase/tools/hash.hpp:22-26 | An enumerator hashes to its value converted to `size_t`: the result fits `size_t` and is congruent to the value, equals the value when `size_t` holds it, and wraps a negative value no smaller than -2^width to 2^width plus the value. |
| Primitive.HashEnumInjective | modules/base/include/SkrBase/tools/hash.hpp:22-26 | Two enumerators of the same underlying type hash equally if and only if they are equal, when that type is no wider than `size_t`. |
| FloatHash.ZeroFloatPatterns | modules/base/include/SkrBase/tools/hash.hpp:101-103 | The float zero test accepts exactly the bit patterns of +0.0 (0) and -0.0 (0x80000000). |
| FloatHash.HashFloat | modules/base/include/SkrBase/tools/hash.hpp:97-106 | Both zeros hash to 0. Any other float hashes to its 32-bit pattern. The hash is 0 if and only if the float is a zero. |
| FloatHash.HashFloatInjective | modules/base/include/SkrBase/tools/hash.hpp:97-106 | Two floats hash equally if and only if they have the same bits or are both zeros. |
| FloatHash.ZeroDoublePatterns | modules/base/include/SkrBase/tools/hash.hpp:113-115 | The double zero test accepts exactly the patterns of +0.0 and -0.0 (only the sign bit may be set). |
| FloatHash.HashDouble | modules/base/include/SkrBase/tools/hash.hpp:109-118 | Both zeros hash to 0. With an 8-byte `size_t` any other double hashes to its 64-bit pattern, so the hash is 0 if and only if the double is a zero. With a 4-byte `size_t` any other double hashes to the XOR of the pattern's two 32-bit halves. The result fits `size_t`. |
| FloatHash.HashDoubleZero32 | modules/base/include/SkrBase/tools/hash.hpp:109-118 | With a 4-byte `size_t`, a double hashes to 0 if and only if it is a zero or its two 32-bit halves are equal. |
| FloatHash.HashDoubleInjective64 | modules/base/include/SkrBase/tools/hash.hpp:109-118 | With an 8-byte `size_t`, a double hashes to 0 if and only if it is a zero. Two doubles hash equally if and only if they have the same bits or are both zeros. |
| FloatHash.NegativeZeroNeedsTest | modules/base/include/SkrBase/tools/hash.hpp:113-116 | On a 4-byte `size_t`, folding alone would send -0.0 to 0x80000000 and +0.0 to 0. The zero test is what makes them agree. |
| FloatHash.FoldedDoubleHitsZero | modules/base/include/SkrBase/tools/hash.hpp:115-116 | On a 4-byte `size_t`, the nonzero double 0x0000000100000001 hashes to 0. |
| StringHash.Step | modules/base/include/SkrBase/tools/hash.hpp:133 | One FNV-1 round on the `uint32_t` accumulator stays below 2^32. |
| StringHash.Fnv1 | modules/base/include/SkrBase/tools/hash.hpp:131-133 | The FNV-1 fold keeps the accumulator below 2^32 for any units. |
| StringHash.Fnv1Concat | modules/base/include/SkrBase/tools/hash.hpp:132-133 | Folding a concatenation continues from the fold of its first part. |
| StringHash.Fnv1Append | modules/base/include/SkrBase/tools/hash.hpp:132-133 | Folding one more unit c turns h into `((h * 16777619) mod 2^32) XOR c`. |
| StringHash.NulIndex | modules/base/include/SkrBase/tools/hash.hpp:132 | Finds the position of the first NUL unit: that unit is 0 and every unit before it is nonzero. |
| StringHash.Terminated | modules/base/include/SkrBase/tools/hash.hpp:132 | The string a pointer designates has no NUL, and it followed by a NUL is a prefix of the memory. |
| StringHash.CStringHash | modules/base/include/SkrBase/tools/hash.hpp:131-134 | The string hash is below 2^32 on every target, because the accumulator is `uint32_t` and is zero-extended. |
| StringHash.EmptyStringHash | modules/base/include/SkrBase/tools/hash.hpp:131-134 | A string whose first unit is NUL hashes to the offset basis 2166136261. |
| StringHash.TerminatedPrefix | modules/base/include/SkrBase/tools/hash.hpp:132 | For a NUL-free s, the loop reads exactly s from the memory `s, NUL, rest`. |
| StringHash.StringHashIsFold | modules/base/include/SkrBase/tools/hash.hpp:131-134 | The hash of a NUL-free s followed by NUL is the FNV-1 left fold of s from the offset basis, whatever follows. |
| StringHash.StringHashAppend | modules/base/include/SkrBase/tools/hash.hpp:132-133 | Appending a non-NUL unit c turns a string's hash h into `((h * 16777619) mod 2^32) XOR c`. |
| StringHash.StringHashIgnoresTail | modules/base/include/SkrBase/tools/hash.hpp:132 | Units after the first NUL never affect the hash. |
| StringHash.HashChars8 | modules/base/include/SkrBase/tools/hash.hpp:127-136 | The loop over 8-bit units computes the FNV-1 string hash of the unsigned unit values, and the result is below 2^32. |
| StringHash.HashChars16 | modules/base/include/SkrBase/tools/hash.hpp:146-155 | The loop over 16-bit units computes the same FNV-1 string hash of the unit values, and the result is below 2^32. |
| StringHash.HashChars32 | modules/base/include/SkrBase/tools/hash.hpp:165-174 | The loop over 32-bit units computes the same FNV-1 string hash of the unit values, and the result is below 2^32. |
| StringHash.HashConstChars8 | modules/base/include/SkrBase/tools/hash.hpp:137-143 | The `const char*` overload returns exactly the FNV-1 string hash that the `char*` one does. |
| StringHash.HashConstChars16 | modules/base/include/SkrBase/tools/hash.hpp:156-162 | The `const char16_t*` overload returns exactly the FNV-1 string hash that the `char16_t*` one does. |
| StringHash.HashConstChars32 | modules/base/include/SkrBase/tools/hash.hpp:175-181 | The `const char32_t*` overload returns exactly the FNV-1 string hash that the `char32_t*` one does. |
| StringHash.SameValuesSameHash8And16 | modules/base/include/SkrBase/tools/hash.hpp:146-155 | An 8-bit and a 16-bit string whose units have equal unsigned values hash equally. |
| StringHash.SameValuesSameHash16And32 | modules/base/include/SkrBase/tools/hash.hpp:165-174 | A 16-bit and a 32-bit string whose units have equal unsigned values hash equally. |
| StringHash.TailIgnored8 | modules/base/include/SkrBase/tools/hash.hpp:132 | For 8-bit strings, units after the terminator never affect the hash. |
| StringHash.TailIgnored16 | modules/base/include/SkrBase/tools/hash.hpp:151 | For 16-bit strings, units after the terminator never affect the hash. |
| StringHash.TailIgnored32 | modules/base/include/SkrBase/tools/hash.hpp:170 | For 32-bit strings, units after the terminator never affect the hash. |

## Left out

- `Hash<T*>` (hash.hpp:69-75): it hashes a raw address, and an address is an opaque integer here. Stating that it hashes to itself would add nothing.
- The struct branch of the generic `Hash<T>` (hash.hpp:27-31): it dispatches at compile time to a user-supplied `T::_skr_hash`, whose code is not available.
- Enumerations whose underlying type has no `Hash` specialisation of its own (for example `long long` where `int64_t` is `long`): in the source, `Hash<Underlying>` then falls into the struct branch and fails the `static_assert` at hash.hpp:29, so such enums do not compile and there is no behaviour to model. The enum model covers the underlying types specialised at hash.hpp:78-94.
- Floating-point arithmetic: floats and doubles are bit patterns, and `val == 0` is modelled as "every bit but the sign is clear", which is what IEEE 754 comparison with zero means for every pattern (NaNs compare unequal and are hashed by their bits).
- `fold_if_needed` with a `size_t` of neither 4 nor 8 bytes: the C++ function then has no return statement, and the model allows only the two widths.
- Combine.HashCombine: its own contract states only that the result fits `size_t`. The exact value is stated by `Combine.HashCombineFormula`.
- The ECS memory pools, type registry, task scheduler and `dual_context_t` (modules/runtime/src/ecs/context.hpp): the aggregate only declares fields, and the implementations it includes (`pool.hpp`, `scheduler.hpp`, `type_registry.hpp`) are not part of this model.
