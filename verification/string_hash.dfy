/** `skr::Hash<char*>`, `skr::Hash<char16_t*>`, `skr::Hash<char32_t*>` and
    their `const` forwarders: the 32-bit FNV-1 hash of a NUL-terminated
    string of 8-, 16- or 32-bit code units. The accumulator is a
    `uint32_t` whatever the width of `size_t`, and the result is
    zero-extended to `size_t`, so it is the same on every target.

    A pointer to a string is modelled by the sequence of code units from
    that address onward; the source reads it up to and including the first
    NUL, so the sequence must contain one. */
module StringHash {
  import opened Bits

  /** The 32-bit FNV offset basis and FNV prime. */
  const OffsetBasis: nat := 2166136261
  const Prime: nat := 16777619

  newtype Unit8 = x: int | 0 <= x < 0x100
  newtype Unit16 = x: int | 0 <= x < 0x1_0000
  newtype Unit32 = x: int | 0 <= x < 0x1_0000_0000

  /** Code units read as unsigned 32-bit words. */
  predicate Words(s: seq<nat>) {
    forall i :: 0 <= i < |s| ==> s[i] < TwoTo32
  }

  /** One FNV-1 round on the `uint32_t` accumulator: multiply by the prime
      modulo 2^32, then exclusive-or the unit in. */
  function Step(h: nat, c: nat): (r: nat)
    requires h < TwoTo32 && c < TwoTo32
    ensures r < TwoTo32
  {
    Xor32(h * Prime % TwoTo32, c);
    Xor(h * Prime % TwoTo32, c)
  }

  /** FNV-1 of the units of s from accumulator h: a left fold of `Step`. */
  function Fnv1(h: nat, s: seq<nat>): (r: nat)
    requires h < TwoTo32 && Words(s)
    ensures r < TwoTo32
    decreases |s|
  {
    if s == [] then h else Fnv1(Step(h, s[0]), s[1..])
  }

  /** Hashing a concatenation continues from the hash of the first part. */
  lemma {:induction false} Fnv1Concat(h: nat, s: seq<nat>, t: seq<nat>)
    requires h < TwoTo32 && Words(s) && Words(t)
    ensures Words(s + t)
    ensures Fnv1(h, s + t) == Fnv1(Fnv1(h, s), t)
    decreases |s|
  {
    if s != [] {
      assert (s + t)[1..] == s[1..] + t;
      Fnv1Concat(Step(h, s[0]), s[1..], t);
    } else {
      assert s + t == t;
    }
  }

  /** Appending one unit c turns the hash h into `(h * prime) ^ c`. */
  lemma Fnv1Append(h: nat, s: seq<nat>, c: nat)
    requires h < TwoTo32 && Words(s) && c < TwoTo32
    ensures Words(s + [c])
    ensures Fnv1(h, s + [c]) == Step(Fnv1(h, s), c)
  {
    Fnv1Concat(h, s, [c]);
  }

  /** Position of the first NUL unit. */
  function NulIndex(s: seq<nat>): (i: nat)
    requires 0 in s
    ensures i < |s| && s[i] == 0
    ensures forall j :: 0 <= j < i ==> s[j] != 0
  {
    if s[0] == 0 then 0 else 1 + NulIndex(s[1..])
  }

  /** The string a pointer designates: the units before the first NUL. */
  function Terminated(s: seq<nat>): (t: seq<nat>)
    requires 0 in s
    ensures 0 !in t
    ensures t + [0] <= s
  {
    s[..NulIndex(s)]
  }

  /** The hash of the NUL-terminated string at the start of s, as the
      `size_t` the three specialisations return. */
  function CStringHash(s: seq<nat>): (r: nat)
    requires 0 in s && Words(s)
    ensures r < TwoTo32
  {
    Fnv1(OffsetBasis, Terminated(s))
  }

  /** A string that is only its terminator hashes to the offset basis. */
  lemma EmptyStringHash(s: seq<nat>)
    requires |s| > 0 && s[0] == 0 && Words(s)
    ensures CStringHash(s) == 2166136261
  {
  }

  /** The string designated by s + [0] + rest is s when s has no NUL. */
  lemma {:induction false} TerminatedPrefix(s: seq<nat>, rest: seq<nat>)
    requires 0 !in s
    ensures 0 in s + [0] + rest
    ensures Terminated(s + [0] + rest) == s
    decreases |s|
  {
    var u := s + [0] + rest;
    assert u[|s|] == 0;
    if s != [] {
      assert u[1..] == s[1..] + [0] + rest;
      TerminatedPrefix(s[1..], rest);
    }
  }

  /** The hash of a NUL-free string s followed by its terminator is the
      FNV-1 fold of s from the offset basis, whatever follows. */
  lemma StringHashIsFold(s: seq<nat>, rest: seq<nat>)
    requires 0 !in s && Words(s) && Words(rest)
    ensures 0 in s + [0] + rest && Words(s + [0] + rest)
    ensures CStringHash(s + [0] + rest) == Fnv1(OffsetBasis, s)
  {
    TerminatedPrefix(s, rest);
  }

  /** Appending a non-NUL unit c to a string turns its hash h into
      `(h * 16777619 mod 2^32) ^ c`. */
  lemma StringHashAppend(s: seq<nat>, c: nat)
    requires 0 !in s && Words(s) && 0 < c < TwoTo32
    ensures CStringHash(s + [c] + [0]) == Step(CStringHash(s + [0]), c)
  {
    StringHashIsFold(s, []);
    StringHashIsFold(s + [c], []);
    assert s + [0] + [] == s + [0];
    assert s + [c] + [0] + [] == s + [c] + [0];
    Fnv1Append(OffsetBasis, s, c);
  }

  /** Units after the first NUL never affect the hash. */
  lemma StringHashIgnoresTail(s: seq<nat>, rest: seq<nat>)
    requires 0 in s && Words(s) && Words(rest)
    ensures 0 in s + rest && Words(s + rest)
    ensures CStringHash(s + rest) == CStringHash(s)
  {
    var t := Terminated(s);
    var i := NulIndex(s);
    assert s == t + [0] + s[i + 1..];
    assert s + rest == t + [0] + (s[i + 1..] + rest);
    StringHashIsFold(t, s[i + 1..]);
    StringHashIsFold(t, s[i + 1..] + rest);
  }

  /** Code units as unsigned values. A `char` unit is already its unsigned
      byte, which is what the `(uint8_t)` conversion of the loop yields. */
  function Values8(p: seq<Unit8>): (s: seq<nat>)
    ensures |s| == |p| && Words(s)
    ensures forall i :: 0 <= i < |p| ==> s[i] == p[i] as nat
    ensures 0 in p <==> 0 in s
  {
    seq(|p|, i requires 0 <= i < |p| => p[i] as nat)
  }

  function Values16(p: seq<Unit16>): (s: seq<nat>)
    ensures |s| == |p| && Words(s)
    ensures forall i :: 0 <= i < |p| ==> s[i] == p[i] as nat
    ensures 0 in p <==> 0 in s
  {
    seq(|p|, i requires 0 <= i < |p| => p[i] as nat)
  }

  function Values32(p: seq<Unit32>): (s: seq<nat>)
    ensures |s| == |p| && Words(s)
    ensures forall i :: 0 <= i < |p| ==> s[i] == p[i] as nat
    ensures 0 in p <==> 0 in s
  {
    seq(|p|, i requires 0 <= i < |p| => p[i] as nat)
  }

  /** `Hash<char*>`: the source's loop over 8-bit units. */
  method HashChars8(p: seq<Unit8>) returns (r: nat)
    requires 0 in p
    ensures r < TwoTo32
    ensures r == CStringHash(Values8(p))
  {
    ghost var s := Values8(p);
    var result: nat := OffsetBasis;
    var i := 0;
    while p[i] != 0
      invariant i <= NulIndex(s)
      invariant result == Fnv1(OffsetBasis, s[..i])
      decreases NulIndex(s) - i
    {
      assert s[..i + 1] == s[..i] + [s[i]];
      Fnv1Append(OffsetBasis, s[..i], s[i]);
      result := Step(result, p[i] as nat);
      i := i + 1;
    }
    r := result;
  }

  /** `Hash<char16_t*>`: the source's loop over 16-bit units. */
  method HashChars16(p: seq<Unit16>) returns (r: nat)
    requires 0 in p
    ensures r < TwoTo32
    ensures r == CStringHash(Values16(p))
  {
    ghost var s := Values16(p);
    var result: nat := OffsetBasis;
    var i := 0;
    while p[i] != 0
      invariant i <= NulIndex(s)
      invariant result == Fnv1(OffsetBasis, s[..i])
      decreases NulIndex(s) - i
    {
      assert s[..i + 1] == s[..i] + [s[i]];
      Fnv1Append(OffsetBasis, s[..i], s[i]);
      result := Step(result, p[i] as nat);
      i := i + 1;
    }
    r := result;
  }

  /** `Hash<char32_t*>`: the source's loop over 32-bit units. */
  method HashChars32(p: seq<Unit32>) returns (r: nat)
    requires 0 in p
    ensures r < TwoTo32
    ensures r == CStringHash(Values32(p))
  {
    ghost var s := Values32(p);
    var result: nat := OffsetBasis;
    var i := 0;
    while p[i] != 0
      invariant i <= NulIndex(s)
      invariant result == Fnv1(OffsetBasis, s[..i])
      decreases NulIndex(s) - i
    {
      assert s[..i + 1] == s[..i] + [s[i]];
      Fnv1Append(OffsetBasis, s[..i], s[i]);
      result := Step(result, p[i] as nat);
      i := i + 1;
    }
    r := result;
  }

  /** `Hash<const char*>` forwards to `Hash<char*>`. */
  method HashConstChars8(p: seq<Unit8>) returns (r: nat)
    requires 0 in p
    ensures r == CStringHash(Values8(p))
  {
    r := HashChars8(p);
  }

  /** `Hash<const char16_t*>` forwards to `Hash<char16_t*>`. */
  method HashConstChars16(p: seq<Unit16>) returns (r: nat)
    requires 0 in p
    ensures r == CStringHash(Values16(p))
  {
    r := HashChars16(p);
  }

  /** `Hash<const char32_t*>` forwards to `Hash<char32_t*>`. */
  method HashConstChars32(p: seq<Unit32>) returns (r: nat)
    requires 0 in p
    ensures r == CStringHash(Values32(p))
  {
    r := HashChars32(p);
  }

  /** The three widths run the same recurrence: strings whose code units
      have equal unsigned values hash equally. */
  lemma SameValuesSameHash8And16(a: seq<Unit8>, b: seq<Unit16>)
    requires 0 in a
    requires |a| == |b| && forall i :: 0 <= i < |a| ==> a[i] as int == b[i] as int
    ensures 0 in b
    ensures CStringHash(Values8(a)) == CStringHash(Values16(b))
  {
    assert Values8(a) == Values16(b);
  }

  lemma SameValuesSameHash16And32(a: seq<Unit16>, b: seq<Unit32>)
    requires 0 in a
    requires |a| == |b| && forall i :: 0 <= i < |a| ==> a[i] as int == b[i] as int
    ensures 0 in b
    ensures CStringHash(Values16(a)) == CStringHash(Values32(b))
  {
    assert Values16(a) == Values32(b);
  }

  /** For every width, units after the terminator never affect the hash. */
  lemma TailIgnored8(p: seq<Unit8>, q: seq<Unit8>)
    requires 0 in p
    ensures 0 in p + q
    ensures CStringHash(Values8(p + q)) == CStringHash(Values8(p))
  {
    assert Values8(p + q) == Values8(p) + Values8(q);
    StringHashIgnoresTail(Values8(p), Values8(q));
  }

  lemma TailIgnored16(p: seq<Unit16>, q: seq<Unit16>)
    requires 0 in p
    ensures 0 in p + q
    ensures CStringHash(Values16(p + q)) == CStringHash(Values16(p))
  {
    assert Values16(p + q) == Values16(p) + Values16(q);
    StringHashIgnoresTail(Values16(p), Values16(q));
  }

  lemma TailIgnored32(p: seq<Unit32>, q: seq<Unit32>)
    requires 0 in p
    ensures 0 in p + q
    ensures CStringHash(Values32(p + q)) == CStringHash(Values32(p))
  {
    assert Values32(p + q) == Values32(p) + Values32(q);
    StringHashIgnoresTail(Values32(p), Values32(q));
  }
}
