/** Bytes as small integers, and their view as bit-vectors for the checksums. */
module Bytes {
  type byte = x: int | 0 <= x < 256

  /** A sequence number: one bit. */
  type bit = x: int | 0 <= x < 2

  function Min(a: int, b: int): int {
    if a <= b then a else b
  }

  /** Sets the bit of weight `w` (a power of two) in `b`, as `b |= w` does. */
  function SetBit(b: byte, w: int): (r: byte)
    requires w in {1, 2, 4, 8, 16, 32, 64, 128}
  {
    if b / w % 2 == 1 then b else (b + w) % 256
  }

  /** Concatenation of a list of strings. */
  function Concat<T>(parts: seq<seq<T>>): seq<T> {
    if parts == [] then [] else parts[0] + Concat(parts[1..])
  }

  // ---- bytes as bit-vectors, nibble by nibble ----

  function NibbleBits(n: int): bv8
    requires 0 <= n < 16
  {
    (if n % 2 == 1 then 1 else 0) | (if n / 2 % 2 == 1 then 2 else 0) |
    (if n / 4 % 2 == 1 then 4 else 0) | (if n / 8 == 1 then 8 else 0)
  }

  function NibbleVal(v: bv8): (n: int)
    ensures 0 <= n < 16
  {
    (if v & 1 != 0 then 1 else 0) + (if v & 2 != 0 then 2 else 0) +
    (if v & 4 != 0 then 4 else 0) + (if v & 8 != 0 then 8 else 0)
  }

  function Bits(b: byte): bv8 {
    (NibbleBits(b / 16) << 4) | NibbleBits(b % 16)
  }

  function Val(v: bv8): byte {
    16 * NibbleVal(v >> 4) + NibbleVal(v & 15)
  }

  lemma NibbleValBits(n: int)
    requires 0 <= n < 16
    ensures NibbleVal(NibbleBits(n)) == n && NibbleBits(n) < 16
  {
  }

  lemma NibbleBitsVal(v: bv8)
    requires v < 16
    ensures NibbleBits(NibbleVal(v)) == v
  {
  }

  lemma JoinNibbles(h: bv8, l: bv8)
    requires h < 16 && l < 16
    ensures ((h << 4) | l) >> 4 == h && ((h << 4) | l) & 15 == l
  {
  }

  lemma SplitNibbles(v: bv8)
    ensures v >> 4 < 16 && v & 15 < 16 && ((v >> 4) << 4) | (v & 15) == v
  {
  }

  lemma BitsOfVal(v: bv8)
    ensures Bits(Val(v)) == v
  {
    SplitNibbles(v);
    NibbleBitsVal(v >> 4);
    NibbleBitsVal(v & 15);
    var h, l := NibbleVal(v >> 4), NibbleVal(v & 15);
    assert Val(v) / 16 == h && Val(v) % 16 == l;
  }

  lemma ValOfBits(b: byte)
    ensures Val(Bits(b)) == b
  {
    NibbleValBits(b / 16);
    NibbleValBits(b % 16);
    JoinNibbles(NibbleBits(b / 16), NibbleBits(b % 16));
  }

  lemma BitsInjective(a: byte, b: byte)
    requires Bits(a) == Bits(b)
    ensures a == b
  {
    ValOfBits(a);
    ValOfBits(b);
  }

  lemma ValInjective(a: bv8, b: bv8)
    requires Val(a) == Val(b)
    ensures a == b
  {
    BitsOfVal(a);
    BitsOfVal(b);
  }
}
