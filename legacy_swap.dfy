/**
 * The details::toFromLittleEndian overloads of the older Serializer.h: explicit
 * shift-and-mask byte swaps for 16, 32 and 64-bit integers, applied on a
 * big-endian host only. Signed integers are carried as their two's-complement
 * bit pattern, so the int16_t/int32_t/int64_t overloads, which cast to the
 * unsigned type, swap and cast back, are these same functions.
 */
module LegacySwap {
  import opened Bytes
  import opened Endian

  function Swap16(x: bv16): bv16 {
    (x << 8) | (x >> 8)
  }

  function Swap32(x: bv32): bv32 {
    ((x << 24) & 0xFF00_0000) |
    ((x << 8) & 0x00FF_0000) |
    ((x >> 8) & 0x0000_FF00) |
    ((x >> 24) & 0x0000_00FF)
  }

  function Swap64(x: bv64): bv64 {
    ((x << 56) & 0xFF00_0000_0000_0000) |
    ((x << 40) & 0x00FF_0000_0000_0000) |
    ((x << 24) & 0x0000_FF00_0000_0000) |
    ((x << 8) & 0x0000_00FF_0000_0000) |
    ((x >> 8) & 0x0000_0000_FF00_0000) |
    ((x >> 24) & 0x0000_0000_00FF_0000) |
    ((x >> 40) & 0x0000_0000_0000_FF00) |
    ((x >> 56) & 0x0000_0000_0000_00FF)
  }

  /**
   * The little-endian byte image of a word: lane j holds byte j (0 = least
   * significant), kept in the word's own width and masked to 0..255.
   */
  function Image16(x: bv16): (r: seq<bv16>)
    ensures |r| == 2
  {
    [x & 0xFF, (x >> 8) & 0xFF]
  }

  function Image32(x: bv32): (r: seq<bv32>)
    ensures |r| == 4
  {
    [x & 0xFF, (x >> 8) & 0xFF, (x >> 16) & 0xFF, (x >> 24) & 0xFF]
  }

  function Image64(x: bv64): (r: seq<bv64>)
    ensures |r| == 8
  {
    [x & 0xFF, (x >> 8) & 0xFF, (x >> 16) & 0xFF, (x >> 24) & 0xFF,
     (x >> 32) & 0xFF, (x >> 40) & 0xFF, (x >> 48) & 0xFF, (x >> 56) & 0xFF]
  }

  /** The image of the swapped word is the reversed image: the formulas are byte reversals. */
  lemma Swap16Reverses(x: bv16)
    ensures Image16(Swap16(x)) == Reverse(Image16(x))
  {
    var s, r := Image16(Swap16(x)), Image16(x);
    assert s == [r[1], r[0]];
    forall j | 0 <= j < 2 ensures s[j] == Reverse(r)[j] {
      ReverseAt(r, j);
    }
  }

  lemma Swap32Reverses(x: bv32)
    ensures Image32(Swap32(x)) == Reverse(Image32(x))
  {
    var s, r := Image32(Swap32(x)), Image32(x);
    assert s == [r[3], r[2], r[1], r[0]];
    forall j | 0 <= j < 4 ensures s[j] == Reverse(r)[j] {
      ReverseAt(r, j);
    }
  }

  lemma Swap64Lanes(x: bv64)
    ensures var r := Image64(x); Image64(Swap64(x)) == [r[7], r[6], r[5], r[4], r[3], r[2], r[1], r[0]]
  {
  }

  lemma Swap64Reverses(x: bv64)
    ensures Image64(Swap64(x)) == Reverse(Image64(x))
  {
    Swap64Lanes(x);
    Reverse8(Image64(x));
  }

  lemma SwapsAreInvolutions(a: bv16, b: bv32, c: bv64)
    ensures Swap16(Swap16(a)) == a
    ensures Swap32(Swap32(b)) == b
    ensures Swap64(Swap64(c)) == c
  {
  }

  /**
   * toFromLittleEndian(uint8_t) and toFromLittleEndian(int8_t): on either
   * host, the one-byte case of the byte-order normalisation.
   */
  function ToFromLittleEndian8(host: Endian, x: bv8): (r: bv8)
    ensures [r as byte] == ToFromLittleEndian(host, [x as byte])
  {
    x
  }

  function ToFromLittleEndian16(host: Endian, x: bv16): (r: bv16)
    ensures host == Little ==> r == x
    ensures host == Big ==> Image16(r) == Reverse(Image16(x))
  {
    if host == Big then Swap16Reverses(x); Swap16(x) else x
  }

  function ToFromLittleEndian32(host: Endian, x: bv32): (r: bv32)
    ensures host == Little ==> r == x
    ensures host == Big ==> Image32(r) == Reverse(Image32(x))
  {
    if host == Big then Swap32Reverses(x); Swap32(x) else x
  }

  function ToFromLittleEndian64(host: Endian, x: bv64): (r: bv64)
    ensures host == Little ==> r == x
    ensures host == Big ==> Image64(r) == Reverse(Image64(x))
  {
    if host == Big then Swap64Reverses(x); Swap64(x) else x
  }

  lemma ToFromLittleEndianInvolutions(host: Endian, a: bv16, b: bv32, c: bv64)
    ensures ToFromLittleEndian16(host, ToFromLittleEndian16(host, a)) == a
    ensures ToFromLittleEndian32(host, ToFromLittleEndian32(host, b)) == b
    ensures ToFromLittleEndian64(host, ToFromLittleEndian64(host, c)) == c
  {
    SwapsAreInvolutions(a, b, c);
  }

  // ---------------------------------------------------------------------------
  // Promoted character types, as written (lines 224-226 and 269-271)
  //
  // char, char8_t and char16_t (and a 16-bit wchar_t) match none of the eight
  // overloads exactly, so overload resolution promotes the argument to int and
  // picks toFromLittleEndian(int32_t); the int32_t result is then converted
  // back to the character type, which keeps its low byte(s). A signed char
  // type is sign-extended by the promotion, the others zero-extended.

  /** _T v2 = details::toFromLittleEndian(Value) for a one-byte character type, as written. */
  function PromotedToFromLittleEndian8(host: Endian, x: bv8, signed: bool): bv8 {
    var promoted: bv32 := if signed && x >= 0x80 then (x as bv32) | 0xFFFF_FF00 else x as bv32;
    (ToFromLittleEndian32(host, promoted) & 0xFF) as bv8
  }

  /** The same for a two-byte character type (char16_t). */
  function PromotedToFromLittleEndian16(host: Endian, x: bv16, signed: bool): bv16 {
    var promoted: bv32 := if signed && x >= 0x8000 then (x as bv32) | 0xFFFF_0000 else x as bv32;
    (ToFromLittleEndian32(host, promoted) & 0xFFFF) as bv16
  }

  /** The byte Serialize copies for a one-byte character x (lines 224-226), as written. */
  function PromotedWritten8(host: Endian, x: bv8, signed: bool): (r: seq<byte>)
    ensures |r| == 1
  {
    HostBytes(host, PromotedToFromLittleEndian8(host, x, signed) as nat, 1)
  }

  /** The bytes Serialize copies for a two-byte character x, as written. */
  function PromotedWritten16(host: Endian, x: bv16, signed: bool): (r: seq<byte>)
    ensures |r| == 2
  {
    assert Pow256(2) == 0x1_0000;
    HostBytes(host, PromotedToFromLittleEndian16(host, x, signed) as nat, 2)
  }

  /** The character Deserialize returns from one byte of memory (lines 269-271), as written. */
  function PromotedRead8(host: Endian, mem: seq<byte>, signed: bool): bv8
    requires |mem| == 1
  {
    PromotedToFromLittleEndian8(host, HostValue(host, mem) as bv8, signed)
  }

  /** The character Deserialize returns from two bytes of memory, as written. */
  function PromotedRead16(host: Endian, mem: seq<byte>, signed: bool): bv16
    requires |mem| == 2
  {
    assert Pow256(2) == 0x1_0000;
    PromotedToFromLittleEndian16(host, HostValue(host, mem) as bv16, signed)
  }

  /** On a little-endian host the promoted path is the identity, as intended. */
  lemma PromotedIdentityOnLittle(x: bv8, y: bv16, signed: bool)
    ensures PromotedToFromLittleEndian8(Little, x, signed) == x
    ensures PromotedToFromLittleEndian16(Little, y, signed) == y
  {
  }

  /** On a little-endian host a promoted character is written as its little-endian image and read back. */
  lemma PromotedOnLittle(x: bv8, y: bv16, signed: bool)
    ensures PromotedWritten8(Little, x, signed) == LE(x as nat, 1)
    ensures PromotedRead8(Little, LE(x as nat, 1), signed) == x
    ensures y as nat < Pow256(2) && PromotedWritten16(Little, y, signed) == LE(y as nat, 2)
    ensures PromotedRead16(Little, LE(y as nat, 2), signed) == y
  {
    PromotedIdentityOnLittle(x, y, signed);
    PromotedOnLittle8(x, signed);
    PromotedOnLittle16(y, signed);
  }

  lemma PromotedOnLittle8(x: bv8, signed: bool)
    requires PromotedToFromLittleEndian8(Little, x, signed) == x
    ensures PromotedWritten8(Little, x, signed) == LE(x as nat, 1)
    ensures PromotedRead8(Little, LE(x as nat, 1), signed) == x
  {
    FromLEOfLE(x as nat, 1);
    RoundNat8(x);
  }

  lemma PromotedOnLittle16(y: bv16, signed: bool)
    requires PromotedToFromLittleEndian16(Little, y, signed) == y
    ensures y as nat < Pow256(2) && PromotedWritten16(Little, y, signed) == LE(y as nat, 2)
    ensures PromotedRead16(Little, LE(y as nat, 2), signed) == y
  {
    assert Pow256(2) == 0x1_0000;
    FromLEOfLE(y as nat, 2);
    RoundNat16(y);
  }

  lemma RoundNat8(x: bv8)
    ensures (x as nat) as bv8 == x
  {
  }

  lemma RoundNat16(y: bv16)
    ensures (y as nat) as bv16 == y
  {
  }

  /**
   * On a big-endian host the swap moves the character's bytes out of the low
   * byte(s) the conversion keeps: every non-negative character comes out as
   * 0, every negative one of a signed type as -1 (all ones).
   */
  lemma PromotedOnBig(x: bv8, y: bv16, signed: bool)
    ensures PromotedToFromLittleEndian8(Big, x, signed) == if signed && x >= 0x80 then 0xFF else 0
    ensures PromotedToFromLittleEndian16(Big, y, signed) == if signed && y >= 0x8000 then 0xFFFF else 0
  {
  }

  /** 'A' as a char on a big-endian host: written as the byte 0x00, which reads back as 0. */
  lemma CharOnBigEndianCounterexample()
    ensures PromotedWritten8(Big, 0x41, true) == [0]
    ensures PromotedRead8(Big, [0], true) == 0
  {
    PromotedOnBig(0x41, 0, true);
    assert LE(0, 1) == [0];
    assert HostValue(Big, [0]) == 0 by { assert Reverse([0 as byte]) == [0]; }
  }
}
