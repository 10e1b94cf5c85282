/**
 * The bit-packed encoding of bool collections: element 8j+k of the collection
 * is bit k of byte j. The packer of include/bserializer/serializer.h builds it
 * one 64-bit word per group of 64 elements, which is the same layout because
 * words are written little-endian.
 */
module BoolPack {
  import opened Bytes
  import opened Endian

  /** The number whose bit k is bs[k]: the accumulator c after the packer has seen bs. */
  function Word(bs: seq<bool>): (r: nat)
    ensures r < Pow2(|bs|)
  {
    if bs == [] then 0 else (if bs[0] then 1 else 0) + 2 * Word(bs[1..])
  }

  /** Bit k of x, what (x & (1 << k)) != 0 tests. */
  function BitOf(x: nat, k: nat): bool {
    if k == 0 then x % 2 == 1 else BitOf(x / 2, k - 1)
  }

  /** c | m on unsigned integers. */
  function BitOr(a: nat, b: nat): nat
    decreases a + b
  {
    if a == 0 then b
    else if b == 0 then a
    else (if a % 2 == 1 || b % 2 == 1 then 1 else 0) + 2 * BitOr(a / 2, b / 2)
  }

  /** c & m on unsigned integers. */
  function BitAnd(a: nat, b: nat): nat
    decreases a + b
  {
    if a == 0 || b == 0 then 0
    else (if a % 2 == 1 && b % 2 == 1 then 1 else 0) + 2 * BitAnd(a / 2, b / 2)
  }

  /** Setting a bit above every set bit of c adds it. */
  lemma {:induction false} OrFreshBit(c: nat, k: nat)
    requires c < Pow2(k)
    ensures BitOr(c, Pow2(k)) == c + Pow2(k)
  {
    if k > 0 && c != 0 {
      OrFreshBit(c / 2, k - 1);
    }
  }

  lemma {:induction false} BitOfZero(k: nat)
    ensures !BitOf(0, k)
  {
    if k > 0 {
      BitOfZero(k - 1);
    }
  }

  /** Masking with 1 << k tests bit k. */
  lemma {:induction false} AndTestsBit(c: nat, k: nat)
    ensures (BitAnd(c, Pow2(k)) != 0) == BitOf(c, k)
  {
    if c == 0 {
      BitOfZero(k);
    } else if k > 0 {
      AndTestsBit(c / 2, k - 1);
    }
  }

  /** Bit k of the accumulated word is element k. */
  lemma {:induction false} WordBit(bs: seq<bool>, k: nat)
    requires k < |bs|
    ensures BitOf(Word(bs), k) == bs[k]
  {
    if k > 0 {
      WordBit(bs[1..], k - 1);
    }
  }

  lemma ShiftIn(b0: nat, lo: nat, hi: nat, p: nat)
    ensures b0 + 2 * (lo + p * hi) == (b0 + 2 * lo) + (2 * p) * hi
  {
  }

  /** The word of bs is the word of its first k elements plus 2^k times the word of the rest. */
  lemma {:induction false} WordSplit(bs: seq<bool>, k: nat)
    requires k <= |bs|
    ensures Word(bs) == Word(bs[..k]) + Pow2(k) * Word(bs[k..])
  {
    if k > 0 {
      var t := bs[1..];
      WordSplit(t, k - 1);
      assert t[..k - 1] == bs[..k][1..];
      assert t[k - 1..] == bs[k..];
      ShiftIn(if bs[0] then 1 else 0, Word(t[..k - 1]), Word(bs[k..]), Pow2(k - 1));
    } else {
      assert bs[k..] == bs;
    }
  }

  /** Appending one element sets the next bit of the accumulator. */
  lemma {:induction false} WordSnoc(bs: seq<bool>, b: bool)
    ensures Word(bs + [b]) == Word(bs) + (if b then Pow2(|bs|) else 0)
  {
    if bs != [] {
      assert (bs + [b])[1..] == bs[1..] + [b];
      WordSnoc(bs[1..], b);
    } else {
      assert [b][1..] == [];
    }
  }

  /** The bits below 2^m of a + 2^m * b are those of a. */
  lemma {:induction false} BitOfLow(a: nat, b: nat, m: nat, k: nat)
    requires a < Pow2(m) && k < m
    ensures BitOf(a + Pow2(m) * b, k) == BitOf(a, k)
  {
    var x := Pow2(m - 1) * b;
    assert Pow2(m) * b == 2 * x;
    if k > 0 {
      assert (a + 2 * x) / 2 == a / 2 + x;
      BitOfLow(a / 2, b, m - 1, k - 1);
    }
  }

  /** The bits from 2^m on of a + 2^m * b are those of b. */
  lemma {:induction false} BitOfHigh(a: nat, b: nat, m: nat, k: nat)
    requires a < Pow2(m) && m <= k
    ensures BitOf(a + Pow2(m) * b, k) == BitOf(b, k - m)
  {
    if m > 0 {
      var x := Pow2(m - 1) * b;
      assert Pow2(m) * b == 2 * x;
      assert (a + 2 * x) / 2 == a / 2 + x;
      BitOfHigh(a / 2, b, m - 1, k - 1);
    }
  }

  lemma Pow2Of8()
    ensures Pow2(8) == 256
  {
  }

  /** m <<= 1 on a uint64 mask holding bit j: bit j + 1, or zero once the bit leaves the word. */
  lemma ShiftMask(j: nat)
    requires j < 64
    ensures (2 * Pow2(j)) % TwoTo64 == (if j + 1 == 64 then 0 else Pow2(j + 1))
  {
    Pow256Of8();
    Pow256IsPow2(8);
    if j + 1 < 64 {
      Pow2Monotone(j + 1, 63);
    }
  }

  /** Bit k of a little-endian word is bit k % 8 of its byte k / 8. */
  lemma {:induction false} BitOfLE(s: seq<byte>, k: nat)
    requires k < 8 * |s|
    ensures BitOf(FromLE(s), k) == BitOf(s[k / 8] as nat, k % 8)
  {
    Pow2Of8();
    var rest := FromLE(s[1..]);
    assert FromLE(s) == s[0] as nat + Pow2(8) * rest;
    if k < 8 {
      BitOfLow(s[0] as nat, rest, 8, k);
    } else {
      BitOfHigh(s[0] as nat, rest, 8, k);
      BitOfLE(s[1..], k - 8);
      assert (k - 8) / 8 == k / 8 - 1 && (k - 8) % 8 == k % 8;
    }
  }

  /** Bytes taken by n packed booleans: n >> 3, plus one when n & 7 is not zero (lines 413-415). */
  function PackedBytes(n: nat): nat {
    n / 8 + (if n % 8 != 0 then 1 else 0)
  }

  /** Reading one 8-byte word per full group of 64 and then ceil(rem / 8) bytes reads PackedBytes(n) bytes. */
  lemma PackedBytesByGroups(n: nat)
    ensures PackedBytes(n) == 8 * (n / 64) + PackedBytes(n % 64)
  {
  }

  lemma PackedBytesAppend(a: nat, b: nat)
    requires a % 8 == 0
    ensures PackedBytes(a + b) == a / 8 + PackedBytes(b)
  {
  }

  /** The packed bytes: byte j holds elements 8j..8j+7, element 8j+k in bit k. */
  function Pack(bs: seq<bool>): (r: seq<byte>)
    ensures |r| == PackedBytes(|bs|)
  {
    if bs == [] then []
    else if |bs| <= 8 then
      assert Pow2(|bs|) <= 256 by { Pow2Monotone(|bs|, 8); }
      [Word(bs) as byte]
    else
      assert Pow2(8) == 256;
      [Word(bs[..8]) as byte] + Pack(bs[8..])
  }

  lemma {:induction false} Pow2Monotone(a: nat, b: nat)
    requires a <= b
    ensures Pow2(a) <= Pow2(b)
  {
    if a < b {
      Pow2Monotone(a, b - 1);
    }
  }

  /** Element j of n read back from packed bytes. */
  function Unpack(bytes: seq<byte>, n: nat): (r: seq<bool>)
    requires PackedBytes(n) <= |bytes|
    ensures |r| == n
  {
    seq(n, j requires 0 <= j < n => BitOf(bytes[j / 8] as nat, j % 8))
  }

  /** Unpacking n elements looks at the first PackedBytes(n) bytes only. */
  lemma UnpackFrame(s1: seq<byte>, s2: seq<byte>, n: nat)
    requires PackedBytes(n) <= |s1| && PackedBytes(n) <= |s2|
    requires s1[..PackedBytes(n)] == s2[..PackedBytes(n)]
    ensures Unpack(s1, n) == Unpack(s2, n)
  {
    forall j | 0 <= j < n ensures s1[j / 8] == s2[j / 8] {
      assert s1[j / 8] == s1[..PackedBytes(n)][j / 8];
      assert s2[j / 8] == s2[..PackedBytes(n)][j / 8];
    }
  }

  /** Byte q of the packing is the word of elements 8q..8q+7. */
  lemma {:induction false} PackAt(bs: seq<bool>, q: nat)
    requires q < PackedBytes(|bs|)
    ensures 8 * q < |bs|
    ensures Pack(bs)[q] as nat == Word(bs[8 * q..if 8 * q + 8 <= |bs| then 8 * q + 8 else |bs|])
  {
    PackedBytesBound(|bs|, q);
    if q > 0 {
      PackTail(bs);
      PackAt(bs[8..], q - 1);
      DropEight(bs, q);
    } else {
      PackFirst(bs);
    }
  }

  lemma PackedBytesBound(n: nat, q: nat)
    requires q < PackedBytes(n)
    ensures 8 * q < n
  {
  }

  /** Past the first eight elements, the packing is the packing of the rest. */
  lemma PackTail(bs: seq<bool>)
    requires |bs| > 8
    ensures PackedBytes(|bs| - 8) == PackedBytes(|bs|) - 1
    ensures Pack(bs)[1..] == Pack(bs[8..])
  {
  }

  lemma DropEight(bs: seq<bool>, q: nat)
    requires 0 < q && 8 * q < |bs|
    ensures var hi := if 8 * q + 8 <= |bs| then 8 * q + 8 else |bs|;
      bs[8..][8 * (q - 1)..hi - 8] == bs[8 * q..hi]
  {
  }

  lemma PackFirst(bs: seq<bool>)
    requires bs != []
    ensures Pack(bs)[0] as nat == Word(bs[0..if 8 <= |bs| then 8 else |bs|])
  {
    if |bs| > 8 {
      assert Pow2(8) == 256;
    } else {
      assert bs[0..|bs|] == bs;
      Pow2Monotone(|bs|, 8);
    }
  }

  /** Unpacking the packed bytes gives back every element. */
  lemma PackRoundTrip(bs: seq<bool>)
    ensures Unpack(Pack(bs), |bs|) == bs
  {
    forall j | 0 <= j < |bs|
      ensures Unpack(Pack(bs), |bs|)[j] == bs[j]
    {
      PackBit(bs, j);
    }
  }

  /** Element j sits in bit j % 8 of packed byte j / 8. */
  lemma PackBit(bs: seq<bool>, j: nat)
    requires j < |bs|
    ensures j / 8 < PackedBytes(|bs|) && BitOf(Pack(bs)[j / 8] as nat, j % 8) == bs[j]
  {
    var q, k := j / 8, j % 8;
    PackedIndex(|bs|, j);
    assert j == 8 * q + k && k < 8;
    PackAt(bs, q);
    var hi := if 8 * q + 8 <= |bs| then 8 * q + 8 else |bs|;
    var w := bs[8 * q..hi];
    assert k < |w| && w[k] == bs[j];
    WordBit(w, k);
    assert BitOf(Pack(bs)[q] as nat, k) == bs[j];
  }

  /** Element j of n lies in one of the PackedBytes(n) bytes. */
  lemma PackedIndex(n: nat, j: nat)
    requires j < n
    ensures j / 8 < PackedBytes(n)
  {
  }

  /** Packing a prefix whose length is a whole number of bytes, then the rest, is packing the whole. */
  lemma {:induction false} PackAppend(a: seq<bool>, b: seq<bool>)
    requires |a| % 8 == 0
    ensures Pack(a + b) == Pack(a) + Pack(b)
    decreases |a|
  {
    if a != [] {
      assert (a + b)[..8] == a[..8];
      assert (a + b)[8..] == a[8..] + b;
      if |a| == 8 {
        assert a[..8] == a;
        assert a[8..] == [];
        if b == [] {
          assert a + b == a;
        }
      } else {
        PackAppend(a[8..], b);
      }
    } else {
      assert a + b == b;
    }
  }

  /** The little-endian image of the accumulated word, cut to PackedBytes bytes, is the packing. */
  lemma {:induction false} WordImageIsPack(bs: seq<bool>)
    ensures Word(bs) < Pow256(PackedBytes(|bs|))
    ensures LE(Word(bs), PackedBytes(|bs|)) == Pack(bs)
    decreases |bs|
  {
    Pow256IsPow2(PackedBytes(|bs|));
    Pow2Monotone(|bs|, 8 * PackedBytes(|bs|));
    if bs == [] {
    } else if |bs| <= 8 {
      Pow2Monotone(|bs|, 8);
    } else {
      WordImageIsPack(bs[8..]);
      WordImageStep(bs);
    }
  }

  /** The low byte of the word of more than eight bools is their first byte, and the rest is the word of the others. */
  lemma WordImageStep(bs: seq<bool>)
    requires |bs| > 8 && Word(bs) < Pow256(PackedBytes(|bs|))
    requires Word(bs[8..]) < Pow256(PackedBytes(|bs| - 8))
    requires LE(Word(bs[8..]), PackedBytes(|bs| - 8)) == Pack(bs[8..])
    ensures LE(Word(bs), PackedBytes(|bs|)) == Pack(bs)
  {
    var n := PackedBytes(|bs| - 8);
    PackedBytesStep(|bs|);
    WordSplit(bs, 8);
    Pow2Of8();
    ByteAndRest(Word(bs), Word(bs[..8]), Word(bs[8..]), n);
  }

  lemma PackedBytesStep(k: nat)
    requires k > 8
    ensures PackedBytes(k) == PackedBytes(k - 8) + 1
  {
  }

  /** A number made of a low byte and a higher part of n bytes has those bytes as its image. */
  lemma ByteAndRest(x: nat, lo: nat, hi: nat, n: nat)
    requires lo < 256 && x == lo + 256 * hi && hi < Pow256(n)
    ensures x < Pow256(n + 1) && LE(x, n + 1) == [lo as byte] + LE(hi, n)
  {
    assert x % 256 == lo && x / 256 == hi;
  }

  // ---------------------------------------------------------------------------
  // The packer and unpacker exactly as written (lines 499-512 and 592-603).

  /** The trailing byte count chosen from the highest set bit of c (lines 500-508). */
  function TrailingBytes(c: nat): (i: nat)
    ensures 1 <= i <= 8
  {
    if c < Pow256(1) then 1
    else if c < Pow256(2) then 2
    else if c < Pow256(3) then 3
    else if c < Pow256(4) then 4
    else if c < Pow256(5) then 5
    else if c < Pow256(6) then 6
    else if c < Pow256(7) then 7
    else 8
  }

  /**
   * The bytes written for the last, incomplete group with accumulator c, as
   * written: i = TrailingBytes(c), then on a big-endian host the first i bytes
   * of c's memory are reversed, and the first i bytes of c's memory are copied.
   */
  function TailAsWritten(host: Endian, c: nat): (r: seq<byte>)
    requires c < TwoTo64
  {
    Pow256Of8();
    var i := TrailingBytes(c);
    var mem := HostBytes(host, c, 8);
    var swapped := if host == Big then Reverse(mem[..i]) + mem[i..] else mem;
    swapped[..i]
  }

  /** The bytes the packer writes after the count for a non-empty bool collection, as written. */
  function PackAsWritten(host: Endian, bs: seq<bool>): seq<byte>
    requires |bs| > 0
    decreases |bs|
  {
    Pow256Of8();
    Pow256IsPow2(8);
    if |bs| > 64 then
      assert Word(bs[..64]) < Pow2(64);
      LE(Word(bs[..64]), 8) + PackAsWritten(host, bs[64..])
    else if |bs| == 64 then
      LE(Word(bs), 8)
    else
      Pow2Monotone(|bs|, 64);
      TailAsWritten(host, Word(bs))
  }

  /** The corrected last group: the little-endian image of c cut to the bytes the remaining elements need. */
  function Tail(c: nat, rem: nat): (r: seq<byte>)
    requires 0 < rem < 64 && c < Pow2(rem)
    ensures |r| == PackedBytes(rem)
  {
    Pow256IsPow2(PackedBytes(rem));
    Pow2Monotone(rem, 8 * PackedBytes(rem));
    LE(c, PackedBytes(rem))
  }

  /** On a little-endian host the as-written tail is the image of c cut at its highest non-zero byte. */
  lemma TailAsWrittenLittle(c: nat)
    requires c < TwoTo64
    ensures TrailingBytes(c) <= 8 && Pow256(TrailingBytes(c)) >= 1
    ensures TailAsWritten(Little, c) == LE(c, 8)[..TrailingBytes(c)]
  {
  }

  /** Ten false elements: the size promises 2 trailing bytes, the packer writes 1. */
  lemma TrailingCountCounterexample()
    ensures PackedBytes(10) == 2
    ensures |PackAsWritten(Little, seq(10, _ => false))| == 1
    ensures |Pack(seq(10, _ => false))| == 2
  {
    var bs := seq(10, _ => false);
    assert Word(bs) == 0 by {
      assert forall s: seq<bool> :: (forall i :: 0 <= i < |s| ==> !s[i]) && |s| <= 10 ==> Word(s) == 0 by {
        forall s: seq<bool> | (forall i :: 0 <= i < |s| ==> !s[i]) && |s| <= 10 ensures Word(s) == 0 {
          AllFalseWord(s);
        }
      }
    }
    Pow256Of8();
  }

  lemma {:induction false} AllFalseWord(s: seq<bool>)
    requires forall i :: 0 <= i < |s| ==> !s[i]
    ensures Word(s) == 0
  {
    if s != [] {
      AllFalseWord(s[1..]);
    }
  }

  /** On a big-endian host the tail of [true] is written as 0x00 instead of 0x01. */
  lemma BigEndianTailCounterexample()
    ensures TailAsWritten(Big, 1) == [0]
    ensures Tail(1, 1) == [1]
  {
    Pow256Of8();
    var le := LE(1, 8);
    assert le == [1, 0, 0, 0, 0, 0, 0, 0];
    var mem := HostBytes(Big, 1, 8);
    Reverse8(le);
    assert mem[..1] == [0];
  }

  /**
   * The accumulator the unpacker builds for the last group, as written: the i
   * wire bytes are copied over the first i bytes of c's memory (c still holds
   * the previous word), on a big-endian host those i bytes are reversed, and c
   * is read back.
   */
  function TailWordAsWritten(host: Endian, prev: nat, wire: seq<byte>): nat
    requires prev < TwoTo64 && 0 < |wire| <= 8
  {
    Pow256Of8();
    var i := |wire|;
    var mem := wire + HostBytes(host, prev, 8)[i..];
    var swapped := if host == Big then Reverse(mem[..i]) + mem[i..] else mem;
    HostValue(host, swapped)
  }

  /** The corrected last-group word: the wire bytes read little-endian. */
  function TailWord(wire: seq<byte>): nat {
    FromLE(wire)
  }

  /** On a little-endian host the as-written tail word agrees with the wire bytes on every wire bit. */
  lemma TailWordAsWrittenLittle(prev: nat, wire: seq<byte>, k: nat)
    requires prev < TwoTo64 && 0 < |wire| <= 8 && k < 8 * |wire|
    ensures BitOf(TailWordAsWritten(Little, prev, wire), k) == BitOf(TailWord(wire), k)
  {
    Pow256Of8();
    var mem := wire + HostBytes(Little, prev, 8)[|wire|..];
    BitOfLE(mem, k);
    BitOfLE(wire, k);
    assert mem[k / 8] == wire[k / 8];
  }

  /** On a big-endian host the packed byte 0x01 (one true element) is read back as false. */
  lemma BigEndianUnpackCounterexample()
    ensures !BitOf(TailWordAsWritten(Big, 0, [1]), 0)
    ensures BitOf(TailWord([1]), 0)
  {
    Pow256Of8();
    var mem: seq<byte> := [1] + HostBytes(Big, 0, 8)[1..];
    assert LE(0, 8) == [0, 0, 0, 0, 0, 0, 0, 0];
    Reverse8(LE(0, 8));
    assert mem == [1, 0, 0, 0, 0, 0, 0, 0];
    Reverse8(mem);
    var r := Reverse(mem);
    assert r == [0, 0, 0, 0, 0, 0, 0, 1];
    assert FromLE(r) == 256 * FromLE(r[1..]);
    assert FromLE(r) % 2 == 0;
  }
}
