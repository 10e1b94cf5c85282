/** Byte sequences, little-endian integer images and in-place splicing. */
module Bytes {

  /** One octet of a serialized stream. */
  newtype byte = b: int | 0 <= b < 256

  function Pow2(k: nat): (r: nat)
    ensures r >= 1
  {
    if k == 0 then 1 else 2 * Pow2(k - 1)
  }

  function Pow256(w: nat): (r: nat)
    ensures r >= 1
  {
    if w == 0 then 1 else 256 * Pow256(w - 1)
  }

  /** 2^64: one more than the largest size_t / uint64_t. */
  const TwoTo64: nat := 0x1_0000_0000_0000_0000

  lemma Pow256Of8()
    ensures Pow256(8) == TwoTo64
  {
  }

  lemma {:induction false} Pow256IsPow2(w: nat)
    ensures Pow256(w) == Pow2(8 * w)
  {
    if w > 0 {
      Pow256IsPow2(w - 1);
      assert Pow2(8 * w) == 256 * Pow2(8 * (w - 1)) by {
        var k := 8 * (w - 1);
        assert Pow2(k + 8) == 2 * Pow2(k + 7) == 4 * Pow2(k + 6) == 8 * Pow2(k + 5) == 16 * Pow2(k + 4);
        assert Pow2(k + 4) == 2 * Pow2(k + 3) == 4 * Pow2(k + 2) == 8 * Pow2(k + 1) == 16 * Pow2(k);
      }
    }
  }

  lemma {:induction false} Pow256Monotone(a: nat, b: nat)
    requires a <= b
    ensures Pow256(a) <= Pow256(b)
  {
    if a < b {
      Pow256Monotone(a, b - 1);
    }
  }

  /** The w-byte little-endian image of x: byte j holds bits 8j..8j+7. */
  function LE(x: nat, w: nat): (r: seq<byte>)
    requires x < Pow256(w)
    ensures |r| == w
  {
    if w == 0 then [] else [(x % 256) as byte] + LE(x / 256, w - 1)
  }

  /** The number whose little-endian image is s. */
  function FromLE(s: seq<byte>): (r: nat)
    ensures r < Pow256(|s|)
  {
    if s == [] then 0 else s[0] as int + 256 * FromLE(s[1..])
  }

  lemma {:induction false} FromLEOfLE(x: nat, w: nat)
    requires x < Pow256(w)
    ensures FromLE(LE(x, w)) == x
  {
    if w > 0 {
      FromLEOfLE(x / 256, w - 1);
      assert LE(x, w)[1..] == LE(x / 256, w - 1);
    }
  }

  lemma {:induction false} LEOfFromLE(s: seq<byte>)
    ensures LE(FromLE(s), |s|) == s
  {
    if s != [] {
      LEOfFromLE(s[1..]);
      var x := FromLE(s);
      assert x % 256 == s[0] as int && x / 256 == FromLE(s[1..]);
    }
  }

  /** Two images of the same width are equal exactly when the numbers are. */
  lemma LEInjective(x: nat, y: nat, w: nat)
    requires x < Pow256(w) && y < Pow256(w)
    requires LE(x, w) == LE(y, w)
    ensures x == y
  {
    FromLEOfLE(x, w);
    FromLEOfLE(y, w);
  }

  /** A number that fits in fewer bytes has zero high bytes: the short image is a prefix. */
  lemma {:induction false} LEPrefix(x: nat, w: nat, v: nat)
    requires v <= w && x < Pow256(v)
    ensures Pow256(v) <= Pow256(w) && LE(x, w)[..v] == LE(x, v)
  {
    Pow256Monotone(v, w);
    if v > 0 {
      LEPrefix(x / 256, w - 1, v - 1);
    }
  }

  function Reverse<T>(s: seq<T>): (r: seq<T>)
    ensures |r| == |s|
  {
    if s == [] then [] else Reverse(s[1..]) + [s[0]]
  }

  lemma {:induction false} ReverseAt<T>(s: seq<T>, k: nat)
    requires k < |s|
    ensures Reverse(s)[k] == s[|s| - 1 - k]
  {
    if k < |s| - 1 {
      ReverseAt(s[1..], k);
    }
  }

  lemma ReverseReverse<T>(s: seq<T>)
    ensures Reverse(Reverse(s)) == s
  {
    forall k | 0 <= k < |s|
      ensures Reverse(Reverse(s))[k] == s[k]
    {
      ReverseAt(Reverse(s), k);
      ReverseAt(s, |s| - 1 - k);
    }
  }

  /** Reversal of eight elements, spelled out. */
  lemma Reverse8<T>(r: seq<T>)
    requires |r| == 8
    ensures Reverse(r) == [r[7], r[6], r[5], r[4], r[3], r[2], r[1], r[0]]
  {
    forall j | 0 <= j < 8 ensures Reverse(r)[j] == r[7 - j] {
      ReverseAt(r, j);
    }
  }

  /** s with the bytes from position at onwards overwritten by e. */
  function Splice<T>(s: seq<T>, at: nat, e: seq<T>): (r: seq<T>)
    requires at + |e| <= |s|
    ensures |r| == |s|
    ensures r[..at] == s[..at] && r[at..at + |e|] == e && r[at + |e|..] == s[at + |e|..]
  {
    s[..at] + e + s[at + |e|..]
  }

  /** Overwriting all of s gives the new content. */
  lemma SpliceAll<T>(s: seq<T>, e: seq<T>)
    requires |e| == |s|
    ensures Splice(s, 0, e) == e
  {
    var r := Splice(s, 0, e);
    assert r == r[0..|e|];
  }

  /** Writing e1 and then e2 right after it is writing e1 + e2. */
  lemma SpliceThen<T>(s: seq<T>, at: nat, e1: seq<T>, e2: seq<T>)
    requires at + |e1| + |e2| <= |s|
    ensures Splice(Splice(s, at, e1), at + |e1|, e2) == Splice(s, at, e1 + e2)
  {
    var l := Splice(Splice(s, at, e1), at + |e1|, e2);
    var r := Splice(s, at, e1 + e2);
    forall k | 0 <= k < |s|
      ensures l[k] == r[k]
    {
      if k < at {
      } else if k < at + |e1| {
        assert l[k] == Splice(s, at, e1)[k];
      } else if k < at + |e1| + |e2| {
        assert l[k] == e2[k - at - |e1|];
      } else {
      }
    }
  }

  /** Writing e2 past a gap and then e1 into the gap is writing e1 + e2. */
  lemma SpliceBefore<T>(s: seq<T>, at: nat, e1: seq<T>, e2: seq<T>)
    requires at + |e1| + |e2| <= |s|
    ensures Splice(Splice(s, at + |e1|, e2), at, e1) == Splice(s, at, e1 + e2)
  {
    var l := Splice(Splice(s, at + |e1|, e2), at, e1);
    var r := Splice(s, at, e1 + e2);
    forall k | 0 <= k < |s|
      ensures l[k] == r[k]
    {
      if k < at {
      } else if k < at + |e1| {
        assert l[k] == e1[k - at];
      } else if k < at + |e1| + |e2| {
        assert l[k] == Splice(s, at + |e1|, e2)[k];
      } else {
        assert l[k] == Splice(s, at + |e1|, e2)[k];
      }
    }
  }

  lemma SpliceEmpty<T>(s: seq<T>, at: nat)
    requires at <= |s|
    ensures Splice(s, at, []) == s
  {
    assert s[..at] + s[at..] == s;
  }

  /** Storing x right after a write of e extends the write by x. */
  lemma SpliceSnoc<T>(s: seq<T>, at: nat, e: seq<T>, x: T)
    requires at + |e| < |s|
    ensures Splice(s, at, e)[at + |e| := x] == Splice(s, at, e + [x])
  {
    var l, r := Splice(s, at, e)[at + |e| := x], Splice(s, at, e + [x]);
    forall k | 0 <= k < |s|
      ensures l[k] == r[k]
    {
      if at <= k < at + |e| {
        assert l[k] == Splice(s, at, e)[k] == e[k - at];
      }
    }
  }
}
