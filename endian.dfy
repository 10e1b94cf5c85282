/** Host byte order and the ToFromLittleEndian normalisation of include/bserializer/serializer.h. */
module Endian {
  import opened Bytes

  /** std::endian::native, fixed per build; the wire format is always little-endian. */
  datatype Endian = Little | Big

  /** The memory image of a w-byte number x on a host of the given byte order. */
  function HostBytes(host: Endian, x: nat, w: nat): (r: seq<byte>)
    requires x < Pow256(w)
    ensures |r| == w
  {
    if host == Little then LE(x, w) else Reverse(LE(x, w))
  }

  /** The number a host of the given byte order reads from the memory image mem. */
  function HostValue(host: Endian, mem: seq<byte>): (r: nat)
    ensures r < Pow256(|mem|)
  {
    if host == Little then FromLE(mem) else FromLE(Reverse(mem))
  }

  /** details::byteSwap: reverses the bytes of an object in place. */
  function ByteSwap(mem: seq<byte>): (r: seq<byte>)
    ensures |r| == |mem|
  {
    Reverse(mem)
  }

  /** ToFromLittleEndian(Value) on the memory image of Value: a byte swap on a big-endian host only. */
  function ToFromLittleEndian(host: Endian, mem: seq<byte>): (r: seq<byte>)
    ensures |r| == |mem|
    ensures host == Little ==> r == mem
    ensures host == Big ==> forall k :: 0 <= k < |mem| ==> r[k] == mem[|mem| - 1 - k]
  {
    if host == Big then
      forall k | 0 <= k < |mem| ensures Reverse(mem)[k] == mem[|mem| - 1 - k] { ReverseAt(mem, k); }
      ByteSwap(mem)
    else mem
  }

  /** Applying the normalisation twice gives back the original object. */
  lemma ToFromLittleEndianInvolution(host: Endian, mem: seq<byte>)
    ensures ToFromLittleEndian(host, ToFromLittleEndian(host, mem)) == mem
  {
    if host == Big {
      ReverseReverse(mem);
    }
  }

  /** Whatever the host, normalising an object's memory yields the little-endian image of its value. */
  lemma NormalisedIsLittleEndian(host: Endian, x: nat, w: nat)
    requires x < Pow256(w)
    ensures ToFromLittleEndian(host, HostBytes(host, x, w)) == LE(x, w)
  {
    if host == Big {
      ReverseReverse(LE(x, w));
    }
  }

  /** Whatever the host, reading a little-endian image back through the normalisation gives its value. */
  lemma ReadBackIsLittleEndian(host: Endian, wire: seq<byte>)
    ensures HostValue(host, ToFromLittleEndian(host, wire)) == FromLE(wire)
  {
    if host == Big {
      ReverseReverse(wire);
    }
  }

  /** The value-level effect of a byte swap of a w-byte number. */
  function SwapValue(x: nat, w: nat): (r: nat)
    requires x < Pow256(w)
    ensures r < Pow256(w)
  {
    FromLE(Reverse(LE(x, w)))
  }

  lemma SwapValueInvolution(x: nat, w: nat)
    requires x < Pow256(w)
    ensures SwapValue(SwapValue(x, w), w) == x
  {
    var r := Reverse(LE(x, w));
    LEOfFromLE(r);
    ReverseReverse(LE(x, w));
    FromLEOfLE(x, w);
  }

  /**
   * ToFromLittleEndian(Lower, Upper): on a big-endian host every element of the
   * array is byte-swapped in place; on a little-endian host nothing changes.
   */
  method ToFromLittleEndianRange(host: Endian, a: array<nat>, w: nat)
    requires forall i :: 0 <= i < a.Length ==> a[i] < Pow256(w)
    modifies a
    ensures host == Little ==> a[..] == old(a[..])
    ensures host == Big ==> forall i :: 0 <= i < a.Length ==> a[i] == SwapValue(old(a[i]), w)
    ensures forall i :: 0 <= i < a.Length ==> a[i] < Pow256(w)
  {
    if host == Big {
      var lower := 0;
      while lower < a.Length
        invariant 0 <= lower <= a.Length
        invariant forall i :: 0 <= i < lower ==> a[i] == SwapValue(old(a[i]), w)
        invariant forall i :: lower <= i < a.Length ==> a[i] == old(a[i])
      {
        a[lower] := SwapValue(a[lower], w);
        lower := lower + 1;
      }
    }
  }

  /** Normalising an array twice restores it. */
  method ToFromLittleEndianTwice(host: Endian, a: array<nat>, w: nat)
    requires forall i :: 0 <= i < a.Length ==> a[i] < Pow256(w)
    modifies a
    ensures a[..] == old(a[..])
  {
    ghost var before := a[..];
    ToFromLittleEndianRange(host, a, w);
    ToFromLittleEndianRange(host, a, w);
    if host == Big {
      forall i | 0 <= i < a.Length ensures a[i] == before[i] {
        SwapValueInvolution(before[i], w);
      }
    }
  }
}
