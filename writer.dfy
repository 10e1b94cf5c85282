/**
 * Serialize (include/bserializer/serializer.h:464-555) and the array and raw
 * writers (lines 709-717, 756-769) as methods that store bytes into a buffer
 * at a cursor and return the advanced cursor. Each one is proved to store
 * exactly the bytes Encode assigns to its value, and nothing else.
 */
module Writer {
  import opened Bytes
  import opened Endian
  import opened Shapes
  import opened BoolPack
  import opened Codec
  import opened CodecLaws
  import opened CodecFacts

  /** SerializeRaw(Data, Lower, Length) (lines 766-769): memcpy, then the cursor moves past the copy. */
  method SerializeRaw(data: array<byte>, pos: nat, src: seq<byte>) returns (next: nat)
    requires pos + |src| <= data.Length
    modifies data
    ensures next == pos + |src| && data[..] == Splice(old(data[..]), pos, src)
  {
    var k := 0;
    while k < |src|
      invariant k <= |src| && data[..] == Splice(old(data[..]), pos, src[..k])
    {
      SpliceSnoc(old(data[..]), pos, src[..k], src[k]);
      assert src[..k] + [src[k]] == src[..k + 1];
      data[pos + k] := src[k];
      k := k + 1;
    }
    assert src[..k] == src;
    next := pos + k;
  }

  /**
   * The arithmetic branch (lines 518-522): the object's memory, normalised by
   * ToFromLittleEndian, is copied and the cursor moves by its width.
   */
  method WriteArith(host: Endian, x: nat, w: nat, data: array<byte>, pos: nat) returns (next: nat)
    requires x < Pow256(w) && pos + w <= data.Length
    modifies data
    ensures next == pos + w && data[..] == Splice(old(data[..]), pos, LE(x, w))
  {
    var v2 := ToFromLittleEndian(host, HostBytes(host, x, w));
    NormalisedIsLittleEndian(host, x, w);
    next := SerializeRaw(data, pos, v2);
  }

  // ---------------------------------------------------------------------------
  // The bool packer

  /** One more element enters the accumulator at the mask bit. */
  lemma Accumulate(bs: seq<bool>, lo: nat, i: nat, c: nat)
    requires lo <= i < |bs| && c == Word(bs[lo..i])
    ensures (if bs[i] then BitOr(c, Pow2(i - lo)) else c) == Word(bs[lo..i + 1])
  {
    assert bs[lo..i + 1] == bs[lo..i] + [bs[i]];
    WordSnoc(bs[lo..i], bs[i]);
    if bs[i] {
      OrFreshBit(c, i - lo);
    }
  }

  /** Packing splits at any multiple of eight elements. */
  lemma PackPrefix(bs: seq<bool>, lo: nat)
    requires lo % 8 == 0 && lo <= |bs|
    ensures Pack(bs[..lo]) + Pack(bs[lo..]) == Pack(bs)
    ensures |Pack(bs[..lo])| <= PackedBytes(|bs|)
  {
    assert bs[..lo] + bs[lo..] == bs;
    PackAppend(bs[..lo], bs[lo..]);
  }

  /** A full group of 64 elements packs to its word as eight little-endian bytes. */
  lemma FullGroup(bs: seq<bool>, lo: nat)
    requires lo % 8 == 0 && lo + 64 <= |bs|
    ensures Word(bs[lo..lo + 64]) < TwoTo64
    ensures Pack(bs[..lo]) + LE(Word(bs[lo..lo + 64]), 8) == Pack(bs[..lo + 64])
  {
    var a, b := bs[..lo], bs[lo..lo + 64];
    assert a + b == bs[..lo + 64];
    PackAppend(a, b);
    WordImageIsPack(b);
  }

  /** The last group, full or partial, completes the packing. */
  lemma LastGroup(bs: seq<bool>, lo: nat)
    requires lo % 8 == 0 && lo <= |bs|
    ensures Word(bs[lo..]) < Pow256(PackedBytes(|bs[lo..]|))
    ensures Pack(bs[..lo]) + LE(Word(bs[lo..]), PackedBytes(|bs[lo..]|)) == Pack(bs)
  {
    PackPrefix(bs, lo);
    WordImageIsPack(bs[lo..]);
  }

  /**
   * Serialize(Data, c) on the accumulator (lines 479-483 and 512): with the
   * bytes written so far spliced in at pos, the word's w bytes extend them.
   */
  method FlushWord(host: Endian, data: array<byte>, ghost orig: seq<byte>, pos: nat, ghost written: seq<byte>, next: nat, c: nat, w: nat)
    returns (after: nat)
    requires c < Pow256(w) && next == pos + |written| && next + w <= |orig| == data.Length
    requires data[..] == Splice(orig, pos, written)
    modifies data
    ensures after == pos + |written| + w && data[..] == Splice(orig, pos, written + LE(c, w))
  {
    after := WriteArith(host, c, w, data, next);
    SpliceThen(orig, pos, written, LE(c, w));
  }

  /**
   * The partial last word (lines 499-511): the first k bytes of the
   * normalised accumulator, which on either host are its k low-order bytes in
   * little-endian order.
   */
  method WritePartial(host: Endian, data: array<byte>, ghost orig: seq<byte>, pos: nat, ghost written: seq<byte>, next: nat, c: nat, k: nat)
    returns (after: nat)
    requires k <= 8 && c < Pow256(k) && next == pos + |written| && next + k <= |orig| == data.Length
    requires data[..] == Splice(orig, pos, written)
    modifies data
    ensures after == pos + |written| + k && data[..] == Splice(orig, pos, written + LE(c, k))
  {
    Pow256Monotone(k, 8);
    var word := ToFromLittleEndian(host, HostBytes(host, c, 8));
    NormalisedIsLittleEndian(host, c, 8);
    LEPrefix(c, 8, k);
    after := SerializeRaw(data, next, word[..k]);
    SpliceThen(orig, pos, written, LE(c, k));
  }

  /**
   * The packer's state after element i: c holds the elements from lo on
   * (element lo + j in bit j), m is the bit the next one takes, and m is zero
   * once c holds a full word.
   */
  predicate Accumulated(bs: seq<bool>, lo: nat, i: nat, m: nat, c: nat) {
    && lo % 8 == 0 && lo <= i <= |bs| && i <= lo + 64
    && m == (if i - lo == 64 then 0 else Pow2(i - lo))
    && c == Word(bs[lo..i])
  }

  /** One element enters the accumulator under the mask, and the mask moves up a bit. */
  lemma Step(bs: seq<bool>, lo: nat, i: nat, m: nat, c: nat)
    requires Accumulated(bs, lo, i, m, c) && i < |bs| && m != 0
    ensures Accumulated(bs, lo, i + 1, (2 * m) % TwoTo64, if bs[i] then BitOr(c, m) else c)
  {
    Accumulate(bs, lo, i, c);
    ShiftMask(i - lo);
  }

  /** With the mask gone, the accumulator holds a full word; the next word starts empty. */
  lemma Full(bs: seq<bool>, lo: nat, i: nat, c: nat)
    requires Accumulated(bs, lo, i, 0, c)
    ensures i == lo + 64 && c == Word(bs[lo..lo + 64]) && Accumulated(bs, lo + 64, i, 1, 0)
  {
    assert bs[lo + 64..i] == [];
  }

  /** At the end the accumulator holds the last group. */
  lemma Last(bs: seq<bool>, lo: nat, m: nat, c: nat)
    requires Accumulated(bs, lo, |bs|, m, c) && lo < |bs|
    ensures c == Word(bs[lo..]) && (m == 0 <==> |bs| - lo == 64)
  {
    assert bs[lo..|bs|] == bs[lo..];
  }

  /** The buffer s holds orig with the packing of the elements before lo at pos, and next is past it. */
  ghost predicate Flushed(s: seq<byte>, orig: seq<byte>, pos: nat, bs: seq<bool>, lo: nat, next: nat) {
    && lo % 8 == 0 && lo <= |bs| && pos + PackedBytes(|bs|) <= |orig|
    && |Pack(bs[..lo])| <= PackedBytes(|bs|) && next == pos + |Pack(bs[..lo])|
    && s == Splice(orig, pos, Pack(bs[..lo]))
  }

  /** Lines 479-483: a full accumulator is written as a uint64 and the next word starts. */
  method FlushGroup(host: Endian, data: array<byte>, ghost orig: seq<byte>, pos: nat, bs: seq<bool>, lo: nat, i: nat, c: nat, next: nat)
    returns (after: nat)
    requires Accumulated(bs, lo, i, 0, c) && i < |bs|
    requires |orig| == data.Length && Flushed(data[..], orig, pos, bs, lo, next)
    modifies data
    ensures i == lo + 64 && Accumulated(bs, lo + 64, i, 1, 0)
    ensures Flushed(data[..], orig, pos, bs, lo + 64, after)
  {
    Full(bs, lo, i, c);
    FullGroup(bs, lo);
    Pow256Of8();
    PackPrefix(bs, lo + 64);
    after := FlushWord(host, data, orig, pos, Pack(bs[..lo]), next, c, 8);
  }

  /** Lines 499-512: the last accumulator, cut to the bytes its elements occupy, completes the packing. */
  method FlushLast(host: Endian, data: array<byte>, ghost orig: seq<byte>, pos: nat, bs: seq<bool>, lo: nat, m: nat, c: nat, next: nat)
    returns (after: nat)
    requires |bs| > 0 && |orig| == data.Length && Packing(data[..], orig, pos, bs, |bs|, lo, m, c, next)
    modifies data
    ensures after == pos + PackedBytes(|bs|) && data[..] == Splice(orig, pos, Pack(bs))
  {
    var k := PackedBytes(|bs| - lo);
    LastBytes(bs, lo, m, c, k);
    if m != 0 {
      after := WritePartial(host, data, orig, pos, Pack(bs[..lo]), next, c, k);
    } else {
      after := FlushWord(host, data, orig, pos, Pack(bs[..lo]), next, c, k);
    }
  }

  /** What the last accumulator contributes: its word cut to k bytes. */
  lemma LastBytes(bs: seq<bool>, lo: nat, m: nat, c: nat, k: nat)
    requires Accumulated(bs, lo, |bs|, m, c) && lo < |bs| && k == PackedBytes(|bs| - lo)
    ensures k <= 8 && c < Pow256(k) && (m == 0 ==> k == 8 && c < TwoTo64)
    ensures Pack(bs[..lo]) + LE(c, k) == Pack(bs)
  {
    Last(bs, lo, m, c);
    LastGroup(bs, lo);
    assert |bs[lo..]| == |bs| - lo;
    Pow256Of8();
  }

  /** The packer's loop invariant: the accumulator after element i, and the words flushed before it. */
  ghost predicate Packing(s: seq<byte>, orig: seq<byte>, pos: nat, bs: seq<bool>, i: nat, lo: nat, m: nat, c: nat, next: nat) {
    Accumulated(bs, lo, i, m, c) && (i > 0 ==> lo < i) && Flushed(s, orig, pos, bs, lo, next)
  }

  /** One pass of the packer's loop body (lines 479-485): flush a full word, then take element i. */
  method PackOne(host: Endian, data: array<byte>, ghost orig: seq<byte>, pos: nat, bs: seq<bool>, i: nat,
                 lo: nat, m: nat, c: nat, next: nat)
    returns (lo': nat, m': nat, c': nat, next': nat)
    requires i < |bs| && |orig| == data.Length && Packing(data[..], orig, pos, bs, i, lo, m, c, next)
    modifies data
    ensures Packing(data[..], orig, pos, bs, i + 1, lo', m', c', next')
  {
    lo', m', c', next' := lo, m, c, next;
    if m' == 0 {
      next' := FlushGroup(host, data, orig, pos, bs, lo', i, c', next');
      lo' := lo' + 64;
      m', c' := 1, 0;
    }
    Step(bs, lo', i, m', c');
    c' := if bs[i] then BitOr(c', m') else c';
    m' := (2 * m') % TwoTo64;
  }

  /**
   * The bool packer (lines 474-513) as it is meant to work: a mask m walks the
   * bits of a uint64 accumulator c, each full word is written as a uint64, and
   * the last word is cut to the bytes its elements occupy, in little-endian
   * order. The packer as written chooses that byte count from the highest set
   * bit of c instead (BoolPack.PackAsWritten). lo is the index of the first
   * element in c.
   */
  method WriteBools(host: Endian, data: array<byte>, pos: nat, bs: seq<bool>) returns (next: nat)
    requires pos + PackedBytes(|bs|) <= data.Length
    modifies data
    ensures next == pos + PackedBytes(|bs|) && data[..] == Splice(old(data[..]), pos, Pack(bs))
  {
    if |bs| == 0 {
      SpliceEmpty(data[..], pos);
      return pos;
    }
    var m: nat, c: nat := 1, 0;
    var lo: nat := 0;
    next := pos;
    var i := 0;
    SpliceEmpty(data[..], pos);
    while i < |bs|
      invariant i <= |bs| && Packing(data[..], old(data[..]), pos, bs, i, lo, m, c, next)
    {
      lo, m, c, next := PackOne(host, data, old(data[..]), pos, bs, i, lo, m, c, next);
      i := i + 1;
    }
    next := FlushLast(host, data, old(data[..]), pos, bs, lo, m, c, next);
  }

  // ---------------------------------------------------------------------------
  // Serialize

  /** Serialize(Data, Value) (lines 464-555): stores Encode's bytes at pos and returns the cursor after them. */
  method Serialize(cc: Customs, host: Endian, t: Type, v: Value, data: array<byte>, pos: nat) returns (next: nat)
    requires Supported(t) && Encodable(t, v) && pos + |Encode(cc, t, v)| <= data.Length
    modifies data
    ensures next == pos + |Encode(cc, t, v)| && data[..] == Splice(old(data[..]), pos, Encode(cc, t, v))
    decreases t, 2
  {
    if t.Custom? {
      next := SerializeRaw(data, pos, cc.write(t.id, v.state));
    } else if t.Coll? {
      next := SerializeColl(cc, host, t, v, data, pos);
    } else if t.StdPair? {
      next := SerializePair(cc, host, t, v, data, pos);
    } else if t.StdTuple? {
      TupleShape(cc, t, v);
      next := SerializeElems(cc, host, t.elems, v.elems, data, pos);
    } else if t.StdComplex? {
      next := SerializeComplex(cc, host, t, v, data, pos);
    } else if t.StdArray? {
      ArrayShape(cc, t, v);
      next := SerializeArray(cc, host, t.elem, v.elems, data, pos);
    } else if t.StdOptional? {
      next := SerializeOptional(cc, host, t, v, data, pos);
    } else if t.StdVariant? {
      next := SerializeVariant(cc, host, t, v, data, pos);
    } else {
      var k := if t.Arith? then t.kind else t.rep;
      next := WriteArith(host, v.bits, Width(k), data, pos);
    }
  }

  /** A collection (lines 469-517): the count as a size_t, then the packed bools or the elements. */
  method SerializeColl(cc: Customs, host: Endian, t: Type, v: Value, data: array<byte>, pos: nat) returns (next: nat)
    requires t.Coll? && Supported(t) && Encodable(t, v) && pos + |Encode(cc, t, v)| <= data.Length
    modifies data
    ensures next == pos + |Encode(cc, t, v)| && data[..] == Splice(old(data[..]), pos, Encode(cc, t, v))
    decreases t, 1
  {
    Pow256Of8();
    var xs := v.elems;
    if t.elem == BoolType {
      BoolCollShape(cc, t, v);
      next := WriteArith(host, |xs|, 8, data, pos);
      next := WriteBools(host, data, next, BoolsOf(xs));
      SpliceThen(old(data[..]), pos, LE(|xs|, 8), Pack(BoolsOf(xs)));
    } else {
      ItemCollShape(cc, t, v);
      next := WriteArith(host, |xs|, 8, data, pos);
      next := SerializeArray(cc, host, t.elem, xs, data, next);
      SpliceThen(old(data[..]), pos, LE(|xs|, 8), EncodeSeq(cc, t.elem, xs));
    }
  }

  method SerializePair(cc: Customs, host: Endian, t: Type, v: Value, data: array<byte>, pos: nat) returns (next: nat)
    requires t.StdPair? && Supported(t) && Encodable(t, v) && pos + |Encode(cc, t, v)| <= data.Length
    modifies data
    ensures next == pos + |Encode(cc, t, v)| && data[..] == Splice(old(data[..]), pos, Encode(cc, t, v))
    decreases t, 1
  {
    PairShape(cc, t, v);
    var mid := Serialize(cc, host, t.first, v.first, data, pos);
    next := Serialize(cc, host, t.second, v.second, data, mid);
    SpliceThen(old(data[..]), pos, Encode(cc, t.first, v.first), Encode(cc, t.second, v.second));
  }

  method SerializeComplex(cc: Customs, host: Endian, t: Type, v: Value, data: array<byte>, pos: nat) returns (next: nat)
    requires t.StdComplex? && Encodable(t, v) && pos + |Encode(cc, t, v)| <= data.Length
    modifies data
    ensures next == pos + |Encode(cc, t, v)| && data[..] == Splice(old(data[..]), pos, Encode(cc, t, v))
  {
    ComplexShape(cc, t, v);
    var w := Width(t.component);
    var mid := WriteArith(host, v.first.bits, w, data, pos);
    next := WriteArith(host, v.second.bits, w, data, mid);
    SpliceThen(old(data[..]), pos, LE(v.first.bits, w), LE(v.second.bits, w));
  }

  /** An optional (lines 539-545): the flag as a bool, then the payload when there is one. */
  method SerializeOptional(cc: Customs, host: Endian, t: Type, v: Value, data: array<byte>, pos: nat) returns (next: nat)
    requires t.StdOptional? && Supported(t) && Encodable(t, v) && pos + |Encode(cc, t, v)| <= data.Length
    modifies data
    ensures next == pos + |Encode(cc, t, v)| && data[..] == Splice(old(data[..]), pos, Encode(cc, t, v))
    decreases t, 1
  {
    if v.Present? {
      SomeShape(cc, t, v);
      var mid := WriteArith(host, 1, 1, data, pos);
      next := Serialize(cc, host, t.payload, v.payload, data, mid);
      SpliceThen(old(data[..]), pos, LE(1, 1), Encode(cc, t.payload, v.payload));
    } else {
      assert Encode(cc, t, v) == LE(0, 1);
      next := WriteArith(host, 0, 1, data, pos);
    }
  }

  /**
   * details::variantSerialize (lines 323-339): the active index as a size_t,
   * then the alternative unless it is std::monostate; a valueless variant
   * writes the all-ones index.
   */
  method SerializeVariant(cc: Customs, host: Endian, t: Type, v: Value, data: array<byte>, pos: nat) returns (next: nat)
    requires t.StdVariant? && Supported(t) && Encodable(t, v) && pos + |Encode(cc, t, v)| <= data.Length
    modifies data
    ensures next == pos + |Encode(cc, t, v)| && data[..] == Splice(old(data[..]), pos, Encode(cc, t, v))
    decreases t, 1
  {
    Pow256Of8();
    if v.Valueless? {
      next := WriteArith(host, TwoTo64 - 1, 8, data, pos);
    } else {
      AltShape(cc, t, v);
      var alt := t.alts[v.index];
      next := WriteArith(host, v.index, 8, data, pos);
      if alt != Monostate {
        next := Serialize(cc, host, alt, v.payload, data, next);
      } else {
        SpliceEmpty(data[..], next);
      }
      SpliceThen(old(data[..]), pos, LE(v.index, 8), Encode(cc, alt, v.payload));
    }
  }

  /** The tuple fold of lines 528-530: each element in declared order. */
  method SerializeElems(cc: Customs, host: Endian, ts: seq<Type>, xs: seq<Value>, data: array<byte>, pos: nat)
    returns (next: nat)
    requires SupportedElems(ts) && |ts| == |xs| && forall i :: 0 <= i < |ts| ==> Encodable(ts[i], xs[i])
    requires pos + |EncodeTuple(cc, ts, xs)| <= data.Length
    modifies data
    ensures next == pos + |EncodeTuple(cc, ts, xs)|
    ensures data[..] == Splice(old(data[..]), pos, EncodeTuple(cc, ts, xs))
    decreases ts
  {
    if ts == [] {
      SpliceEmpty(data[..], pos);
      return pos;
    }
    var mid := Serialize(cc, host, ts[0], xs[0], data, pos);
    next := SerializeElems(cc, host, ts[1..], xs[1..], data, mid);
    SpliceThen(old(data[..]), pos, Encode(cc, ts[0], xs[0]), EncodeTuple(cc, ts[1..], xs[1..]));
  }

  // ---------------------------------------------------------------------------
  // The array writer

  /** written is the bytes of the elements before k: with the bytes of the rest it makes the whole. */
  ghost predicate Remaining(cc: Customs, e: Type, xs: seq<Value>, k: nat, written: seq<byte>) {
    && k <= |xs| && (forall i :: 0 <= i < |xs| ==> Encodable(e, xs[i]))
    && (forall i :: 0 <= i < |xs[k..]| ==> Encodable(e, xs[k..][i]))
    && written + EncodeSeq(cc, e, xs[k..]) == EncodeSeq(cc, e, xs)
  }

  /** Element k's bytes move from the rest to what is written. */
  lemma RemainingStep(cc: Customs, e: Type, xs: seq<Value>, k: nat, written: seq<byte>)
    requires Remaining(cc, e, xs, k, written) && k < |xs|
    ensures Encodable(e, xs[k])
    ensures Remaining(cc, e, xs, k + 1, written + Encode(cc, e, xs[k]))
  {
    assert xs[k..][1..] == xs[k + 1..];
  }

  /**
   * SerializeArray(Data, Lower, Upper) (lines 709-712), which is also the
   * element loop of a collection (line 515) and of a std::array (line 537):
   * Serialize on each element, with no count.
   */
  method SerializeArray(cc: Customs, host: Endian, e: Type, xs: seq<Value>, data: array<byte>, pos: nat)
    returns (next: nat)
    requires Supported(e) && forall i :: 0 <= i < |xs| ==> Encodable(e, xs[i])
    requires pos + |EncodeSeq(cc, e, xs)| <= data.Length
    modifies data
    ensures next == pos + |EncodeSeq(cc, e, xs)|
    ensures data[..] == Splice(old(data[..]), pos, EncodeSeq(cc, e, xs))
    decreases e, 4
  {
    next := pos;
    ghost var orig := data[..];
    ghost var written := [];
    var k := 0;
    SpliceEmpty(data[..], pos);
    assert xs[0..] == xs;
    while k < |xs|
      invariant Remaining(cc, e, xs, k, written)
      invariant next == pos + |written| && data[..] == Splice(orig, pos, written)
    {
      next, written := ArrayOne(cc, host, e, xs, k, data, orig, pos, written, next);
      k := k + 1;
    }
    assert xs[k..] == [];
  }

  /** One element of the array loop: its bytes are written at the cursor, after those of the elements before it. */
  method ArrayOne(cc: Customs, host: Endian, e: Type, xs: seq<Value>, k: nat, data: array<byte>,
                  ghost orig: seq<byte>, pos: nat, ghost written: seq<byte>, next: nat)
    returns (next': nat, ghost written': seq<byte>)
    requires Supported(e) && k < |xs| && Remaining(cc, e, xs, k, written)
    requires |orig| == data.Length && pos + |EncodeSeq(cc, e, xs)| <= data.Length
    requires next == pos + |written| && data[..] == Splice(orig, pos, written)
    modifies data
    ensures Remaining(cc, e, xs, k + 1, written')
    ensures next' == pos + |written'| && data[..] == Splice(orig, pos, written')
    decreases e, 3
  {
    RemainingStep(cc, e, xs, k, written);
    written' := written + Encode(cc, e, xs[k]);
    next' := Serialize(cc, host, e, xs[k], data, next);
    SpliceThen(orig, pos, written, Encode(cc, e, xs[k]));
  }

  /**
   * SerializedArraySize(Lower, Upper) (lines 697-707): SerializedSize summed
   * over the elements, which is exactly what SerializeArray writes.
   */
  method SerializedArraySize(cc: Customs, e: Type, xs: seq<Value>) returns (total: nat)
    requires Lawful(cc) && forall i :: 0 <= i < |xs| ==> Encodable(e, xs[i])
    ensures total == |EncodeSeq(cc, e, xs)|
  {
    total := 0;
    var k := 0;
    assert xs[0..] == xs;
    while k < |xs|
      invariant k <= |xs| && total + SizeSeq(cc, e, xs[k..]) == SizeSeq(cc, e, xs)
    {
      assert xs[k..][1..] == xs[k + 1..];
      total := total + Size(cc, e, xs[k]);
      k := k + 1;
    }
    assert xs[k..] == [];
    SeqSize(cc, e, xs);
  }
}
