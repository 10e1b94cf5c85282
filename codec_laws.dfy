/**
 * What the codec promises across operations: Serialize writes exactly
 * SerializedSize bytes, and Deserialize reads back what Serialize wrote and
 * stops where it stopped.
 */
module CodecLaws {
  import opened Wrappers
  import opened Bytes
  import opened Shapes
  import opened BoolPack
  import opened Codec

  /**
   * The value Deserialize rebuilds from the bytes of v: v itself, except that
   * a valueless variant comes back holding its monostate alternative, since
   * the all-ones index it is written with names no alternative (lines 326-328,
   * 346-348).
   */
  function Canon(t: Type, v: Value): Value
    requires Typed(t, v)
    decreases t, 1
  {
    match t
    case Coll(_, e) => Items(CanonSeq(e, v.elems))
    case StdArray(e, _) => Items(CanonSeq(e, v.elems))
    case StdPair(a, b) => Both(Canon(a, v.first), Canon(b, v.second))
    case StdTuple(ts) => Tuple(CanonTuple(ts, v.elems))
    case StdOptional(p) => if v.Present? then Present(Canon(p, v.payload)) else v
    case StdVariant(alts) =>
      if v.Valueless? then
        if HasMonostate(alts) then Alt(MonostateIndex(alts), Unit) else v
      else Alt(v.index, Canon(alts[v.index], v.payload))
    case _ => v
  }

  /** A value holding no valueless variant is its own canonical form. */
  lemma {:induction false} CanonOfSettled(t: Type, v: Value)
    requires Typed(t, v) && Settled(v)
    ensures Canon(t, v) == v
    decreases t
  {
    match t
    case Coll(_, e) =>
      forall i | 0 <= i < |v.elems| ensures Canon(e, v.elems[i]) == v.elems[i] {
        CanonOfSettled(e, v.elems[i]);
      }
      assert CanonSeq(e, v.elems) == v.elems;
    case StdArray(e, _) =>
      forall i | 0 <= i < |v.elems| ensures Canon(e, v.elems[i]) == v.elems[i] {
        CanonOfSettled(e, v.elems[i]);
      }
      assert CanonSeq(e, v.elems) == v.elems;
    case StdPair(a, b) =>
      CanonOfSettled(a, v.first);
      CanonOfSettled(b, v.second);
    case StdTuple(ts) =>
      forall i | 0 <= i < |ts| ensures Canon(ts[i], v.elems[i]) == v.elems[i] {
        CanonOfSettled(ts[i], v.elems[i]);
      }
      assert CanonTuple(ts, v.elems) == v.elems;
    case StdOptional(p) =>
      if v.Present? {
        CanonOfSettled(p, v.payload);
      }
    case StdVariant(alts) =>
      CanonOfSettled(alts[v.index], v.payload);
    case _ =>
  }

  function CanonSeq(e: Type, xs: seq<Value>): (r: seq<Value>)
    requires forall i :: 0 <= i < |xs| ==> Typed(e, xs[i])
    ensures |r| == |xs| && forall i :: 0 <= i < |xs| ==> r[i] == Canon(e, xs[i])
    decreases e, 2
  {
    seq(|xs|, i requires 0 <= i < |xs| => Canon(e, xs[i]))
  }

  function CanonTuple(ts: seq<Type>, xs: seq<Value>): (r: seq<Value>)
    requires |ts| == |xs| && forall i :: 0 <= i < |ts| ==> Typed(ts[i], xs[i])
    ensures |r| == |xs| && forall i :: 0 <= i < |xs| ==> r[i] == Canon(ts[i], xs[i])
    decreases ts
  {
    seq(|xs|, i requires 0 <= i < |xs| => Canon(ts[i], xs[i]))
  }

  /** Bytes that hold a + b between p and q hold a first and b right after it. */
  lemma Split(bytes: seq<byte>, p: nat, q: nat, a: seq<byte>, b: seq<byte>)
    requires p <= q <= |bytes| && bytes[p..q] == a + b
    ensures p + |a| <= q && bytes[p..p + |a|] == a && bytes[p + |a|..q] == b
  {
    assert bytes[p..p + |a|] == bytes[p..q][..|a|];
    assert bytes[p + |a|..q] == bytes[p..q][|a|..];
  }

  /** An arithmetic value, a duration's count or a time point's count reads back as written. */
  lemma ArithRoundTrip(k: ArithKind, v: Value, bytes: seq<byte>, p: nat, q: nat)
    requires TypedArith(k, v)
    requires p <= q <= |bytes| && bytes[p..q] == LE(v.bits, Width(k))
    ensures DecodeArith(k, bytes, p) == Ok((v, q))
  {
    FromLEOfLE(v.bits, Width(k));
  }

  /** The count a collection or the index a variant starts with reads back as written. */
  lemma CountBytes(n: nat, body: seq<byte>, bytes: seq<byte>, p: nat, q: nat)
    requires n < TwoTo64 && p <= q <= |bytes| && bytes[p..q] == LE(n, 8) + body
    ensures p + 8 <= q && FromLE(bytes[p..p + 8]) == n && bytes[p + 8..q] == body
  {
    Pow256Of8();
    Split(bytes, p, q, LE(n, 8), body);
    FromLEOfLE(n, 8);
  }

  /** Packed bools unpack to the bool values they were packed from. */
  lemma BoolsRoundTrip(xs: seq<Value>, bytes: seq<byte>, p: nat, q: nat)
    requires forall i :: 0 <= i < |xs| ==> TypedArith(BoolKind, xs[i])
    requires p <= q <= |bytes| && bytes[p..q] == Pack(BoolsOf(xs))
    ensures q == p + PackedBytes(|xs|) && BoolValues(Unpack(bytes[p..], |xs|)) == xs
  {
    var bs := BoolsOf(xs);
    assert bytes[p..][..PackedBytes(|xs|)] == Pack(bs)[..PackedBytes(|xs|)];
    UnpackFrame(bytes[p..], Pack(bs), |xs|);
    PackRoundTrip(bs);
  }

  // ---------------------------------------------------------------------------
  // How Deserialize proceeds on each shape, given what its parts read

  lemma DecodePairStep(cc: Customs, t: Type, bytes: seq<byte>, pos: nat, x: (Value, nat), y: (Value, nat))
    requires t.StdPair? && Decodable(t) && pos <= |bytes|
    requires Decode(cc, t.first, bytes, pos) == Ok(x)
    requires Decode(cc, t.second, bytes, x.1) == Ok(y)
    ensures Decode(cc, t, bytes, pos) == Ok((Both(x.0, y.0), y.1))
  {
  }

  lemma DecodeComplexStep(cc: Customs, t: Type, bytes: seq<byte>, pos: nat, x: (Value, nat), y: (Value, nat))
    requires t.StdComplex? && Decodable(t) && pos <= |bytes|
    requires DecodeArith(t.component, bytes, pos) == Ok(x)
    requires DecodeArith(t.component, bytes, x.1) == Ok(y)
    ensures Decode(cc, t, bytes, pos) == Ok((Both(x.0, y.0), y.1))
  {
  }

  lemma DecodeBoolsStep(cc: Customs, t: Type, bytes: seq<byte>, pos: nat, xs: seq<Value>, q: nat)
    requires t.Coll? && t.elem == BoolType && Decodable(t)
    requires q == pos + 8 + PackedBytes(|xs|) <= |bytes| && FromLE(bytes[pos..pos + 8]) == |xs|
    requires BoolValues(Unpack(bytes[pos + 8..], |xs|)) == xs
    ensures Decode(cc, t, bytes, pos) == Ok((Items(xs), q))
  {
  }

  lemma DecodeCollStep(cc: Customs, t: Type, bytes: seq<byte>, pos: nat, n: nat, r: (seq<Value>, nat))
    requires t.Coll? && t.elem != BoolType && Decodable(t) && pos + 8 <= |bytes|
    requires FromLE(bytes[pos..pos + 8]) == n
    requires DecodeItems(cc, t.elem, bytes, pos + 8, n, []) == Ok(r)
    ensures Decode(cc, t, bytes, pos) == Ok((Items(r.0), r.1))
  {
  }

  lemma DecodeArrayStep(cc: Customs, t: Type, bytes: seq<byte>, pos: nat, r: (seq<Value>, nat))
    requires t.StdArray? && Decodable(t) && pos <= |bytes|
    requires DecodeItems(cc, t.elem, bytes, pos, t.length, []) == Ok(r)
    ensures Decode(cc, t, bytes, pos) == Ok((Items(r.0), r.1))
  {
  }

  lemma DecodeTupleStep(cc: Customs, t: Type, bytes: seq<byte>, pos: nat, r: (seq<Value>, nat))
    requires t.StdTuple? && Decodable(t) && pos <= |bytes|
    requires DecodeTuple(cc, t.elems, bytes, pos) == Ok(r)
    ensures Decode(cc, t, bytes, pos) == Ok((Tuple(r.0), r.1))
  {
  }

  lemma DecodeSomeStep(cc: Customs, t: Type, bytes: seq<byte>, pos: nat, x: (Value, nat))
    requires t.StdOptional? && Decodable(t) && pos + 1 <= |bytes|
    requires DecodeArith(BoolKind, bytes, pos) == Ok((Num(1), pos + 1))
    requires Decode(cc, t.payload, bytes, pos + 1) == Ok(x)
    ensures Decode(cc, t, bytes, pos) == Ok((Present(x.0), x.1))
  {
  }

  lemma DecodeNoneStep(cc: Customs, t: Type, bytes: seq<byte>, pos: nat, q: nat)
    requires t.StdOptional? && Decodable(t) && pos <= |bytes|
    requires DecodeArith(BoolKind, bytes, pos) == Ok((Num(0), q))
    ensures Decode(cc, t, bytes, pos) == Ok((Absent, q))
  {
  }

  lemma DecodeAltStep(cc: Customs, t: Type, bytes: seq<byte>, pos: nat, j: nat, x: (Value, nat))
    requires t.StdVariant? && Decodable(t) && pos + 8 <= |bytes|
    requires FromLE(bytes[pos..pos + 8]) == j && j < |t.alts| && t.alts[j] != Monostate
    requires Decodable(t.alts[j]) && Decode(cc, t.alts[j], bytes, pos + 8) == Ok(x)
    ensures Decode(cc, t, bytes, pos) == Ok((Alt(j, x.0), x.1))
  {
  }

  lemma DecodeUnitAltStep(cc: Customs, t: Type, bytes: seq<byte>, pos: nat, j: nat)
    requires t.StdVariant? && Decodable(t) && pos + 8 <= |bytes|
    requires FromLE(bytes[pos..pos + 8]) == j && j < |t.alts| && t.alts[j] == Monostate
    ensures Decode(cc, t, bytes, pos) == Ok((Alt(j, Unit), pos + 8))
  {
  }

  lemma DecodeValuelessStep(cc: Customs, t: Type, bytes: seq<byte>, pos: nat)
    requires t.StdVariant? && Decodable(t) && pos + 8 <= |bytes|
    requires FromLE(bytes[pos..pos + 8]) >= |t.alts| && HasMonostate(t.alts)
    ensures Decode(cc, t, bytes, pos) == Ok((Alt(MonostateIndex(t.alts), Unit), pos + 8))
  {
  }

  lemma DecodeItemsStep(cc: Customs, e: Type, bytes: seq<byte>, pos: nat, n: nat, acc: seq<Value>, x: (Value, nat))
    requires Decodable(e) && pos <= |bytes| && n > 0
    requires Decode(cc, e, bytes, pos) == Ok(x)
    ensures DecodeItems(cc, e, bytes, pos, n, acc) == DecodeItems(cc, e, bytes, x.1, n - 1, acc + [x.0])
  {
  }

  lemma DecodeElemsStep(cc: Customs, ts: seq<Type>, bytes: seq<byte>, pos: nat, x: (Value, nat), r: (seq<Value>, nat))
    requires ts != [] && DecodableElems(ts) && pos <= |bytes|
    requires Decode(cc, ts[0], bytes, pos) == Ok(x)
    requires DecodeTuple(cc, ts[1..], bytes, x.1) == Ok(r)
    ensures DecodeTuple(cc, ts, bytes, pos) == Ok(([x.0] + r.0, r.1))
  {
  }

  // ---------------------------------------------------------------------------
  // What Serialize writes for each shape

  lemma PairShape(cc: Customs, t: Type, v: Value)
    requires t.StdPair? && Encodable(t, v)
    ensures Encodable(t.first, v.first) && Encodable(t.second, v.second)
    ensures Encode(cc, t, v) == Encode(cc, t.first, v.first) + Encode(cc, t.second, v.second)
    ensures Canon(t, v) == Both(Canon(t.first, v.first), Canon(t.second, v.second))
  {
  }

  lemma ComplexShape(cc: Customs, t: Type, v: Value)
    requires t.StdComplex? && Encodable(t, v)
    ensures v == Both(v.first, v.second)
    ensures TypedArith(t.component, v.first) && TypedArith(t.component, v.second)
    ensures Encode(cc, t, v) == LE(v.first.bits, Width(t.component)) + LE(v.second.bits, Width(t.component))
    ensures Canon(t, v) == v
  {
  }

  lemma BoolCollShape(cc: Customs, t: Type, v: Value)
    requires t.Coll? && t.elem == BoolType && Encodable(t, v)
    ensures |v.elems| < TwoTo64 && forall i :: 0 <= i < |v.elems| ==> TypedArith(BoolKind, v.elems[i])
    ensures Encode(cc, t, v) == LE(|v.elems|, 8) + Pack(BoolsOf(v.elems))
    ensures Canon(t, v) == Items(v.elems)
  {
    forall i | 0 <= i < |v.elems| ensures TypedArith(BoolKind, v.elems[i]) {
      assert Typed(BoolType, v.elems[i]);
    }
    assert CanonSeq(t.elem, v.elems) == v.elems;
  }

  lemma ItemCollShape(cc: Customs, t: Type, v: Value)
    requires t.Coll? && t.elem != BoolType && Encodable(t, v)
    ensures |v.elems| < TwoTo64 && forall i :: 0 <= i < |v.elems| ==> Encodable(t.elem, v.elems[i])
    ensures Encode(cc, t, v) == LE(|v.elems|, 8) + EncodeSeq(cc, t.elem, v.elems)
    ensures Canon(t, v) == Items(CanonSeq(t.elem, v.elems))
  {
  }

  lemma ArrayShape(cc: Customs, t: Type, v: Value)
    requires t.StdArray? && Encodable(t, v)
    ensures t.length == |v.elems| && forall i :: 0 <= i < |v.elems| ==> Encodable(t.elem, v.elems[i])
    ensures Encode(cc, t, v) == EncodeSeq(cc, t.elem, v.elems)
    ensures Canon(t, v) == Items(CanonSeq(t.elem, v.elems))
  {
  }

  lemma TupleShape(cc: Customs, t: Type, v: Value)
    requires t.StdTuple? && Encodable(t, v)
    ensures |t.elems| == |v.elems| && forall i :: 0 <= i < |t.elems| ==> Encodable(t.elems[i], v.elems[i])
    ensures Encode(cc, t, v) == EncodeTuple(cc, t.elems, v.elems)
    ensures Canon(t, v) == Tuple(CanonTuple(t.elems, v.elems))
  {
  }

  lemma SomeShape(cc: Customs, t: Type, v: Value)
    requires t.StdOptional? && v.Present? && Encodable(t, v)
    ensures Encodable(t.payload, v.payload)
    ensures Encode(cc, t, v) == LE(1, 1) + Encode(cc, t.payload, v.payload)
    ensures Canon(t, v) == Present(Canon(t.payload, v.payload))
  {
    assert LE(1, 1) == [1];
  }

  lemma AltShape(cc: Customs, t: Type, v: Value)
    requires t.StdVariant? && v.Alt? && Encodable(t, v)
    ensures v.index < |t.alts| && v.index < TwoTo64 && Encodable(t.alts[v.index], v.payload)
    ensures Encode(cc, t, v) == LE(v.index, 8) + Encode(cc, t.alts[v.index], v.payload)
    ensures Canon(t, v) == Alt(v.index, Canon(t.alts[v.index], v.payload))
  {
  }

  // ---------------------------------------------------------------------------
  // Round trip

  /** Deserialize reads back the canonical form of what Serialize wrote, and stops where it ended. */
  lemma {:induction false} RoundTrip(cc: Customs, t: Type, v: Value, bytes: seq<byte>, pos: nat, end: nat)
    requires Lawful(cc) && Decodable(t) && Encodable(t, v)
    requires pos <= end <= |bytes| && bytes[pos..end] == Encode(cc, t, v)
    ensures Decode(cc, t, bytes, pos) == Ok((Canon(t, v), end))
    decreases t, 1
  {
    if t.Custom? {
      CustomRoundTrip(cc, t, v, bytes, pos, end);
    } else if t.Coll? && t.elem == BoolType {
      BoolCollRoundTrip(cc, t, v, bytes, pos, end);
    } else if t.Coll? {
      ItemCollRoundTrip(cc, t, v, bytes, pos, end);
    } else if t.StdPair? {
      PairRoundTrip(cc, t, v, bytes, pos, end);
    } else if t.StdTuple? {
      TupleRoundTrip(cc, t, v, bytes, pos, end);
    } else if t.StdComplex? {
      ComplexRoundTrip(cc, t, v, bytes, pos, end);
    } else if t.StdArray? {
      ArrayRoundTrip(cc, t, v, bytes, pos, end);
    } else if t.StdOptional? {
      OptionalRoundTrip(cc, t, v, bytes, pos, end);
    } else if t.StdVariant? && v.Valueless? {
      ValuelessRoundTrip(cc, t, v, bytes, pos, end);
    } else if t.StdVariant? {
      AltRoundTrip(cc, t, v, bytes, pos, end);
    } else {
      NumberRoundTrip(cc, t, v, bytes, pos, end);
    }
  }

  lemma CustomRoundTrip(cc: Customs, t: Type, v: Value, bytes: seq<byte>, pos: nat, end: nat)
    requires t.Custom? && Lawful(cc) && Encodable(t, v)
    requires pos <= end <= |bytes| && bytes[pos..end] == Encode(cc, t, v)
    ensures Decode(cc, t, bytes, pos) == Ok((Canon(t, v), end))
  {
    var enc := cc.write(t.id, v.state);
    assert bytes[pos..] == enc + bytes[end..];
  }

  /** Arithmetic values, durations and time points. */
  lemma NumberRoundTrip(cc: Customs, t: Type, v: Value, bytes: seq<byte>, pos: nat, end: nat)
    requires t.Arith? || t.StdDuration? || t.StdTimePoint?
    requires Decodable(t) && Encodable(t, v)
    requires pos <= end <= |bytes| && bytes[pos..end] == Encode(cc, t, v)
    ensures Decode(cc, t, bytes, pos) == Ok((Canon(t, v), end))
  {
    var k := if t.Arith? then t.kind else t.rep;
    ArithRoundTrip(k, v, bytes, pos, end);
  }

  lemma {:induction false} PairRoundTrip(cc: Customs, t: Type, v: Value, bytes: seq<byte>, pos: nat, end: nat)
    requires t.StdPair? && Lawful(cc) && Decodable(t) && Encodable(t, v)
    requires pos <= end <= |bytes| && bytes[pos..end] == Encode(cc, t, v)
    ensures Decode(cc, t, bytes, pos) == Ok((Canon(t, v), end))
    decreases t, 0
  {
    PairShape(cc, t, v);
    var ea, eb := Encode(cc, t.first, v.first), Encode(cc, t.second, v.second);
    Split(bytes, pos, end, ea, eb);
    RoundTrip(cc, t.first, v.first, bytes, pos, pos + |ea|);
    RoundTrip(cc, t.second, v.second, bytes, pos + |ea|, end);
    DecodePairStep(cc, t, bytes, pos, (Canon(t.first, v.first), pos + |ea|), (Canon(t.second, v.second), end));
  }

  lemma ComplexRoundTrip(cc: Customs, t: Type, v: Value, bytes: seq<byte>, pos: nat, end: nat)
    requires t.StdComplex? && Decodable(t) && Encodable(t, v)
    requires pos <= end <= |bytes| && bytes[pos..end] == Encode(cc, t, v)
    ensures Decode(cc, t, bytes, pos) == Ok((Canon(t, v), end))
  {
    ComplexShape(cc, t, v);
    var k := t.component;
    var re := LE(v.first.bits, Width(k));
    Split(bytes, pos, end, re, LE(v.second.bits, Width(k)));
    ArithRoundTrip(k, v.first, bytes, pos, pos + |re|);
    ArithRoundTrip(k, v.second, bytes, pos + |re|, end);
    DecodeComplexStep(cc, t, bytes, pos, (v.first, pos + |re|), (v.second, end));
  }

  lemma BoolCollRoundTrip(cc: Customs, t: Type, v: Value, bytes: seq<byte>, pos: nat, end: nat)
    requires t.Coll? && t.elem == BoolType && Decodable(t) && Encodable(t, v)
    requires pos <= end <= |bytes| && bytes[pos..end] == Encode(cc, t, v)
    ensures Decode(cc, t, bytes, pos) == Ok((Canon(t, v), end))
  {
    BoolCollShape(cc, t, v);
    var xs := v.elems;
    CountBytes(|xs|, Pack(BoolsOf(xs)), bytes, pos, end);
    BoolsRoundTrip(xs, bytes, pos + 8, end);
    DecodeBoolsStep(cc, t, bytes, pos, xs, end);
  }

  lemma {:induction false} ItemCollRoundTrip(cc: Customs, t: Type, v: Value, bytes: seq<byte>, pos: nat, end: nat)
    requires t.Coll? && t.elem != BoolType && Lawful(cc) && Decodable(t) && Encodable(t, v)
    requires pos <= end <= |bytes| && bytes[pos..end] == Encode(cc, t, v)
    ensures Decode(cc, t, bytes, pos) == Ok((Canon(t, v), end))
    decreases t, 0
  {
    ItemCollShape(cc, t, v);
    var e, xs := t.elem, v.elems;
    CountBytes(|xs|, EncodeSeq(cc, e, xs), bytes, pos, end);
    ItemsRoundTrip(cc, e, xs, bytes, pos + 8, end, []);
    NilAppend(CanonSeq(e, xs));
    DecodeCollStep(cc, t, bytes, pos, |xs|, (CanonSeq(e, xs), end));
  }

  lemma {:induction false} ArrayRoundTrip(cc: Customs, t: Type, v: Value, bytes: seq<byte>, pos: nat, end: nat)
    requires t.StdArray? && Lawful(cc) && Decodable(t) && Encodable(t, v)
    requires pos <= end <= |bytes| && bytes[pos..end] == Encode(cc, t, v)
    ensures Decode(cc, t, bytes, pos) == Ok((Canon(t, v), end))
    decreases t, 0
  {
    ArrayShape(cc, t, v);
    var e, xs := t.elem, v.elems;
    ItemsRoundTrip(cc, e, xs, bytes, pos, end, []);
    NilAppend(CanonSeq(e, xs));
    DecodeArrayStep(cc, t, bytes, pos, (CanonSeq(e, xs), end));
  }

  lemma {:induction false} TupleRoundTrip(cc: Customs, t: Type, v: Value, bytes: seq<byte>, pos: nat, end: nat)
    requires t.StdTuple? && Lawful(cc) && Decodable(t) && Encodable(t, v)
    requires pos <= end <= |bytes| && bytes[pos..end] == Encode(cc, t, v)
    ensures Decode(cc, t, bytes, pos) == Ok((Canon(t, v), end))
    decreases t, 0
  {
    TupleShape(cc, t, v);
    ElemsRoundTrip(cc, t.elems, v.elems, bytes, pos, end);
    DecodeTupleStep(cc, t, bytes, pos, (CanonTuple(t.elems, v.elems), end));
  }

  lemma {:induction false} OptionalRoundTrip(cc: Customs, t: Type, v: Value, bytes: seq<byte>, pos: nat, end: nat)
    requires t.StdOptional? && Lawful(cc) && Decodable(t) && Encodable(t, v)
    requires pos <= end <= |bytes| && bytes[pos..end] == Encode(cc, t, v)
    ensures Decode(cc, t, bytes, pos) == Ok((Canon(t, v), end))
    decreases t, 0
  {
    if v.Present? {
      SomeShape(cc, t, v);
      Split(bytes, pos, end, LE(1, 1), Encode(cc, t.payload, v.payload));
      ArithRoundTrip(BoolKind, Num(1), bytes, pos, pos + 1);
      RoundTrip(cc, t.payload, v.payload, bytes, pos + 1, end);
      DecodeSomeStep(cc, t, bytes, pos, (Canon(t.payload, v.payload), end));
    } else {
      assert Encode(cc, t, v) == LE(0, 1);
      ArithRoundTrip(BoolKind, Num(0), bytes, pos, end);
      DecodeNoneStep(cc, t, bytes, pos, end);
    }
  }

  /** A valueless variant comes back as the monostate alternative. */
  lemma ValuelessRoundTrip(cc: Customs, t: Type, v: Value, bytes: seq<byte>, pos: nat, end: nat)
    requires t.StdVariant? && v.Valueless? && Decodable(t) && Encodable(t, v)
    requires pos <= end <= |bytes| && bytes[pos..end] == Encode(cc, t, v)
    ensures Decode(cc, t, bytes, pos) == Ok((Canon(t, v), end))
  {
    Pow256Of8();
    CountBytes(TwoTo64 - 1, [], bytes, pos, end);
    DecodeValuelessStep(cc, t, bytes, pos);
  }

  lemma {:induction false} AltRoundTrip(cc: Customs, t: Type, v: Value, bytes: seq<byte>, pos: nat, end: nat)
    requires t.StdVariant? && v.Alt? && Lawful(cc) && Decodable(t) && Encodable(t, v)
    requires pos <= end <= |bytes| && bytes[pos..end] == Encode(cc, t, v)
    ensures Decode(cc, t, bytes, pos) == Ok((Canon(t, v), end))
    decreases t, 0
  {
    AltShape(cc, t, v);
    var alts, j := t.alts, v.index;
    CountBytes(j, Encode(cc, alts[j], v.payload), bytes, pos, end);
    if alts[j] == Monostate {
      DecodeUnitAltStep(cc, t, bytes, pos, j);
    } else {
      assert Decodable(alts[j]);
      RoundTrip(cc, alts[j], v.payload, bytes, pos + 8, end);
      DecodeAltStep(cc, t, bytes, pos, j, (Canon(alts[j], v.payload), end));
    }
  }

  // ---------------------------------------------------------------------------
  // The element loops

  lemma AppendCons<T>(acc: seq<T>, c0: T, r: seq<T>, s: seq<T>)
    requires s == [c0] + r
    ensures acc + [c0] + r == acc + s
  {
  }

  lemma NilAppend<T>(s: seq<T>)
    ensures [] + s == s
  {
  }

  lemma AppendNil<T>(acc: seq<T>, s: seq<T>)
    requires s == []
    ensures acc + s == acc
  {
  }

  lemma CanonTupleCons(ts: seq<Type>, xs: seq<Value>)
    requires ts != [] && |ts| == |xs| && forall i :: 0 <= i < |ts| ==> Typed(ts[i], xs[i])
    ensures [Canon(ts[0], xs[0])] + CanonTuple(ts[1..], xs[1..]) == CanonTuple(ts, xs)
  {
  }

  lemma CanonSeqCons(e: Type, xs: seq<Value>)
    requires xs != [] && forall i :: 0 <= i < |xs| ==> Typed(e, xs[i])
    ensures CanonSeq(e, xs) == [Canon(e, xs[0])] + CanonSeq(e, xs[1..])
  {
  }

  /** The element loop reads |xs| elements back after those already in acc. */
  lemma {:induction false} ItemsRoundTrip(cc: Customs, e: Type, xs: seq<Value>, bytes: seq<byte>, p: nat, q: nat, acc: seq<Value>)
    requires Lawful(cc) && Decodable(e) && forall i :: 0 <= i < |xs| ==> Encodable(e, xs[i])
    requires p <= q <= |bytes| && bytes[p..q] == EncodeSeq(cc, e, xs)
    ensures DecodeItems(cc, e, bytes, p, |xs|, acc) == Ok((acc + CanonSeq(e, xs), q))
    decreases e, |xs| + 2
  {
    if xs != [] {
      var c0, m := ItemsHead(cc, e, xs, bytes, p, q);
      DecodeItemsStep(cc, e, bytes, p, |xs|, acc, (c0, m));
      ItemsRoundTrip(cc, e, xs[1..], bytes, m, q, acc + [c0]);
      AppendCons(acc, c0, CanonSeq(e, xs[1..]), CanonSeq(e, xs));
    } else {
      ItemsNil(cc, e, xs, bytes, p, q, acc);
    }
  }

  lemma ItemsNil(cc: Customs, e: Type, xs: seq<Value>, bytes: seq<byte>, p: nat, q: nat, acc: seq<Value>)
    requires xs == [] && Decodable(e) && p <= q <= |bytes| && bytes[p..q] == EncodeSeq(cc, e, xs)
    ensures DecodeItems(cc, e, bytes, p, |xs|, acc) == Ok((acc + CanonSeq(e, xs), q))
  {
    AppendNil(acc, CanonSeq(e, xs));
  }

  /** The first element reads back as c0 and stops at m, where the bytes of the others start. */
  lemma {:induction false} ItemsHead(cc: Customs, e: Type, xs: seq<Value>, bytes: seq<byte>, p: nat, q: nat)
    returns (c0: Value, m: nat)
    requires xs != [] && Lawful(cc) && Decodable(e) && forall i :: 0 <= i < |xs| ==> Encodable(e, xs[i])
    requires p <= q <= |bytes| && bytes[p..q] == EncodeSeq(cc, e, xs)
    ensures p <= m <= q && Decode(cc, e, bytes, p) == Ok((c0, m))
    ensures bytes[m..q] == EncodeSeq(cc, e, xs[1..])
    ensures forall i :: 0 <= i < |xs[1..]| ==> Encodable(e, xs[1..][i])
    ensures CanonSeq(e, xs) == [c0] + CanonSeq(e, xs[1..])
    decreases e, |xs| + 1
  {
    CanonSeqCons(e, xs);
    ItemsRest(e, xs);
    m := SeqSplit(cc, e, xs, bytes, p, q);
    RoundTrip(cc, e, xs[0], bytes, p, m);
    c0 := Canon(e, xs[0]);
  }

  /** The bytes of the elements are those of the first and then those of the others. */
  lemma SeqSplit(cc: Customs, e: Type, xs: seq<Value>, bytes: seq<byte>, p: nat, q: nat) returns (m: nat)
    requires xs != [] && forall i :: 0 <= i < |xs| ==> Encodable(e, xs[i])
    requires p <= q <= |bytes| && bytes[p..q] == EncodeSeq(cc, e, xs)
    ensures p <= m <= q && bytes[p..m] == Encode(cc, e, xs[0]) && bytes[m..q] == EncodeSeq(cc, e, xs[1..])
  {
    var e0, rest := Encode(cc, e, xs[0]), EncodeSeq(cc, e, xs[1..]);
    assert EncodeSeq(cc, e, xs) == e0 + rest;
    Split(bytes, p, q, e0, rest);
    m := p + |e0|;
  }

  /** The first element is encodable, and so are the others. */
  lemma ItemsRest(e: Type, xs: seq<Value>)
    requires xs != [] && forall i :: 0 <= i < |xs| ==> Encodable(e, xs[i])
    ensures Encodable(e, xs[0]) && forall i :: 0 <= i < |xs[1..]| ==> Encodable(e, xs[1..][i])
  {
    assert forall i :: 0 <= i < |xs[1..]| ==> xs[1..][i] == xs[i + 1];
  }

  /** A tuple's elements read back in declared order. */
  lemma {:induction false} ElemsRoundTrip(cc: Customs, ts: seq<Type>, xs: seq<Value>, bytes: seq<byte>, p: nat, q: nat)
    requires Lawful(cc) && DecodableElems(ts)
    requires |ts| == |xs| && forall i :: 0 <= i < |ts| ==> Encodable(ts[i], xs[i])
    requires p <= q <= |bytes| && bytes[p..q] == EncodeTuple(cc, ts, xs)
    ensures DecodeTuple(cc, ts, bytes, p) == Ok((CanonTuple(ts, xs), q))
    decreases ts, 1
  {
    if ts != [] {
      var c0, m := ElemsHead(cc, ts, xs, bytes, p, q);
      ElemsRoundTrip(cc, ts[1..], xs[1..], bytes, m, q);
      DecodeElemsStep(cc, ts, bytes, p, (c0, m), (CanonTuple(ts[1..], xs[1..]), q));
    } else {
      ElemsNil(cc, ts, xs, bytes, p, q);
    }
  }

  lemma ElemsNil(cc: Customs, ts: seq<Type>, xs: seq<Value>, bytes: seq<byte>, p: nat, q: nat)
    requires ts == [] && xs == [] && p <= q <= |bytes| && bytes[p..q] == EncodeTuple(cc, ts, xs)
    ensures DecodeTuple(cc, ts, bytes, p) == Ok((CanonTuple(ts, xs), q))
  {
  }

  /** The first element reads back as c0 and stops at m, where the bytes of the others start. */
  lemma {:induction false} ElemsHead(cc: Customs, ts: seq<Type>, xs: seq<Value>, bytes: seq<byte>, p: nat, q: nat)
    returns (c0: Value, m: nat)
    requires ts != [] && Lawful(cc) && DecodableElems(ts)
    requires |ts| == |xs| && forall i :: 0 <= i < |ts| ==> Encodable(ts[i], xs[i])
    requires p <= q <= |bytes| && bytes[p..q] == EncodeTuple(cc, ts, xs)
    ensures p <= m <= q && Decode(cc, ts[0], bytes, p) == Ok((c0, m))
    ensures bytes[m..q] == EncodeTuple(cc, ts[1..], xs[1..])
    ensures DecodableElems(ts[1..]) && |ts[1..]| == |xs[1..]|
    ensures forall i :: 0 <= i < |ts[1..]| ==> Encodable(ts[1..][i], xs[1..][i])
    ensures CanonTuple(ts, xs) == [c0] + CanonTuple(ts[1..], xs[1..])
    decreases ts, 0
  {
    CanonTupleCons(ts, xs);
    ElemsRest(ts, xs);
    m := TupleSplit(cc, ts, xs, bytes, p, q);
    RoundTrip(cc, ts[0], xs[0], bytes, p, m);
    c0 := Canon(ts[0], xs[0]);
  }

  /** The bytes of a tuple's elements are those of the first and then those of the others. */
  lemma TupleSplit(cc: Customs, ts: seq<Type>, xs: seq<Value>, bytes: seq<byte>, p: nat, q: nat) returns (m: nat)
    requires ts != [] && |ts| == |xs| && forall i :: 0 <= i < |ts| ==> Encodable(ts[i], xs[i])
    requires p <= q <= |bytes| && bytes[p..q] == EncodeTuple(cc, ts, xs)
    ensures p <= m <= q && bytes[p..m] == Encode(cc, ts[0], xs[0])
    ensures bytes[m..q] == EncodeTuple(cc, ts[1..], xs[1..])
  {
    var e0, rest := Encode(cc, ts[0], xs[0]), EncodeTuple(cc, ts[1..], xs[1..]);
    assert EncodeTuple(cc, ts, xs) == e0 + rest;
    Split(bytes, p, q, e0, rest);
    m := p + |e0|;
  }

  /** The first element type is decodable and its value encodable, and so are the others. */
  lemma ElemsRest(ts: seq<Type>, xs: seq<Value>)
    requires ts != [] && DecodableElems(ts)
    requires |ts| == |xs| && forall i :: 0 <= i < |ts| ==> Encodable(ts[i], xs[i])
    ensures Decodable(ts[0]) && Encodable(ts[0], xs[0])
    ensures DecodableElems(ts[1..]) && |ts[1..]| == |xs[1..]|
    ensures forall i :: 0 <= i < |ts[1..]| ==> Encodable(ts[1..][i], xs[1..][i])
  {
    assert forall i :: 0 <= i < |ts[1..]| ==> ts[1..][i] == ts[i + 1] && xs[1..][i] == xs[i + 1];
  }
}
