/**
 * The wire format of include/bserializer/serializer.h as pure functions:
 * Size (SerializedSize, lines 404-462), Encode (the bytes Serialize writes,
 * lines 464-555) and Decode (what Deserialize reads, lines 565-680), over a
 * type descriptor and a value of that type.
 */
module Codec {
  import opened Wrappers
  import opened Bytes
  import opened Shapes
  import opened BoolPack

  /**
   * A value of some Type. Arithmetic values, duration counts and time point
   * counts are bit patterns (signed integers in two's complement, floating
   * point in their IEEE layout); collections and std::array hold their
   * elements in iteration order.
   */
  datatype Value =
    | Num(bits: nat)
    | Items(elems: seq<Value>)                 // a collection or a std::array
    | Both(first: Value, second: Value)        // a pair, or a complex number's real and imaginary parts
    | Tuple(elems: seq<Value>)
    | Absent                                   // an empty std::optional
    | Present(payload: Value)
    | Alt(index: nat, payload: Value)          // a variant holding alternative index
    | Valueless                                // a variant valueless by exception
    | Unit                                     // std::monostate
    | Object(state: nat)                       // a value of a type with custom operations

  /**
   * The custom operations of BuiltInSerializable types, per type id and
   * object state: SerializedSize(), the bytes Serialize(Data) writes, and what
   * Deserialize(Data, Value) makes of the bytes from the cursor on (the state
   * and the number of bytes consumed, or None when it fails). The codec
   * assumes both operations take the cursor by reference and advance it past
   * those bytes.
   */
  datatype Customs = Customs(
    size: (nat, nat) -> nat,
    write: (nat, nat) -> seq<byte>,
    read: (nat, seq<byte>) -> Option<(nat, nat)>)

  /** The contract the codec relies on: size agrees with write, and read undoes write whatever follows. */
  ghost predicate Lawful(cc: Customs) {
    && (forall id: nat, s: nat :: |cc.write(id, s)| == cc.size(id, s))
    && (forall id: nat, s: nat, rest: seq<byte> ::
          cc.read(id, cc.write(id, s) + rest) == Some((s, |cc.write(id, s)|)))
  }

  predicate TypedArith(k: ArithKind, v: Value) {
    v.Num? && v.bits < Pow256(Width(k)) && (k == BoolKind ==> v.bits <= 1)
  }

  /** v is a value of type t. */
  predicate Typed(t: Type, v: Value)
    decreases t
  {
    match t
    case Custom(_, _) => v.Object?
    case Coll(_, e) =>
      v.Items? && |v.elems| < TwoTo64 && forall i :: 0 <= i < |v.elems| ==> Typed(e, v.elems[i])
    case Arith(k) => TypedArith(k, v)
    case StdPair(a, b) => v.Both? && Typed(a, v.first) && Typed(b, v.second)
    case StdTuple(ts) =>
      v.Tuple? && |v.elems| == |ts| && forall i :: 0 <= i < |ts| ==> Typed(ts[i], v.elems[i])
    case StdComplex(k) => v.Both? && TypedArith(k, v.first) && TypedArith(k, v.second)
    case StdArray(e, n) =>
      v.Items? && |v.elems| == n && forall i :: 0 <= i < n ==> Typed(e, v.elems[i])
    case StdOptional(p) => v.Absent? || (v.Present? && Typed(p, v.payload))
    case StdVariant(alts) =>
      |alts| < TwoTo64 &&
      (v.Valueless? || (v.Alt? && v.index < |alts| && Typed(alts[v.index], v.payload)))
    case Monostate => v.Unit?
    case StdDuration(k) => TypedArith(k, v)
    case StdTimePoint(k) => TypedArith(k, v)
    case Plain(_) => false
  }

  /**
   * SerializedSize and Serialize throw std::out_of_range on a valueless
   * variant that has no monostate alternative (lines 310-312, 326-330).
   */
  predicate Throws(t: Type, v: Value)
    requires Typed(t, v)
    decreases t
  {
    match t
    case Coll(_, e) => exists i :: 0 <= i < |v.elems| && Throws(e, v.elems[i])
    case StdArray(e, _) => exists i :: 0 <= i < |v.elems| && Throws(e, v.elems[i])
    case StdPair(a, b) => Throws(a, v.first) || Throws(b, v.second)
    case StdTuple(ts) => exists i :: 0 <= i < |ts| && Throws(ts[i], v.elems[i])
    case StdOptional(p) => v.Present? && Throws(p, v.payload)
    case StdVariant(alts) =>
      if v.Valueless? then !HasMonostate(alts) else Throws(alts[v.index], v.payload)
    case _ => false
  }

  predicate Encodable(t: Type, v: Value) {
    Typed(t, v) && !Throws(t, v)
  }

  /** What Encodable(t, v) says of v's parts, case by case of t. */
  lemma EncodableParts(t: Type, v: Value)
    requires Encodable(t, v)
    ensures t.Custom? ==> v.Object?
    ensures t.Coll? ==> v.Items? && |v.elems| < TwoTo64 && forall i :: 0 <= i < |v.elems| ==> Encodable(t.elem, v.elems[i])
    ensures t.StdArray? ==> v.Items? && forall i :: 0 <= i < |v.elems| ==> Encodable(t.elem, v.elems[i])
    ensures t.Arith? ==> TypedArith(t.kind, v)
    ensures t.StdPair? ==> v.Both? && Encodable(t.first, v.first) && Encodable(t.second, v.second)
    ensures t.StdTuple? ==>
      v.Tuple? && |v.elems| == |t.elems| && forall i :: 0 <= i < |t.elems| ==> Encodable(t.elems[i], v.elems[i])
    ensures t.StdComplex? ==> v.Both? && TypedArith(t.component, v.first) && TypedArith(t.component, v.second)
    ensures t.StdOptional? ==> v.Absent? || (v.Present? && Encodable(t.payload, v.payload))
    ensures t.StdVariant? ==>
      v.Valueless? || (v.Alt? && v.index < |t.alts| && Encodable(t.alts[v.index], v.payload))
    ensures t.StdDuration? ==> TypedArith(t.rep, v)
    ensures t.StdTimePoint? ==> TypedArith(t.rep, v)
  {
  }

  /** v holds no valueless variant anywhere. */
  predicate Settled(v: Value)
    decreases v
  {
    match v
    case Items(xs) => forall i :: 0 <= i < |xs| ==> Settled(xs[i])
    case Tuple(xs) => forall i :: 0 <= i < |xs| ==> Settled(xs[i])
    case Both(a, b) => Settled(a) && Settled(b)
    case Present(p) => Settled(p)
    case Alt(_, p) => Settled(p)
    case Valueless => false
    case _ => true
  }

  /** The elements of a bool collection as the bits the packer sees. */
  function BoolsOf(xs: seq<Value>): (r: seq<bool>)
    ensures |r| == |xs|
  {
    seq(|xs|, i requires 0 <= i < |xs| => xs[i] == Num(1))
  }

  /** Unpacked bits as bool values. */
  function BoolValues(bs: seq<bool>): (r: seq<Value>)
    ensures |r| == |bs|
  {
    seq(|bs|, i requires 0 <= i < |bs| => Num(if bs[i] then 1 else 0))
  }

  // ---------------------------------------------------------------------------
  // SerializedSize

  /** SerializedSize(Value) for a value that does not make it throw. */
  function Size(cc: Customs, t: Type, v: Value): nat
    requires Encodable(t, v)
    decreases t, 0
  {
    match t
    case Custom(id, _) => cc.size(id, v.state)
    case Coll(_, e) =>
      8 + (if e == BoolType then PackedBytes(|v.elems|) else SizeSeq(cc, e, v.elems))
    case Arith(k) => Width(k)
    case StdPair(a, b) => Size(cc, a, v.first) + Size(cc, b, v.second)
    case StdTuple(ts) => SizeTuple(cc, ts, v.elems)
    case StdComplex(k) => 2 * Width(k)
    case StdArray(e, _) => SizeSeq(cc, e, v.elems)
    case StdOptional(p) => 1 + (if v.Present? then Size(cc, p, v.payload) else 0)
    case StdVariant(alts) => 8 + (if v.Valueless? then 0 else Size(cc, alts[v.index], v.payload))
    case Monostate => 0
    case StdDuration(k) => Width(k)
    case StdTimePoint(k) => Width(k)
  }

  /** The sum of the element sizes (the loops at lines 418-420 and 444). */
  function SizeSeq(cc: Customs, e: Type, xs: seq<Value>): nat
    requires forall i :: 0 <= i < |xs| ==> Encodable(e, xs[i])
    decreases e, |xs|
  {
    if xs == [] then 0 else Size(cc, e, xs[0]) + SizeSeq(cc, e, xs[1..])
  }

  /** The fold over a tuple's elements (lines 433-437). */
  function SizeTuple(cc: Customs, ts: seq<Type>, xs: seq<Value>): nat
    requires |ts| == |xs| && forall i :: 0 <= i < |ts| ==> Encodable(ts[i], xs[i])
    decreases ts
  {
    if ts == [] then 0 else Size(cc, ts[0], xs[0]) + SizeTuple(cc, ts[1..], xs[1..])
  }

  /** SerializedSize as the source defines it on every value: it throws where Serialize would. */
  function SerializedSize(cc: Customs, t: Type, v: Value): (r: Result<nat>)
    requires Typed(t, v)
    ensures r.Err? <==> Throws(t, v)
    ensures r.Err? ==> r.error == OutOfRange
  {
    if Throws(t, v) then Err(OutOfRange) else Ok(Size(cc, t, v))
  }

  // ---------------------------------------------------------------------------
  // Serialize

  /** The bytes Serialize writes for v. */
  function Encode(cc: Customs, t: Type, v: Value): (r: seq<byte>)
    requires Encodable(t, v)
    decreases t, 2
  {
    Pow256Of8();
    EncodableParts(t, v);
    match t
    case Custom(id, _) => cc.write(id, v.state)
    case Coll(c, e) => EncodeColl(cc, c, e, v.elems)
    case Arith(k) => LE(v.bits, Width(k))
    case StdPair(a, b) => Encode(cc, a, v.first) + Encode(cc, b, v.second)
    case StdTuple(ts) => EncodeTuple(cc, ts, v.elems)
    case StdComplex(k) => LE(v.first.bits, Width(k)) + LE(v.second.bits, Width(k))
    case StdArray(e, _) => EncodeSeq(cc, e, v.elems)
    case StdOptional(p) => if v.Present? then [1] + Encode(cc, p, v.payload) else [0]
    case StdVariant(alts) =>
      if v.Valueless? then LE(TwoTo64 - 1, 8)
      else LE(v.index, 8) + Encode(cc, alts[v.index], v.payload)
    case Monostate => []
    case StdDuration(k) => LE(v.bits, Width(k))
    case StdTimePoint(k) => LE(v.bits, Width(k))
  }

  /** A collection (lines 469-517): the element count as eight bytes, then the elements, bools packed. */
  function EncodeColl(cc: Customs, c: Container, e: Type, xs: seq<Value>): (r: seq<byte>)
    requires |xs| < TwoTo64 && forall i :: 0 <= i < |xs| ==> Encodable(e, xs[i])
    decreases Coll(c, e), 1
  {
    Pow256Of8();
    LE(|xs|, 8) + (if e == BoolType then Pack(BoolsOf(xs)) else EncodeSeq(cc, e, xs))
  }

  /** The elements one after another (lines 515 and 537). */
  function EncodeSeq(cc: Customs, e: Type, xs: seq<Value>): (r: seq<byte>)
    requires forall i :: 0 <= i < |xs| ==> Encodable(e, xs[i])
    decreases e, |xs| + 3
  {
    if xs == [] then [] else Encode(cc, e, xs[0]) + EncodeSeq(cc, e, xs[1..])
  }

  /** The tuple's elements in declared order (lines 528-530). */
  function EncodeTuple(cc: Customs, ts: seq<Type>, xs: seq<Value>): (r: seq<byte>)
    requires |ts| == |xs| && forall i :: 0 <= i < |ts| ==> Encodable(ts[i], xs[i])
    decreases ts
  {
    if ts == [] then [] else Encode(cc, ts[0], xs[0]) + EncodeTuple(cc, ts[1..], xs[1..])
  }

  // ---------------------------------------------------------------------------
  // Deserialize

  /** A w-byte little-endian number at pos. */
  function ReadNat(bytes: seq<byte>, pos: nat, w: nat): (r: Result<(nat, nat)>)
    ensures r.Ok? ==> r.value.0 < Pow256(w) && r.value.1 == pos + w <= |bytes|
  {
    if pos + w <= |bytes| then Ok((FromLE(bytes[pos..pos + w]), pos + w)) else Err(Truncated)
  }

  /** An arithmetic value at pos (lines 609-611); a bool is true when its byte is not zero. */
  function DecodeArith(k: ArithKind, bytes: seq<byte>, pos: nat): (r: Result<(Value, nat)>)
    ensures r.Ok? ==> TypedArith(k, r.value.0) && r.value.1 == pos + Width(k) <= |bytes|
  {
    var x :- ReadNat(bytes, pos, Width(k));
    Ok((Num(if k == BoolKind then (if x.0 != 0 then 1 else 0) else x.0), x.1))
  }

  /** _T::Deserialize(Data, Value) of a type with custom operations (line 572-573). */
  function DecodeCustom(cc: Customs, id: nat, bytes: seq<byte>, pos: nat): (r: Result<(Value, nat)>)
    requires pos <= |bytes|
    ensures r.Ok? ==> r.value.0.Object? && pos <= r.value.1 <= |bytes|
  {
    match cc.read(id, bytes[pos..])
    case None => Err(Rejected)
    case Some(sk) => if sk.1 <= |bytes| - pos then Ok((Object(sk.0), pos + sk.1)) else Err(Truncated)
  }

  /** What Deserialize<T> reads at pos, and where it leaves the cursor. */
  function Decode(cc: Customs, t: Type, bytes: seq<byte>, pos: nat): (r: Result<(Value, nat)>)
    requires Decodable(t) && pos <= |bytes|
    ensures r.Ok? ==> pos <= r.value.1 <= |bytes|
    decreases t, 2
  {
    match t
    case Custom(id, _) => DecodeCustom(cc, id, bytes, pos)
    case Coll(c, e) => DecodeColl(cc, c, e, bytes, pos)
    case Arith(k) => DecodeArith(k, bytes, pos)
    case StdPair(a, b) => DecodePair(cc, a, b, bytes, pos)
    case StdTuple(ts) =>
      var xs :- DecodeTuple(cc, ts, bytes, pos);
      Ok((Tuple(xs.0), xs.1))
    case StdComplex(k) =>
      var re :- DecodeArith(k, bytes, pos);
      var im :- DecodeArith(k, bytes, re.1);
      Ok((Both(re.0, im.0), im.1))
    case StdArray(e, n) =>
      var xs :- DecodeItems(cc, e, bytes, pos, n, []);
      Ok((Items(xs.0), xs.1))
    case StdOptional(p) => DecodeOptional(cc, p, bytes, pos)
    case StdVariant(alts) => DecodeVariant(cc, alts, bytes, pos)
    case StdDuration(k) => DecodeArith(k, bytes, pos)
    case StdTimePoint(k) => DecodeArith(k, bytes, pos)
  }

  /** A collection (lines 575-608): the element count, then the elements, bools packed eight to a byte. */
  function DecodeColl(cc: Customs, c: Container, e: Type, bytes: seq<byte>, pos: nat): (r: Result<(Value, nat)>)
    requires Decodable(e) && pos <= |bytes|
    ensures r.Ok? ==> pos <= r.value.1 <= |bytes|
    decreases Coll(c, e), 1
  {
    var n :- ReadNat(bytes, pos, 8);
    Pow256Of8();
    if e == BoolType then
      var end := n.1 + PackedBytes(n.0);
      if end <= |bytes| then Ok((Items(BoolValues(Unpack(bytes[n.1..], n.0))), end))
      else Err(Truncated)
    else
      var xs :- DecodeItems(cc, e, bytes, n.1, n.0, []);
      Ok((Items(xs.0), xs.1))
  }

  /** A pair (lines 613-647): first, then second. */
  function DecodePair(cc: Customs, a: Type, b: Type, bytes: seq<byte>, pos: nat): (r: Result<(Value, nat)>)
    requires Decodable(a) && Decodable(b) && pos <= |bytes|
    ensures r.Ok? ==> pos <= r.value.1 <= |bytes|
    decreases StdPair(a, b), 1
  {
    var x :- Decode(cc, a, bytes, pos);
    var y :- Decode(cc, b, bytes, x.1);
    Ok((Both(x.0, y.0), y.1))
  }

  /** An optional (lines 664-668): the has-value flag, then the payload when it is set. */
  function DecodeOptional(cc: Customs, p: Type, bytes: seq<byte>, pos: nat): (r: Result<(Value, nat)>)
    requires Decodable(p) && pos <= |bytes|
    ensures r.Ok? ==> pos <= r.value.1 <= |bytes|
    decreases StdOptional(p), 1
  {
    var flag :- DecodeArith(BoolKind, bytes, pos);
    if flag.0 == Num(1) then
      var x :- Decode(cc, p, bytes, flag.1);
      Ok((Present(x.0), x.1))
    else Ok((Absent, flag.1))
  }

  /** details::variantDeserialize (lines 344-366, 378-382): the index, then the alternative it names. */
  function DecodeVariant(cc: Customs, alts: seq<Type>, bytes: seq<byte>, pos: nat): (r: Result<(Value, nat)>)
    requires 0 < |alts| < TwoTo64 && DecodableAlts(alts) && pos <= |bytes|
    ensures r.Ok? ==> pos <= r.value.1 <= |bytes|
    decreases alts
  {
    var idx :- ReadNat(bytes, pos, 8);
    var j := idx.0;
    if j < |alts| then
      if alts[j] == Monostate then Ok((Alt(j, Unit), idx.1))
      else
        var x :- Decode(cc, alts[j], bytes, idx.1);
        Ok((Alt(j, x.0), x.1))
    else if HasMonostate(alts) then Ok((Alt(MonostateIndex(alts), Unit), idx.1))
    else Err(OutOfRange)
  }

  /** The element loop of line 605 and 662: n elements of type e appended to acc. */
  function DecodeItems(cc: Customs, e: Type, bytes: seq<byte>, pos: nat, n: nat, acc: seq<Value>)
    : (r: Result<(seq<Value>, nat)>)
    requires Decodable(e) && pos <= |bytes|
    ensures r.Ok? ==> pos <= r.value.1 <= |bytes| && |r.value.0| == |acc| + n
    decreases e, n + 3
  {
    if n == 0 then Ok((acc, pos))
    else
      var x :- Decode(cc, e, bytes, pos);
      DecodeItems(cc, e, bytes, x.1, n - 1, acc + [x.0])
  }

  /** details::tupleDeserializer2 (lines 294-301): the first element, then the rest. */
  function DecodeTuple(cc: Customs, ts: seq<Type>, bytes: seq<byte>, pos: nat): (r: Result<(seq<Value>, nat)>)
    requires DecodableElems(ts) && pos <= |bytes|
    ensures r.Ok? ==> pos <= r.value.1 <= |bytes| && |r.value.0| == |ts|
    decreases ts
  {
    if ts == [] then Ok(([], pos))
    else
      var x :- Decode(cc, ts[0], bytes, pos);
      var rest :- DecodeTuple(cc, ts[1..], bytes, x.1);
      Ok(([x.0] + rest.0, rest.1))
  }
}
