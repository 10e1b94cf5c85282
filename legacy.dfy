/**
 * The wire format of the older Serializer.h as pure functions: SizeOf
 * (SerializedSize, lines 179-207), Written (the bytes Serialize writes,
 * lines 209-243) and Read (what Deserialize reads, lines 245-292).
 *
 * It is the same layout as the newer codec for integers, iterables, pairs
 * and tuples, with three differences: a floating-point value is copied as
 * the host's own bytes, a bool container is not packed, and a container is
 * rebuilt by inserting its elements one by one, a map by key.
 */
module Legacy {
  import opened Wrappers
  import opened Bytes
  import opened Endian
  import opened Codec

  /** The shapes the older dispatch handles. */
  datatype LegacyType =
    | Integral(width: nat)                            // one of the eight fixed-width integers, of sizeof width
    | Floating(width: nat)                            // std::floating_point of sizeof width
    | Iterable(elem: LegacyType, keyed: bool)         // details::Iterable; keyed for a unique-key details::IsMap
    | PairOf(first: LegacyType, second: LegacyType)   // details::isPair
    | TupleOf(elems: seq<LegacyType>)                 // details::isTuple
    | BuiltIn(id: nat)                                // a type with its own SerializedSize/Serialize/Deserialize

  /**
   * The types the dispatch can read: integers of the widths that have a
   * toFromLittleEndian overload (lines 119-163), a map's value_type is a
   * pair, and every tuple has an element (tupleDeserializer has no
   * specialisation for std::tuple<>, lines 168-177).
   */
  predicate Readable(t: LegacyType)
    decreases t
  {
    match t
    case Integral(w) => w == 1 || w == 2 || w == 4 || w == 8
    case Floating(w) => w > 0
    case Iterable(e, keyed) => Readable(e) && (keyed ==> e.PairOf?)
    case PairOf(a, b) => Readable(a) && Readable(b)
    case TupleOf(ts) => |ts| > 0 && forall i :: 0 <= i < |ts| ==> Readable(ts[i])
    case BuiltIn(_) => true
  }

  /** No two entries of a map share a key. */
  predicate KeysDistinct(xs: seq<Value>) {
    forall i, j :: 0 <= i < j < |xs| ==> xs[i].Both? && xs[j].Both? ==> xs[i].first != xs[j].first
  }

  /**
   * v is a value of type t, its elements in iteration order. A map holds
   * pairs with distinct keys; its count fits the size_t slot.
   */
  predicate Fits(t: LegacyType, v: Value)
    decreases t
  {
    match t
    case Integral(w) => v.Num? && v.bits < Pow256(w)
    case Floating(w) => v.Num? && v.bits < Pow256(w)
    case Iterable(e, keyed) =>
      v.Items? && |v.elems| < TwoTo64 && (forall i :: 0 <= i < |v.elems| ==> Fits(e, v.elems[i]))
      && (keyed ==> KeysDistinct(v.elems))
    case PairOf(a, b) => v.Both? && Fits(a, v.first) && Fits(b, v.second)
    case TupleOf(ts) => v.Tuple? && |v.elems| == |ts| && forall i :: 0 <= i < |ts| ==> Fits(ts[i], v.elems[i])
    case BuiltIn(_) => v.Object?
  }

  // ---------------------------------------------------------------------------
  // SerializedSize

  /** SerializedSize(Value): the width of a number, eight plus the elements of an iterable, the sum of the parts. */
  function SizeOf(cc: Customs, t: LegacyType, v: Value): nat
    requires Fits(t, v)
    decreases t, 0
  {
    match t
    case Integral(w) => w
    case Floating(w) => w
    case Iterable(e, _) => 8 + SizeOfSeq(cc, e, v.elems)
    case PairOf(a, b) => SizeOf(cc, a, v.first) + SizeOf(cc, b, v.second)
    case TupleOf(ts) => SizeOfTuple(cc, ts, v.elems)
    case BuiltIn(id) => cc.size(id, v.state)
  }

  function SizeOfSeq(cc: Customs, e: LegacyType, xs: seq<Value>): nat
    requires forall i :: 0 <= i < |xs| ==> Fits(e, xs[i])
    decreases e, |xs|
  {
    if xs == [] then 0 else SizeOf(cc, e, xs[0]) + SizeOfSeq(cc, e, xs[1..])
  }

  function SizeOfTuple(cc: Customs, ts: seq<LegacyType>, xs: seq<Value>): nat
    requires |ts| == |xs| && forall i :: 0 <= i < |ts| ==> Fits(ts[i], xs[i])
    decreases ts
  {
    if ts == [] then 0 else SizeOf(cc, ts[0], xs[0]) + SizeOfTuple(cc, ts[1..], xs[1..])
  }

  // ---------------------------------------------------------------------------
  // Serialize

  /**
   * The bytes Serialize(Data, Value) writes: an integer little-endian, a
   * floating-point value as the host lays it out, an iterable's count in an
   * 8-byte slot before its elements, the parts of a pair or tuple in order.
   */
  function Written(cc: Customs, host: Endian, t: LegacyType, v: Value): seq<byte>
    requires Fits(t, v)
    decreases t, 1
  {
    match t
    case Integral(w) => LE(v.bits, w)
    case Floating(w) => HostBytes(host, v.bits, w)
    case Iterable(e, _) => LE(|v.elems|, 8) + WrittenSeq(cc, host, e, v.elems)
    case PairOf(a, b) => Written(cc, host, a, v.first) + Written(cc, host, b, v.second)
    case TupleOf(ts) => WrittenTuple(cc, host, ts, v.elems)
    case BuiltIn(id) => cc.write(id, v.state)
  }

  function WrittenSeq(cc: Customs, host: Endian, e: LegacyType, xs: seq<Value>): seq<byte>
    requires forall i :: 0 <= i < |xs| ==> Fits(e, xs[i])
    decreases e, |xs| + 2
  {
    if xs == [] then [] else Written(cc, host, e, xs[0]) + WrittenSeq(cc, host, e, xs[1..])
  }

  function WrittenTuple(cc: Customs, host: Endian, ts: seq<LegacyType>, xs: seq<Value>): seq<byte>
    requires |ts| == |xs| && forall i :: 0 <= i < |ts| ==> Fits(ts[i], xs[i])
    decreases ts
  {
    if ts == [] then [] else Written(cc, host, ts[0], xs[0]) + WrittenTuple(cc, host, ts[1..], xs[1..])
  }

  // ---------------------------------------------------------------------------
  // Deserialize

  /** Some entry of coll already has key k. */
  predicate HasKey(coll: seq<Value>, k: Value) {
    exists i :: 0 <= i < |coll| && coll[i].Both? && coll[i].first == k
  }

  /**
   * collection.insert for the element just read (lines 260-265): a
   * unique-key map (std::map, std::unordered_map) inserts by key and keeps
   * the entry it already has for that key; any other container inserts at
   * end(). A multimap keeps every entry, so it is read with keyed = false.
   */
  function Insert(keyed: bool, coll: seq<Value>, x: Value): seq<Value>
  {
    if keyed && x.Both? && HasKey(coll, x.first) then coll else coll + [x]
  }

  /** What Deserialize<T>(Data) reads at pos, and where it leaves the cursor. */
  function Read(cc: Customs, host: Endian, t: LegacyType, bytes: seq<byte>, pos: nat): (r: Result<(Value, nat)>)
    requires Readable(t) && pos <= |bytes|
    ensures r.Ok? ==> pos <= r.value.1 <= |bytes|
    decreases t, 2
  {
    match t
    case Integral(w) =>
      var x :- ReadNat(bytes, pos, w);
      Ok((Num(x.0), x.1))
    case Floating(w) =>
      if pos + w <= |bytes| then Ok((Num(HostValue(host, bytes[pos..pos + w])), pos + w)) else Err(Truncated)
    case Iterable(e, keyed) =>
      var n :- ReadNat(bytes, pos, 8);
      var xs :- ReadItems(cc, host, e, keyed, bytes, n.1, n.0, []);
      Ok((Items(xs.0), xs.1))
    case PairOf(a, b) =>
      var x :- Read(cc, host, a, bytes, pos);
      var y :- Read(cc, host, b, bytes, x.1);
      Ok((Both(x.0, y.0), y.1))
    case TupleOf(ts) =>
      var xs :- ReadTuple(cc, host, ts, bytes, pos);
      Ok((Tuple(xs.0), xs.1))
    case BuiltIn(id) => DecodeCustom(cc, id, bytes, pos)
  }

  /** The element loop (lines 257-266): n more elements, each inserted into coll as it is read. */
  function ReadItems(cc: Customs, host: Endian, e: LegacyType, keyed: bool, bytes: seq<byte>, pos: nat, n: nat, coll: seq<Value>)
    : (r: Result<(seq<Value>, nat)>)
    requires Readable(e) && pos <= |bytes|
    ensures r.Ok? ==> pos <= r.value.1 <= |bytes|
    decreases e, n + 3
  {
    if n == 0 then Ok((coll, pos))
    else
      var x :- Read(cc, host, e, bytes, pos);
      ReadItems(cc, host, e, keyed, bytes, x.1, n - 1, Insert(keyed, coll, x.0))
  }

  /** tupleDeserializer (lines 168-177): the first element, then the rest, joined by tuple_cat. */
  function ReadTuple(cc: Customs, host: Endian, ts: seq<LegacyType>, bytes: seq<byte>, pos: nat)
    : (r: Result<(seq<Value>, nat)>)
    requires |ts| > 0 && (forall i :: 0 <= i < |ts| ==> Readable(ts[i])) && pos <= |bytes|
    ensures r.Ok? ==> pos <= r.value.1 <= |bytes| && |r.value.0| == |ts|
    decreases ts, 0
  {
    var x :- Read(cc, host, ts[0], bytes, pos);
    if |ts| == 1 then Ok(([x.0], x.1))
    else
      var rest :- ReadTuple(cc, host, ts[1..], bytes, x.1);
      Ok(([x.0] + rest.0, rest.1))
  }
}
