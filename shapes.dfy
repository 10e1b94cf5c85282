/**
 * Type descriptors for the codec's supported shapes, and the shape classifiers:
 * the recursive isSerializable* traits of Serializable.h and the set of shapes
 * the dispatch in include/bserializer/serializer.h handles.
 */
module Shapes {
  import opened Bytes

  /** The arithmetic types (std::is_arithmetic): bool, integers and floating point. */
  datatype ArithKind =
    | BoolKind
    | IntKind(width: nat, signed: bool)   // char, short, int, long, long long and their unsigned forms
    | FloatKind(width: nat)               // float, double, long double

  /** sizeof of an arithmetic type. */
  function Width(k: ArithKind): nat {
    match k
    case BoolKind => 1
    case IntKind(w, _) => w
    case FloatKind(w) => w
  }

  predicate ValidArith(k: ArithKind) {
    match k
    case BoolKind => true
    case IntKind(w, _) => w == 1 || w == 2 || w == 4 || w == 8
    case FloatKind(w) => w == 4 || w == 8 || w == 16
  }

  /**
   * The static traits of a container class that the Collection and Map concepts
   * of Serializable.h inspect: an unsigned size_type, construction from a
   * range of element addresses, and (for maps) key_type/mapped_type with
   * value_type == pair<const key_type, mapped_type> and find().
   */
  datatype Container = Container(unsignedSizeType: bool, rangeConstructible: bool, keyed: bool)

  datatype Type =
    | Arith(kind: ArithKind)
    | Coll(container: Container, elem: Type)      // elem is value_type
    | StdPair(first: Type, second: Type)
    | StdTuple(elems: seq<Type>)
    | StdComplex(component: ArithKind)
    | StdArray(elem: Type, length: nat)
    | StdOptional(payload: Type)
    | StdVariant(alts: seq<Type>)
    | Monostate
    | StdDuration(rep: ArithKind)                 // the ratio is static and never written
    | StdTimePoint(rep: ArithKind)                // the clock is static; rep is its duration's
    | Custom(id: nat, structure: Type)            // supplies the four BuiltInSerializable operations
    | Plain(id: nat)                              // any other type: no shape matches

  const BoolType := Arith(BoolKind)

  // ---------------------------------------------------------------------------
  // Serializable.h

  /** The Collection concept (Serializable.h:75-105). */
  predicate IsCollection(t: Type) {
    t.Coll? && t.container.unsignedSizeType && t.container.rangeConstructible
  }

  /** The Map concept (Serializable.h:138-149): a collection of pair<const key_type, mapped_type>. */
  predicate IsMap(t: Type) {
    IsCollection(t) && t.container.keyed && t.elem.StdPair?
  }

  /** BuiltInSerializable (Serializable.h:27-41). */
  predicate BuiltInSerializable(t: Type) {
    t.Custom?
  }

  /** details::isSerializable (Serializable.h:200-209). */
  predicate Serializable(t: Type)
    decreases t, 1
  {
    || t.Arith?
    || SerializableStdPair(t)
    || SerializableStdTuple(t)
    || SerializableCollection(t)
    || SerializableMap(t)
    || BuiltInSerializable(t)
  }

  /** details::isSerializableStdPair (Serializable.h:162-167). */
  predicate SerializableStdPair(t: Type)
    decreases t, 0
  {
    t.StdPair? && Serializable(t.first) && Serializable(t.second)
  }

  /** details::isSerializableStdTuple (Serializable.h:176-184): tuple<> is, tuple<F, R...> is iff F and tuple<R...> are. */
  predicate SerializableStdTuple(t: Type)
    decreases t, 0
  {
    t.StdTuple? && SerializableElems(t.elems)
  }

  predicate SerializableElems(ts: seq<Type>)
    decreases ts
  {
    ts == [] || (Serializable(ts[0]) && SerializableElems(ts[1..]))
  }

  /**
   * details::isSerializableCollection (Serializable.h:186-191): value_type must
   * be serializable. A map's value_type is pair<const key_type, mapped_type>,
   * so there the key is looked at const-qualified.
   */
  predicate SerializableCollection(t: Type)
    decreases t, 0
  {
    && IsCollection(t)
    && if IsMap(t) then SerializableConst(t.elem.first) && Serializable(t.elem.second)
       else Serializable(t.elem)
  }

  /**
   * isSerializable<const K>. std::is_arithmetic and the Collection and Map
   * concepts see through const, but the pair and tuple specialisations
   * (lines 165-167, 179-184) match only an unqualified std::pair or
   * std::tuple, and BuiltInSerializable asks Deserialize to return the
   * const-qualified type (line 38), which a custom type's does not.
   */
  predicate SerializableConst(t: Type)
    decreases t, 1
  {
    t.Arith? || SerializableCollection(t) || SerializableMap(t)
  }

  /** details::isSerializableMap (Serializable.h:193-198). */
  predicate SerializableMap(t: Type)
    decreases t, 0
  {
    IsMap(t) && Serializable(t.elem.first) && Serializable(t.elem.second)
  }

  /** A tuple is serializable exactly when every element type is. */
  lemma {:induction false} TupleSerializable(ts: seq<Type>)
    ensures SerializableElems(ts) <==> forall i :: 0 <= i < |ts| ==> Serializable(ts[i])
  {
    if ts != [] {
      TupleSerializable(ts[1..]);
      if forall i :: 0 <= i < |ts| ==> Serializable(ts[i]) {
        assert forall i :: 0 <= i < |ts| - 1 ==> Serializable(ts[1..][i]) by {
          forall i | 0 <= i < |ts| - 1 ensures Serializable(ts[1..][i]) {
            assert ts[1..][i] == ts[i + 1];
          }
        }
      }
    }
  }

  /** Whatever const does to other traits, it leaves a type no more serializable than before. */
  lemma ConstSerializable(t: Type)
    requires SerializableConst(t)
    ensures Serializable(t)
  {
  }

  /**
   * The types isSerializable admits, read off shape by shape: arithmetic and
   * custom types, pairs and tuples of admitted types, and collections (maps
   * included) of admitted elements.
   */
  predicate Admitted(t: Type)
    decreases t
  {
    match t
    case Arith(_) => true
    case Custom(_, _) => true
    case StdPair(a, b) => Admitted(a) && Admitted(b)
    case StdTuple(ts) => forall i :: 0 <= i < |ts| ==> Admitted(ts[i])
    case Coll(_, e) => IsCollection(t) && Admitted(e)
    case _ => false
  }

  /**
   * The disjunction of the six specialisations is exactly the shape-by-shape
   * definition: in particular a pair is serializable exactly when both
   * members are, a custom type always is, and a map exactly when its key and
   * mapped types are, whether or not the collection trait also holds.
   */
  lemma {:induction false} SerializableByShape(t: Type)
    ensures Serializable(t) <==> Admitted(t)
    decreases t
  {
    match t
    case StdPair(a, b) =>
      SerializableByShape(a);
      SerializableByShape(b);
    case StdTuple(ts) =>
      TupleSerializable(ts);
      forall i | 0 <= i < |ts| ensures Serializable(ts[i]) <==> Admitted(ts[i]) {
        SerializableByShape(ts[i]);
      }
    case Coll(_, e) =>
      SerializableByShape(e);
      if IsMap(t) {
        SerializableByShape(e.first);
        SerializableByShape(e.second);
        if SerializableConst(e.first) {
          ConstSerializable(e.first);
        }
      }
    case _ =>
  }

  /**
   * A serializable map satisfies the collection trait too exactly when its
   * key is not a pair, a tuple or a custom type: those are not serializable
   * once const-qualified inside value_type.
   */
  lemma MapCollectionByKey(t: Type)
    requires SerializableMap(t)
    ensures SerializableCollection(t) <==> !(t.elem.first.StdPair? || t.elem.first.StdTuple? || t.elem.first.Custom?)
  {
    var k := t.elem.first;
    assert SerializableCollection(t) <==> SerializableConst(k);
    if k.Coll? {
      assert !SerializableStdPair(k) && !SerializableStdTuple(k) && !BuiltInSerializable(k);
      assert SerializableConst(k);
    } else if !k.Arith? {
      assert !IsCollection(k);
      assert !SerializableConst(k);
      assert !SerializableCollection(k) && !SerializableMap(k);
      assert SerializableStdPair(k) || SerializableStdTuple(k) || BuiltInSerializable(k);
    }
  }

  /** std::map<std::pair<int, int>, int>: a serializable map, but not a serializable collection. */
  lemma PairKeyedMap()
    ensures var i32 := Arith(IntKind(4, true));
            var t := Coll(Container(true, true, true), StdPair(StdPair(i32, i32), i32));
            SerializableMap(t) && Serializable(t) && !SerializableCollection(t)
  {
  }

  // ---------------------------------------------------------------------------
  // include/bserializer/serializer.h: the shapes its dispatch branches accept

  predicate HasMonostate(alts: seq<Type>) {
    exists j :: 0 <= j < |alts| && alts[j] == Monostate
  }

  /** The index the monostate alternative has in a variant that declares one. */
  function MonostateIndex(alts: seq<Type>): (j: nat)
    requires HasMonostate(alts)
    ensures j < |alts| && alts[j] == Monostate
  {
    if alts[0] == Monostate then 0 else MonostateIndex(alts[1..]) + 1
  }

  /**
   * The types the dispatch of SerializedSize/Serialize/Deserialize accepts
   * (include/bserializer/serializer.h:404-680), the custom branch first. The
   * alternatives of a variant are counted by a size_t. Two alternatives may
   * share a descriptor (int and long of one width are both IntKind(4, true)).
   */
  predicate Supported(t: Type)
    decreases t, 1
  {
    match t
    case Custom(_, _) => true
    case Coll(_, e) => IsCollection(t) && Supported(e)
    case Arith(k) => ValidArith(k)
    case StdPair(a, b) => Supported(a) && Supported(b)
    case StdTuple(ts) => SupportedElems(ts)
    case StdComplex(k) => k.FloatKind? && ValidArith(k)
    case StdArray(e, _) => Supported(e)
    case StdOptional(p) => Supported(p)
    case StdVariant(alts) => 0 < |alts| < TwoTo64 && SupportedAlts(alts)
    case StdDuration(k) => ValidArith(k)
    case StdTimePoint(k) => ValidArith(k)
    case Monostate => false
    case Plain(_) => false
  }

  predicate SupportedElems(ts: seq<Type>)
    decreases ts
  {
    forall i :: 0 <= i < |ts| ==> Supported(ts[i])
  }

  predicate SupportedAlts(alts: seq<Type>)
    decreases alts
  {
    forall i :: 0 <= i < |alts| ==> alts[i] == Monostate || Supported(alts[i])
  }

  /**
   * Deserialize additionally needs a tuple deserializer, which exists only for
   * non-empty tuples (tupleDeserializer, lines 24-29).
   */
  predicate Decodable(t: Type)
    decreases t, 1
  {
    match t
    case Custom(_, _) => true
    case Coll(_, e) => IsCollection(t) && Decodable(e)
    case Arith(k) => ValidArith(k)
    case StdPair(a, b) => Decodable(a) && Decodable(b)
    case StdTuple(ts) => |ts| > 0 && DecodableElems(ts)
    case StdComplex(k) => k.FloatKind? && ValidArith(k)
    case StdArray(e, _) => Decodable(e)
    case StdOptional(p) => Decodable(p)
    case StdVariant(alts) => 0 < |alts| < TwoTo64 && DecodableAlts(alts)
    case StdDuration(k) => ValidArith(k)
    case StdTimePoint(k) => ValidArith(k)
    case Monostate => false
    case Plain(_) => false
  }

  predicate DecodableElems(ts: seq<Type>)
    decreases ts
  {
    forall i :: 0 <= i < |ts| ==> Decodable(ts[i])
  }

  predicate DecodableAlts(alts: seq<Type>)
    decreases alts
  {
    forall i :: 0 <= i < |alts| ==> alts[i] == Monostate || Decodable(alts[i])
  }

  /** Everything that can be deserialized can be sized and serialized. */
  lemma {:induction false} DecodableIsSupported(t: Type)
    requires Decodable(t)
    ensures Supported(t)
  {
    match t
    case Coll(_, e) => DecodableIsSupported(e);
    case StdPair(a, b) => DecodableIsSupported(a); DecodableIsSupported(b);
    case StdTuple(ts) =>
      forall i | 0 <= i < |ts| ensures Supported(ts[i]) { DecodableIsSupported(ts[i]); }
    case StdArray(e, _) => DecodableIsSupported(e);
    case StdOptional(p) => DecodableIsSupported(p);
    case StdVariant(alts) =>
      forall i | 0 <= i < |alts| && alts[i] != Monostate ensures Supported(alts[i]) {
        DecodableIsSupported(alts[i]);
      }
    case _ =>
  }

  /** Every type Serializable.h admits is handled by the newer dispatch. */
  lemma {:induction false} SerializableIsSupported(t: Type)
    requires Serializable(t) && ArithValidIn(t)
    ensures Supported(t)
    decreases t, 1
  {
    assert t.Arith? || SerializableStdPair(t) || SerializableStdTuple(t) || SerializableCollection(t)
      || SerializableMap(t) || BuiltInSerializable(t);
    if t.Custom? {
    } else if t.Arith? {
    } else if SerializableStdPair(t) {
      SerializableIsSupported(t.first);
      SerializableIsSupported(t.second);
    } else if SerializableStdTuple(t) {
      TupleSerializable(t.elems);
      forall i | 0 <= i < |t.elems| ensures Supported(t.elems[i]) {
        SerializableIsSupported(t.elems[i]);
      }
    } else if IsMap(t) {
      if SerializableCollection(t) {
        ConstSerializable(t.elem.first);
      }
      SerializableIsSupported(t.elem.first);
      SerializableIsSupported(t.elem.second);
    } else if SerializableCollection(t) {
      SerializableIsSupported(t.elem);
    }
  }

  /** Every arithmetic type occurring in t has a width the platform offers. */
  predicate ArithValidIn(t: Type)
    decreases t
  {
    match t
    case Arith(k) => ValidArith(k)
    case Coll(_, e) => ArithValidIn(e)
    case StdPair(a, b) => ArithValidIn(a) && ArithValidIn(b)
    case StdTuple(ts) => forall i :: 0 <= i < |ts| ==> ArithValidIn(ts[i])
    case StdComplex(k) => ValidArith(k)
    case StdArray(e, _) => ArithValidIn(e)
    case StdOptional(p) => ArithValidIn(p)
    case StdVariant(alts) => forall i :: 0 <= i < |alts| ==> ArithValidIn(alts[i])
    case StdDuration(k) => ValidArith(k)
    case StdTimePoint(k) => ValidArith(k)
    case _ => true
  }
}
