/**
 * Facts that tie SerializedSize, Serialize and Deserialize together beyond
 * the round trip: the size SerializedSize reports is the number of bytes
 * Serialize writes, and what Deserialize produces is a well-typed value that
 * Serialize accepts again.
 */
module CodecFacts {
  import opened Wrappers
  import opened Bytes
  import opened Shapes
  import opened BoolPack
  import opened Codec
  import opened CodecLaws

  // ---------------------------------------------------------------------------
  // SerializedSize against Serialize

  /** SerializedSize (lines 404-462) counts exactly the bytes Serialize (lines 464-555) writes. */
  lemma {:induction false} EncodeSize(cc: Customs, t: Type, v: Value)
    requires Lawful(cc) && Encodable(t, v)
    ensures |Encode(cc, t, v)| == Size(cc, t, v)
    decreases t, 1
  {
    if t.Coll? && t.elem == BoolType {
      BoolCollShape(cc, t, v);
    } else if t.Coll? {
      ItemCollShape(cc, t, v);
      SeqSize(cc, t.elem, v.elems);
    } else if t.StdPair? {
      PairShape(cc, t, v);
      EncodeSize(cc, t.first, v.first);
      EncodeSize(cc, t.second, v.second);
    } else if t.StdTuple? {
      TupleShape(cc, t, v);
      TupleSize(cc, t.elems, v.elems);
    } else if t.StdArray? {
      ArrayShape(cc, t, v);
      SeqSize(cc, t.elem, v.elems);
    } else if t.StdOptional? && v.Present? {
      SomeShape(cc, t, v);
      EncodeSize(cc, t.payload, v.payload);
    } else if t.StdVariant? && v.Alt? {
      AltShape(cc, t, v);
      EncodeSize(cc, t.alts[v.index], v.payload);
    } else {
      Pow256Of8();
    }
  }

  lemma {:induction false} SeqSize(cc: Customs, e: Type, xs: seq<Value>)
    requires Lawful(cc) && forall i :: 0 <= i < |xs| ==> Encodable(e, xs[i])
    ensures |EncodeSeq(cc, e, xs)| == SizeSeq(cc, e, xs)
    decreases e, |xs| + 2
  {
    if xs != [] {
      EncodeSize(cc, e, xs[0]);
      SeqSize(cc, e, xs[1..]);
    }
  }

  lemma {:induction false} TupleSize(cc: Customs, ts: seq<Type>, xs: seq<Value>)
    requires Lawful(cc) && |ts| == |xs| && forall i :: 0 <= i < |ts| ==> Encodable(ts[i], xs[i])
    ensures |EncodeTuple(cc, ts, xs)| == SizeTuple(cc, ts, xs)
    decreases ts
  {
    if ts != [] {
      EncodeSize(cc, ts[0], xs[0]);
      TupleSize(cc, ts[1..], xs[1..]);
    }
  }

  /** SerializedSize succeeds exactly on the values Serialize accepts, with the length of what it writes. */
  lemma SerializedSizeIsLength(cc: Customs, t: Type, v: Value)
    requires Lawful(cc) && Typed(t, v)
    ensures SerializedSize(cc, t, v).Ok? <==> Encodable(t, v)
    ensures Encodable(t, v) ==> SerializedSize(cc, t, v) == Ok(|Encode(cc, t, v)|)
  {
    if Encodable(t, v) {
      EncodeSize(cc, t, v);
    }
  }

  // ---------------------------------------------------------------------------
  // What Deserialize produces

  /** A value holding no valueless variant never makes SerializedSize or Serialize throw. */
  lemma {:induction false} SettledEncodable(t: Type, v: Value)
    requires Typed(t, v) && Settled(v)
    ensures Encodable(t, v)
    decreases t
  {
    match t
    case Coll(_, e) =>
      forall i | 0 <= i < |v.elems| ensures Encodable(e, v.elems[i]) {
        SettledEncodable(e, v.elems[i]);
      }
    case StdArray(e, _) =>
      forall i | 0 <= i < |v.elems| ensures Encodable(e, v.elems[i]) {
        SettledEncodable(e, v.elems[i]);
      }
    case StdPair(a, b) =>
      SettledEncodable(a, v.first);
      SettledEncodable(b, v.second);
    case StdTuple(ts) =>
      forall i | 0 <= i < |ts| ensures Encodable(ts[i], v.elems[i]) {
        SettledEncodable(ts[i], v.elems[i]);
      }
    case StdOptional(p) =>
      if v.Present? {
        SettledEncodable(p, v.payload);
      }
    case StdVariant(alts) =>
      SettledEncodable(alts[v.index], v.payload);
    case _ =>
  }

  /** v is a value of type t holding no valueless variant. */
  predicate Sound(t: Type, v: Value) {
    Typed(t, v) && Settled(v)
  }

  /** Deserialize only produces values of the type it reads, and never a valueless variant. */
  lemma {:induction false} DecodeTyped(cc: Customs, t: Type, bytes: seq<byte>, pos: nat)
    requires Decodable(t) && pos <= |bytes|
    ensures var r := Decode(cc, t, bytes, pos);
      r.Ok? ==> Sound(t, r.value.0)
    decreases t, 2
  {
    if t.Coll? && t.elem == BoolType {
      BoolsTyped(cc, t, bytes, pos);
    } else if t.Coll? {
      CollTyped(cc, t, bytes, pos);
    } else if t.StdPair? {
      PairTyped(cc, t, bytes, pos);
    } else if t.StdTuple? {
      TupleTyped(cc, t, bytes, pos);
    } else if t.StdArray? {
      ArrayTyped(cc, t, bytes, pos);
    } else if t.StdOptional? {
      OptionalTyped(cc, t, bytes, pos);
    } else if t.StdVariant? {
      VariantTyped(cc, t, bytes, pos);
    }
  }

  lemma BoolsTyped(cc: Customs, t: Type, bytes: seq<byte>, pos: nat)
    requires t.Coll? && t.elem == BoolType && Decodable(t) && pos <= |bytes|
    ensures var r := Decode(cc, t, bytes, pos);
      r.Ok? ==> Sound(t, r.value.0)
  {
    Pow256Of8();
    if pos + 8 <= |bytes| {
      var n := FromLE(bytes[pos..pos + 8]);
      if pos + 8 + PackedBytes(n) <= |bytes| {
        var xs := BoolValues(Unpack(bytes[pos + 8..], n));
        assert forall i :: 0 <= i < |xs| ==> Typed(BoolType, xs[i]) && Settled(xs[i]);
        DecodeBoolsStep(cc, t, bytes, pos, xs, pos + 8 + PackedBytes(n));
      }
    }
  }

  lemma {:induction false} CollTyped(cc: Customs, t: Type, bytes: seq<byte>, pos: nat)
    requires t.Coll? && t.elem != BoolType && Decodable(t) && pos <= |bytes|
    ensures var r := Decode(cc, t, bytes, pos);
      r.Ok? ==> Sound(t, r.value.0)
    decreases t, 1
  {
    Pow256Of8();
    if pos + 8 <= |bytes| {
      var n := FromLE(bytes[pos..pos + 8]);
      ItemsTyped(cc, t.elem, bytes, pos + 8, n, []);
      var r := DecodeItems(cc, t.elem, bytes, pos + 8, n, []);
      if r.Ok? {
        DecodeCollStep(cc, t, bytes, pos, n, r.value);
      }
    }
  }

  lemma {:induction false} PairTyped(cc: Customs, t: Type, bytes: seq<byte>, pos: nat)
    requires t.StdPair? && Decodable(t) && pos <= |bytes|
    ensures var r := Decode(cc, t, bytes, pos);
      r.Ok? ==> Sound(t, r.value.0)
    decreases t, 1
  {
    var x := Decode(cc, t.first, bytes, pos);
    if x.Ok? {
      DecodeTyped(cc, t.first, bytes, pos);
      var y := Decode(cc, t.second, bytes, x.value.1);
      if y.Ok? {
        DecodeTyped(cc, t.second, bytes, x.value.1);
        DecodePairStep(cc, t, bytes, pos, x.value, y.value);
      }
    }
  }

  lemma {:induction false} TupleTyped(cc: Customs, t: Type, bytes: seq<byte>, pos: nat)
    requires t.StdTuple? && Decodable(t) && pos <= |bytes|
    ensures var r := Decode(cc, t, bytes, pos);
      r.Ok? ==> Sound(t, r.value.0)
    decreases t, 1
  {
    ElemsTyped(cc, t.elems, bytes, pos);
    var r := DecodeTuple(cc, t.elems, bytes, pos);
    if r.Ok? {
      DecodeTupleStep(cc, t, bytes, pos, r.value);
    }
  }

  lemma {:induction false} ArrayTyped(cc: Customs, t: Type, bytes: seq<byte>, pos: nat)
    requires t.StdArray? && Decodable(t) && pos <= |bytes|
    ensures var r := Decode(cc, t, bytes, pos);
      r.Ok? ==> Sound(t, r.value.0)
    decreases t, 1
  {
    ItemsTyped(cc, t.elem, bytes, pos, t.length, []);
    var r := DecodeItems(cc, t.elem, bytes, pos, t.length, []);
    if r.Ok? {
      DecodeArrayStep(cc, t, bytes, pos, r.value);
    }
  }

  lemma {:induction false} OptionalTyped(cc: Customs, t: Type, bytes: seq<byte>, pos: nat)
    requires t.StdOptional? && Decodable(t) && pos <= |bytes|
    ensures var r := Decode(cc, t, bytes, pos);
      r.Ok? ==> Sound(t, r.value.0)
    decreases t, 1
  {
    var flag := DecodeArith(BoolKind, bytes, pos);
    if flag.Ok? && flag.value.0 == Num(1) {
      var x := Decode(cc, t.payload, bytes, pos + 1);
      if x.Ok? {
        DecodeTyped(cc, t.payload, bytes, pos + 1);
        DecodeSomeStep(cc, t, bytes, pos, x.value);
      }
    } else if flag.Ok? {
      assert flag.value.0 == Num(0);
      DecodeNoneStep(cc, t, bytes, pos, flag.value.1);
    }
  }

  lemma {:induction false} VariantTyped(cc: Customs, t: Type, bytes: seq<byte>, pos: nat)
    requires t.StdVariant? && Decodable(t) && pos <= |bytes|
    ensures var r := Decode(cc, t, bytes, pos);
      r.Ok? ==> Sound(t, r.value.0)
    decreases t, 1
  {
    if pos + 8 <= |bytes| {
      var alts, j := t.alts, FromLE(bytes[pos..pos + 8]);
      if j < |alts| && alts[j] == Monostate {
        UnitAltTyped(cc, t, bytes, pos, j);
      } else if j < |alts| {
        AltTyped(cc, t, bytes, pos, j);
      } else if HasMonostate(alts) {
        ValuelessTyped(cc, t, bytes, pos);
      } else {
        VariantFails(cc, t, bytes, pos);
      }
    } else {
      VariantFails(cc, t, bytes, pos);
    }
  }

  lemma UnitAltTyped(cc: Customs, t: Type, bytes: seq<byte>, pos: nat, j: nat)
    requires t.StdVariant? && Decodable(t) && pos + 8 <= |bytes|
    requires FromLE(bytes[pos..pos + 8]) == j && j < |t.alts| && t.alts[j] == Monostate
    ensures var r := Decode(cc, t, bytes, pos);
      r.Ok? ==> Sound(t, r.value.0)
  {
    DecodeUnitAltStep(cc, t, bytes, pos, j);
    assert Typed(t, Alt(j, Unit)) && Settled(Alt(j, Unit));
  }

  lemma ValuelessTyped(cc: Customs, t: Type, bytes: seq<byte>, pos: nat)
    requires t.StdVariant? && Decodable(t) && pos + 8 <= |bytes|
    requires FromLE(bytes[pos..pos + 8]) >= |t.alts| && HasMonostate(t.alts)
    ensures var r := Decode(cc, t, bytes, pos);
      r.Ok? ==> Sound(t, r.value.0)
  {
    DecodeValuelessStep(cc, t, bytes, pos);
    var j := MonostateIndex(t.alts);
    assert Typed(t, Alt(j, Unit)) && Settled(Alt(j, Unit));
  }

  /** A variant whose index is cut short, or names no alternative when there is no monostate, is not read. */
  lemma VariantFails(cc: Customs, t: Type, bytes: seq<byte>, pos: nat)
    requires t.StdVariant? && Decodable(t) && pos <= |bytes|
    requires pos + 8 <= |bytes| ==> FromLE(bytes[pos..pos + 8]) >= |t.alts| && !HasMonostate(t.alts)
    ensures Decode(cc, t, bytes, pos).Err?
  {
  }

  lemma {:induction false} AltTyped(cc: Customs, t: Type, bytes: seq<byte>, pos: nat, j: nat)
    requires t.StdVariant? && Decodable(t) && pos + 8 <= |bytes|
    requires FromLE(bytes[pos..pos + 8]) == j && j < |t.alts| && t.alts[j] != Monostate
    ensures var r := Decode(cc, t, bytes, pos);
      r.Ok? ==> Sound(t, r.value.0)
    decreases t, 0
  {
    assert Decodable(t.alts[j]);
    var x := Decode(cc, t.alts[j], bytes, pos + 8);
    if x.Ok? {
      DecodeTyped(cc, t.alts[j], bytes, pos + 8);
      DecodeAltStep(cc, t, bytes, pos, j, x.value);
    }
  }

  /** The element loop only appends values of the element type. */
  lemma {:induction false} ItemsTyped(cc: Customs, e: Type, bytes: seq<byte>, pos: nat, n: nat, acc: seq<Value>)
    requires Decodable(e) && pos <= |bytes|
    requires forall i :: 0 <= i < |acc| ==> Typed(e, acc[i]) && Settled(acc[i])
    ensures var r := DecodeItems(cc, e, bytes, pos, n, acc);
      r.Ok? ==> forall i :: 0 <= i < |r.value.0| ==> Typed(e, r.value.0[i]) && Settled(r.value.0[i])
    decreases e, n + 2
  {
    if n > 0 {
      var x := Decode(cc, e, bytes, pos);
      if x.Ok? {
        DecodeTyped(cc, e, bytes, pos);
        var more := acc + [x.value.0];
        assert forall i :: 0 <= i < |more| ==> Typed(e, more[i]) && Settled(more[i]);
        ItemsTyped(cc, e, bytes, x.value.1, n - 1, more);
        DecodeItemsStep(cc, e, bytes, pos, n, acc, x.value);
      }
    }
  }

  /** The tuple deserializer reads each element at its declared type. */
  lemma {:induction false} ElemsTyped(cc: Customs, ts: seq<Type>, bytes: seq<byte>, pos: nat)
    requires DecodableElems(ts) && pos <= |bytes|
    ensures var r := DecodeTuple(cc, ts, bytes, pos);
      r.Ok? ==> forall i :: 0 <= i < |ts| ==> Typed(ts[i], r.value.0[i]) && Settled(r.value.0[i])
    decreases ts, 0
  {
    if ts != [] {
      var x := Decode(cc, ts[0], bytes, pos);
      DecodeTyped(cc, ts[0], bytes, pos);
      if x.Ok? {
        ElemsTyped(cc, ts[1..], bytes, x.value.1);
        var rest := DecodeTuple(cc, ts[1..], bytes, x.value.1);
        if rest.Ok? {
          var ys := [x.value.0] + rest.value.0;
          forall i | 0 <= i < |ts| ensures Typed(ts[i], ys[i]) && Settled(ys[i]) {
            if i > 0 {
              assert ts[i] == ts[1..][i - 1] && ys[i] == rest.value.0[i - 1];
            }
          }
        }
      }
    }
  }

  // ---------------------------------------------------------------------------
  // Round trips without canonicalisation

  /** A value without valueless variants comes back unchanged. */
  lemma RoundTripSettled(cc: Customs, t: Type, v: Value)
    requires Lawful(cc) && Decodable(t) && Typed(t, v) && Settled(v)
    ensures Encodable(t, v)
    ensures Decode(cc, t, Encode(cc, t, v), 0) == Ok((v, |Encode(cc, t, v)|))
  {
    SettledEncodable(t, v);
    var enc := Encode(cc, t, v);
    assert enc[0..|enc|] == enc;
    RoundTrip(cc, t, v, enc, 0, |enc|);
    CanonOfSettled(t, v);
  }

  /**
   * Whatever Deserialize produces, Serialize accepts, and the bytes it writes
   * deserialize to that same value.
   */
  lemma Redecode(cc: Customs, t: Type, bytes: seq<byte>, pos: nat)
    requires Lawful(cc) && Decodable(t) && pos <= |bytes|
    requires Decode(cc, t, bytes, pos).Ok?
    ensures var v := Decode(cc, t, bytes, pos).value.0;
      Encodable(t, v) && Decode(cc, t, Encode(cc, t, v), 0) == Ok((v, |Encode(cc, t, v)|))
  {
    DecodeTyped(cc, t, bytes, pos);
    RoundTripSettled(cc, t, Decode(cc, t, bytes, pos).value.0);
  }
}
