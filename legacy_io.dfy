/**
 * SerializedSize, Serialize and Deserialize of the older Serializer.h
 * (lines 179-292) as methods: the size loop adds up the elements, the writer
 * reserves an iterable's 8-byte count slot, writes the elements after it and
 * then patches the slot with the number it wrote, and the reader inserts each
 * element into a local container. Each is proved to compute exactly what
 * SizeOf, Written and Read say.
 */
module LegacyIO {
  import opened Wrappers
  import opened Bytes
  import opened Endian
  import opened Codec
  import opened Legacy
  import Writer
  import Reader

  // ---------------------------------------------------------------------------
  // SerializedSize

  /** The sizes of the elements before k, added to 8, with those of the rest make the whole. */
  ghost predicate Summed(cc: Customs, e: LegacyType, xs: seq<Value>, k: nat, total: nat) {
    && k <= |xs| && (forall i :: 0 <= i < |xs| ==> Fits(e, xs[i]))
    && (forall i :: 0 <= i < |xs[k..]| ==> Fits(e, xs[k..][i]))
    && total + SizeOfSeq(cc, e, xs[k..]) == 8 + SizeOfSeq(cc, e, xs)
  }

  /** SerializedSize(Value) (lines 179-207): for an iterable, t starts at sizeof(size_t) and each element's size is added. */
  method SerializedSize(cc: Customs, t: LegacyType, v: Value) returns (n: nat)
    requires Fits(t, v)
    ensures n == SizeOf(cc, t, v)
    decreases t, 2
  {
    match t
    case Integral(w) =>
      n := w;
    case Floating(w) =>
      n := w;
    case Iterable(e, _) =>
      var xs := v.elems;
      var total := 8;
      var k := 0;
      assert xs[0..] == xs;
      while k < |xs|
        invariant Summed(cc, e, xs, k, total)
      {
        assert xs[k..][1..] == xs[k + 1..];
        var s := SerializedSize(cc, e, xs[k]);
        total := total + s;
        k := k + 1;
      }
      n := total;
    case PairOf(a, b) =>
      var x := SerializedSize(cc, a, v.first);
      var y := SerializedSize(cc, b, v.second);
      n := x + y;
    case TupleOf(ts) =>
      n := SizeOfElems(cc, ts, v.elems);
    case BuiltIn(id) =>
      n := cc.size(id, v.state);
  }

  /** The fold over a tuple's elements (lines 199-204). */
  method SizeOfElems(cc: Customs, ts: seq<LegacyType>, xs: seq<Value>) returns (n: nat)
    requires |ts| == |xs| && forall i :: 0 <= i < |ts| ==> Fits(ts[i], xs[i])
    ensures n == SizeOfTuple(cc, ts, xs)
    decreases ts
  {
    if ts == [] {
      return 0;
    }
    var x := SerializedSize(cc, ts[0], xs[0]);
    var rest := SizeOfElems(cc, ts[1..], xs[1..]);
    n := x + rest;
  }

  // ---------------------------------------------------------------------------
  // Serialize

  /** Serialize(Data, Value) (lines 209-243): Written(t, v) at the cursor, which moves past it. */
  method Serialize(cc: Customs, host: Endian, t: LegacyType, v: Value, data: array<byte>, pos: nat) returns (next: nat)
    requires Fits(t, v) && pos + |Written(cc, host, t, v)| <= data.Length
    modifies data
    ensures next == pos + |Written(cc, host, t, v)| && data[..] == Splice(old(data[..]), pos, Written(cc, host, t, v))
    decreases t, 2
  {
    match t
    case Integral(w) =>
      next := Writer.WriteArith(host, v.bits, w, data, pos);
    case Floating(w) =>
      next := Writer.SerializeRaw(data, pos, HostBytes(host, v.bits, w));
    case Iterable(_, _) =>
      next := SerializeIterable(cc, host, t, v, data, pos);
    case PairOf(a, b) =>
      var wa, wb := Written(cc, host, a, v.first), Written(cc, host, b, v.second);
      assert Written(cc, host, t, v) == wa + wb;
      var mid := Serialize(cc, host, a, v.first, data, pos);
      next := Serialize(cc, host, b, v.second, data, mid);
      SpliceThen(old(data[..]), pos, wa, wb);
    case TupleOf(ts) =>
      next := SerializeElems(cc, host, ts, v.elems, data, pos);
    case BuiltIn(id) =>
      next := Writer.SerializeRaw(data, pos, cc.write(id, v.state));
  }

  /** The elements before k wrote written: with the bytes of the rest it makes the whole. */
  ghost predicate Pending(cc: Customs, host: Endian, e: LegacyType, xs: seq<Value>, k: nat, written: seq<byte>) {
    && k <= |xs| && (forall i :: 0 <= i < |xs| ==> Fits(e, xs[i]))
    && (forall i :: 0 <= i < |xs[k..]| ==> Fits(e, xs[k..][i]))
    && written + WrittenSeq(cc, host, e, xs[k..]) == WrittenSeq(cc, host, e, xs)
  }

  /** Element k's bytes move from the rest to what is written. */
  lemma PendingStep(cc: Customs, host: Endian, e: LegacyType, xs: seq<Value>, k: nat, written: seq<byte>)
    requires Pending(cc, host, e, xs, k, written) && k < |xs|
    ensures Fits(e, xs[k])
    ensures Pending(cc, host, e, xs, k + 1, written + Written(cc, host, e, xs[k]))
  {
    assert xs[k..][1..] == xs[k + 1..];
  }

  /**
   * The iterable branch (lines 214-222): the count slot at pos is skipped,
   * the elements are written after it, and then the slot is patched with the
   * number of elements written, little-endian.
   */
  method SerializeIterable(cc: Customs, host: Endian, t: LegacyType, v: Value, data: array<byte>, pos: nat) returns (next: nat)
    requires t.Iterable? && Fits(t, v) && pos + |Written(cc, host, t, v)| <= data.Length
    modifies data
    ensures next == pos + |Written(cc, host, t, v)| && data[..] == Splice(old(data[..]), pos, Written(cc, host, t, v))
    decreases t, 1
  {
    var e, xs := t.elem, v.elems;
    assert Written(cc, host, t, v) == LE(|xs|, 8) + WrittenSeq(cc, host, e, xs);
    ghost var orig := data[..];
    var lenLoc := pos;
    var len;
    next, len := SerializeElements(cc, host, e, xs, data, lenLoc + 8);
    Pow256Of8();
    var _ := Writer.WriteArith(host, len, 8, data, lenLoc);
    SpliceBefore(orig, pos, LE(len, 8), WrittenSeq(cc, host, e, xs));
  }

  /** The element loop (lines 218-221): each element written at the cursor while len counts them. */
  method SerializeElements(cc: Customs, host: Endian, e: LegacyType, xs: seq<Value>, data: array<byte>, start: nat)
    returns (next: nat, len: nat)
    requires (forall i :: 0 <= i < |xs| ==> Fits(e, xs[i])) && start + |WrittenSeq(cc, host, e, xs)| <= data.Length
    modifies data
    ensures len == |xs| && next == start + |WrittenSeq(cc, host, e, xs)|
    ensures data[..] == Splice(old(data[..]), start, WrittenSeq(cc, host, e, xs))
    decreases e, 4
  {
    ghost var orig := data[..];
    next := start;
    len := 0;
    ghost var written := [];
    SpliceEmpty(orig, next);
    assert xs[0..] == xs;
    while len < |xs|
      invariant Pending(cc, host, e, xs, len, written)
      invariant next == start + |written| && data[..] == Splice(orig, start, written)
    {
      next, written := IterableOne(cc, host, e, xs, len, data, orig, start, written, next);
      len := len + 1;
    }
    assert xs[len..] == [];
  }

  /** One element of the iterable loop: its bytes at the cursor, after those of the elements before it. */
  method IterableOne(cc: Customs, host: Endian, e: LegacyType, xs: seq<Value>, k: nat, data: array<byte>,
                     ghost orig: seq<byte>, start: nat, ghost written: seq<byte>, next: nat)
    returns (next': nat, ghost written': seq<byte>)
    requires k < |xs| && Pending(cc, host, e, xs, k, written)
    requires |orig| == data.Length && start + |WrittenSeq(cc, host, e, xs)| <= data.Length
    requires next == start + |written| && data[..] == Splice(orig, start, written)
    modifies data
    ensures Pending(cc, host, e, xs, k + 1, written')
    ensures next' == start + |written'| && data[..] == Splice(orig, start, written')
    decreases e, 3
  {
    PendingStep(cc, host, e, xs, k, written);
    written' := written + Written(cc, host, e, xs[k]);
    next' := Serialize(cc, host, e, xs[k], data, next);
    SpliceThen(orig, start, written, Written(cc, host, e, xs[k]));
  }

  /** The comma fold over a tuple's elements (lines 237-240): each element in declared order. */
  method SerializeElems(cc: Customs, host: Endian, ts: seq<LegacyType>, xs: seq<Value>, data: array<byte>, pos: nat)
    returns (next: nat)
    requires |ts| == |xs| && (forall i :: 0 <= i < |ts| ==> Fits(ts[i], xs[i]))
    requires pos + |WrittenTuple(cc, host, ts, xs)| <= data.Length
    modifies data
    ensures next == pos + |WrittenTuple(cc, host, ts, xs)|
    ensures data[..] == Splice(old(data[..]), pos, WrittenTuple(cc, host, ts, xs))
    decreases ts
  {
    if ts == [] {
      SpliceEmpty(data[..], pos);
      return pos;
    }
    var mid := Serialize(cc, host, ts[0], xs[0], data, pos);
    next := SerializeElems(cc, host, ts[1..], xs[1..], data, mid);
    SpliceThen(old(data[..]), pos, Written(cc, host, ts[0], xs[0]), WrittenTuple(cc, host, ts[1..], xs[1..]));
  }

  // ---------------------------------------------------------------------------
  // Deserialize

  /** Deserialize<T>(Data) (lines 245-292): the value at pos and the cursor after it, or the error Read names. */
  method Deserialize(cc: Customs, host: Endian, t: LegacyType, data: seq<byte>, pos: nat) returns (r: Result<(Value, nat)>)
    requires Readable(t) && pos <= |data|
    ensures r == Read(cc, host, t, data, pos)
    decreases t, 2
  {
    match t
    case Integral(w) =>
      var x := Reader.ReadNatAt(host, data, pos, w);
      if x.Err? {
        return Err(x.error);
      }
      r := Ok((Num(x.value.0), x.value.1));
    case Floating(w) =>
      r := ReadFloating(host, w, data, pos);
    case Iterable(_, _) =>
      r := DeserializeIterable(cc, host, t, data, pos);
    case PairOf(a, b) =>
      var x := Deserialize(cc, host, a, data, pos);
      if x.Err? {
        return Err(x.error);
      }
      var y := Deserialize(cc, host, b, data, x.value.1);
      if y.Err? {
        return Err(y.error);
      }
      r := Ok((Both(x.value.0, y.value.0), y.value.1));
    case TupleOf(ts) =>
      var xs := DeserializeTuple(cc, host, ts, data, pos);
      if xs.Err? {
        return Err(xs.error);
      }
      r := Ok((Tuple(xs.value.0), xs.value.1));
    case BuiltIn(id) =>
      r := DecodeCustom(cc, id, data, pos);
  }

  /** The floating-point branch (lines 274-279): the w bytes at the cursor copied into the value as they are. */
  method ReadFloating(host: Endian, w: nat, data: seq<byte>, pos: nat) returns (r: Result<(Value, nat)>)
    requires pos <= |data|
    ensures pos + w <= |data| ==> r == Ok((Num(HostValue(host, data[pos..pos + w])), pos + w))
    ensures pos + w > |data| ==> r == Err(Truncated)
  {
    if pos + w > |data| {
      return Err(Truncated);
    }
    var mem := new byte[w];
    ghost var blank := mem[..];
    var next := Reader.DeserializeRaw(data, pos, mem, 0, w);
    SpliceAll(blank, data[pos..next]);
    r := Ok((Num(HostValue(host, mem[..])), next));
  }

  /**
   * The iterable branch (lines 250-267): the count, then that many elements,
   * each inserted into the local container as it is read.
   */
  method DeserializeIterable(cc: Customs, host: Endian, t: LegacyType, data: seq<byte>, pos: nat) returns (r: Result<(Value, nat)>)
    requires t.Iterable? && Readable(t) && pos <= |data|
    ensures r == Read(cc, host, t, data, pos)
    decreases t, 1
  {
    var n := Reader.ReadNatAt(host, data, pos, 8);
    if n.Err? {
      return Err(n.error);
    }
    var len := n.value.0;
    var collection: seq<Value> := [];
    var p: nat := n.value.1;
    var i := 0;
    while i < len
      invariant i <= len && p <= |data|
      invariant ReadItems(cc, host, t.elem, t.keyed, data, n.value.1, len, [])
             == ReadItems(cc, host, t.elem, t.keyed, data, p, len - i, collection)
    {
      var x := Deserialize(cc, host, t.elem, data, p);
      if x.Err? {
        return Err(x.error);
      }
      collection := Insert(t.keyed, collection, x.value.0);
      p := x.value.1;
      i := i + 1;
    }
    r := Ok((Items(collection), p));
  }

  /** tupleDeserializer (lines 168-177): the first element, then the others. */
  method DeserializeTuple(cc: Customs, host: Endian, ts: seq<LegacyType>, data: seq<byte>, pos: nat)
    returns (r: Result<(seq<Value>, nat)>)
    requires |ts| > 0 && (forall i :: 0 <= i < |ts| ==> Readable(ts[i])) && pos <= |data|
    ensures r == ReadTuple(cc, host, ts, data, pos)
    decreases ts
  {
    var x := Deserialize(cc, host, ts[0], data, pos);
    if x.Err? {
      return Err(x.error);
    }
    if |ts| == 1 {
      return Ok(([x.value.0], x.value.1));
    }
    var rest := DeserializeTuple(cc, host, ts[1..], data, x.value.1);
    if rest.Err? {
      return Err(rest.error);
    }
    r := Ok(([x.value.0] + rest.value.0, rest.value.1));
  }
}
