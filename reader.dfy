/**
 * Deserialize (include/bserializer/serializer.h:557-687) and the array and raw
 * readers (lines 719-727, 772-775) as methods that read a buffer from a
 * cursor. The buffer is only ever read (a const void*), so it is a sequence;
 * the storage the values are read into are arrays. Each method is proved to
 * compute exactly what Decode says: the value, the advanced cursor, or the
 * error.
 */
module Reader {
  import opened Wrappers
  import opened Bytes
  import opened Endian
  import opened Shapes
  import opened BoolPack
  import opened Codec

  /** DeserializeRaw(Data, Lower, Length) (lines 772-775): memcpy out of the buffer, then the cursor moves past the copy. */
  method DeserializeRaw(data: seq<byte>, pos: nat, dst: array<byte>, lo: nat, len: nat) returns (next: nat)
    requires pos + len <= |data| && lo + len <= dst.Length
    modifies dst
    ensures next == pos + len && dst[..] == Splice(old(dst[..]), lo, data[pos..pos + len])
  {
    var src := data[pos..pos + len];
    var k := 0;
    while k < len
      invariant k <= len && dst[..] == Splice(old(dst[..]), lo, src[..k])
    {
      SpliceSnoc(old(dst[..]), lo, src[..k], src[k]);
      assert src[..k] + [src[k]] == src[..k + 1];
      dst[lo + k] := src[k];
      k := k + 1;
    }
    assert src[..k] == src;
    next := pos + len;
  }

  /**
   * The arithmetic branch (lines 609-611): the w bytes at the cursor read as a
   * host object and normalised by ToFromLittleEndian, which on either host is
   * the little-endian number they spell. The source does not check that the
   * bytes are there.
   */
  method LoadNat(host: Endian, data: seq<byte>, pos: nat, w: nat) returns (x: nat, next: nat)
    requires pos + w <= |data|
    ensures x == FromLE(data[pos..pos + w]) && next == pos + w
  {
    var mem := new byte[w];
    ghost var blank := mem[..];
    next := DeserializeRaw(data, pos, mem, 0, w);
    SpliceAll(blank, data[pos..next]);
    ReadBackIsLittleEndian(host, mem[..]);
    x := HostValue(host, ToFromLittleEndian(host, mem[..]));
  }

  /** ReadNat with the bounds check the model adds. */
  method ReadNatAt(host: Endian, data: seq<byte>, pos: nat, w: nat) returns (r: Result<(nat, nat)>)
    ensures r == ReadNat(data, pos, w)
  {
    if pos + w > |data| {
      return Err(Truncated);
    }
    var x, next := LoadNat(host, data, pos, w);
    r := Ok((x, next));
  }

  /** Deserialize<T> of an arithmetic type: a bool is true when its byte is not zero. */
  method ReadArith(host: Endian, k: ArithKind, data: seq<byte>, pos: nat) returns (r: Result<(Value, nat)>)
    ensures r == DecodeArith(k, data, pos)
  {
    var x := ReadNatAt(host, data, pos, Width(k));
    if x.Err? {
      return Err(x.error);
    }
    var bits := if k == BoolKind then (if x.value.0 != 0 then 1 else 0) else x.value.0;
    r := Ok((Num(bits), x.value.1));
  }

  // ---------------------------------------------------------------------------
  // The bool unpacker

  /** Element j of a packing at pos: bit j % 8 of byte j / 8 (false past the end of the input). */
  function PackedBit(data: seq<byte>, pos: nat, j: nat): bool
  {
    if pos + j / 8 < |data| then BitOf(data[pos + j / 8] as nat, j % 8) else false
  }

  /** Bit k of a word read little-endian from the bytes of the group starting at element lo is element lo + k. */
  lemma WordElement(data: seq<byte>, pos: nat, lo: nat, p: nat, b: nat, c: nat)
    requires lo % 8 == 0 && lo <= p && pos + lo / 8 <= b <= |data| && p - lo < 8 * (b - (pos + lo / 8))
    requires c == FromLE(data[pos + lo / 8..b])
    ensures (BitAnd(c, Pow2(p - lo)) != 0) == PackedBit(data, pos, p)
  {
    var w, k := data[pos + lo / 8..b], p - lo;
    AndTestsBit(c, k);
    BitOfLE(w, k);
    assert k / 8 == p / 8 - lo / 8 && k % 8 == p % 8;
  }

  /**
   * The full-word loop's state after element p (of fb): with m zero, p ends a
   * group and the cursor is at its end; otherwise c holds the word of the
   * group starting at lo, read from the eight bytes before the cursor, and m
   * is the bit of element p.
   */
  ghost predicate Groups(data: seq<byte>, pos: nat, fb: nat, p: nat, lo: nat, m: nat, c: nat, next: nat) {
    && p <= fb && fb % 64 == 0 && lo % 64 == 0 && lo <= p && pos + fb / 8 <= |data|
    && (m == 0 ==> p % 64 == 0 && next == pos + p / 8)
    && (m != 0 ==> lo < p < lo + 64 && m == Pow2(p - lo) && next == pos + lo / 8 + 8 <= |data|
                   && c == FromLE(data[pos + lo / 8..next]))
  }

  /** Element p is in the group at lo whose word c was read from the eight bytes before the cursor, under mask m. */
  ghost predicate Loaded(data: seq<byte>, pos: nat, fb: nat, p: nat, lo: nat, m: nat, c: nat, next: nat) {
    && p < fb && fb % 64 == 0 && lo % 64 == 0 && lo <= p < lo + 64 && m == Pow2(p - lo) && pos + fb / 8 <= |data|
    && next == pos + lo / 8 + 8 <= |data| && c == FromLE(data[pos + lo / 8..next])
  }

  /** if (m == 0): read the next group's word and start its mask at bit 0. */
  method Reload(host: Endian, data: seq<byte>, pos: nat, fb: nat, p: nat, ghost lo: nat, m: nat, c: nat, next: nat)
    returns (ghost lo': nat, m': nat, c': nat, next': nat)
    requires p < fb && Groups(data, pos, fb, p, lo, m, c, next)
    ensures Loaded(data, pos, fb, p, lo', m', c', next')
  {
    lo', m', c', next' := lo, m, c, next;
    if m == 0 {
      assert p + 64 <= fb by { GroupsAligned(p, fb); }
      m' := 1;
      c', next' := LoadNat(host, data, next, 8);
      lo' := p;
    }
  }

  /** In a loaded state, testing c under m yields element p. */
  lemma LoadedElement(data: seq<byte>, pos: nat, fb: nat, p: nat, lo: nat, m: nat, c: nat, next: nat)
    requires Loaded(data, pos, fb, p, lo, m, c, next)
    ensures (BitAnd(c, m) != 0) == PackedBit(data, pos, p)
  {
    EightDividesGroup(lo);
    assert next - (pos + lo / 8) == 8 && p - lo < 8 * 8;
    WordElement(data, pos, lo, p, next, c);
  }

  /** A group start, a multiple of 64, is a byte boundary. */
  lemma EightDividesGroup(lo: nat)
    requires lo % 64 == 0
    ensures lo % 8 == 0
  {
    var a := lo / 64;
    assert lo == 64 * a;
    assert lo / 8 == 8 * a;
  }

  /** m <<= 1 moves to element p + 1, closing the group when the mask runs out. */
  lemma Advance(data: seq<byte>, pos: nat, fb: nat, p: nat, lo: nat, m: nat, c: nat, next: nat)
    requires Loaded(data, pos, fb, p, lo, m, c, next)
    ensures Groups(data, pos, fb, p + 1, lo, (2 * m) % TwoTo64, c, next)
  {
    ShiftMask(p - lo);
    if p + 1 == lo + 64 {
      GroupStart(lo);
    }
  }

  /** One element of the full-word loop: reload the word when m has run out, then test element p under m. */
  method ReadOne(host: Endian, data: seq<byte>, pos: nat, arr: array<bool>, fb: nat, p: nat,
                 ghost lo: nat, m: nat, c: nat, next: nat)
    returns (ghost lo': nat, m': nat, c': nat, next': nat)
    requires p < fb <= arr.Length && Groups(data, pos, fb, p, lo, m, c, next)
    requires forall j :: 0 <= j < p ==> arr[j] == PackedBit(data, pos, j)
    modifies arr
    ensures Groups(data, pos, fb, p + 1, lo', m', c', next')
    ensures forall j :: 0 <= j <= p ==> arr[j] == PackedBit(data, pos, j)
  {
    lo', m', c', next' := Reload(host, data, pos, fb, p, lo, m, c, next);
    LoadedElement(data, pos, fb, p, lo', m', c', next');
    Store(data, pos, arr, 0, p, BitAnd(c', m') != 0);
    Advance(data, pos, fb, p, lo', m', c', next');
    m' := (2 * m') % TwoTo64;
  }

  /** Two different multiples of 64 are at least 64 apart. */
  lemma GroupsAligned(p: nat, fb: nat)
    requires p % 64 == 0 && fb % 64 == 0 && p < fb
    ensures p + 64 <= fb
  {
    var a, b := p / 64, fb / 64;
    assert p == 64 * a && fb == 64 * b;
    assert a < b;
  }

  /** The next group starts at a multiple of 64, eight bytes further. */
  lemma GroupStart(lo: nat)
    requires lo % 64 == 0
    ensures (lo + 64) % 64 == 0 && (lo + 64) / 8 == lo / 8 + 8
  {
    var a := lo / 64;
    assert lo == 64 * a && lo + 64 == 64 * (a + 1);
    assert lo == 8 * (8 * a) && lo + 64 == 8 * (8 * a + 8);
  }

  /** At the end of the full groups no group is open. */
  lemma GroupsEnd(data: seq<byte>, pos: nat, fb: nat, lo: nat, m: nat, c: nat, next: nat)
    requires Groups(data, pos, fb, fb, lo, m, c, next)
    ensures next == pos + fb / 8
  {
    if m != 0 {
      GroupsAligned(lo, fb);
      assert false;
    }
  }

  /** Lines 585-592: the elements of the full groups, each group's word read as a uint64 when m runs out. */
  method ReadGroups(host: Endian, data: seq<byte>, pos: nat, arr: array<bool>, fb: nat) returns (next: nat)
    requires fb % 64 == 0 && fb <= arr.Length && pos + fb / 8 <= |data|
    modifies arr
    ensures next == pos + fb / 8
    ensures forall j :: 0 <= j < fb ==> arr[j] == PackedBit(data, pos, j)
  {
    var m: nat, c: nat := 0, 0;
    ghost var lo: nat := 0;
    next := pos;
    var p := 0;
    while p < fb
      invariant p <= fb && Groups(data, pos, fb, p, lo, m, c, next)
      invariant forall j :: 0 <= j < p ==> arr[j] == PackedBit(data, pos, j)
    {
      lo, m, c, next := ReadOne(host, data, pos, arr, fb, p, lo, m, c, next);
      p := p + 1;
    }
    GroupsEnd(data, pos, fb, lo, m, c, next);
  }

  /** arr[p] := v, where v is element p, extending the run of elements from lo. */
  method Store(data: seq<byte>, pos: nat, arr: array<bool>, lo: nat, p: nat, v: bool)
    requires lo <= p < arr.Length && v == PackedBit(data, pos, p)
    requires forall j :: lo <= j < p ==> arr[j] == PackedBit(data, pos, j)
    modifies arr
    ensures forall j :: lo <= j <= p ==> arr[j] == PackedBit(data, pos, j)
    ensures forall j :: 0 <= j < lo ==> arr[j] == old(arr[j])
  {
    arr[p] := v;
  }

  /** The tail loop's state at element p of n: m is the bit of element p in c, the word of the bytes from the group at fb up to the cursor. */
  ghost predicate Tail(data: seq<byte>, pos: nat, fb: nat, n: nat, p: nat, m: nat, c: nat, after: nat) {
    && fb % 8 == 0 && fb <= p <= n && m == Pow2(p - fb)
    && pos + fb / 8 <= after <= |data| && n - fb <= 8 * (after - (pos + fb / 8))
    && c == FromLE(data[pos + fb / 8..after])
  }

  /** The tail loop starts at the first element after the full groups with mask 1. */
  lemma TailStart(data: seq<byte>, pos: nat, fb: nat, n: nat, c: nat, after: nat)
    requires fb % 8 == 0 && fb < n && after == pos + fb / 8 + PackedBytes(n - fb) <= |data|
    requires c == TailWord(data[pos + fb / 8..after])
    ensures Tail(data, pos, fb, n, fb, 1, c, after)
  {
    var k := n - fb;
    assert k <= 8 * PackedBytes(k) by {
      assert k == 8 * (k / 8) + k % 8;
    }
  }

  /** Testing c under m yields element p, and doubling m moves to element p + 1. */
  lemma TailStep(data: seq<byte>, pos: nat, fb: nat, n: nat, p: nat, m: nat, c: nat, after: nat)
    requires p < n && Tail(data, pos, fb, n, p, m, c, after)
    ensures (BitAnd(c, m) != 0) == PackedBit(data, pos, p)
    ensures Tail(data, pos, fb, n, p + 1, 2 * m, c, after)
  {
    WordElement(data, pos, fb, p, after, c);
    assert Pow2(p + 1 - fb) == 2 * Pow2(p - fb);
  }

  /**
   * Lines 593-603: the remaining elements from ceil(rem / 8) bytes read
   * little-endian. Read that way the host plays no part, so none is passed.
   */
  method ReadTail(data: seq<byte>, pos: nat, arr: array<bool>, fb: nat, next: nat) returns (after: nat)
    requires fb % 8 == 0 && fb < arr.Length && next == pos + fb / 8
    requires next + PackedBytes(arr.Length - fb) <= |data|
    modifies arr
    ensures after == next + PackedBytes(arr.Length - fb)
    ensures forall j :: 0 <= j < fb ==> arr[j] == old(arr[j])
    ensures forall j :: fb <= j < arr.Length ==> arr[j] == PackedBit(data, pos, j)
  {
    var i := PackedBytes(arr.Length - fb);
    var wire := new byte[i];
    ghost var blank := wire[..];
    after := DeserializeRaw(data, next, wire, 0, i);
    SpliceAll(blank, data[next..after]);
    var c := TailWord(wire[..]);
    var m: nat := 1;
    var p := fb;
    TailStart(data, pos, fb, arr.Length, c, after);
    while p < arr.Length
      invariant Tail(data, pos, fb, arr.Length, p, m, c, after)
      invariant forall j :: 0 <= j < fb ==> arr[j] == old(arr[j])
      invariant forall j :: fb <= j < p ==> arr[j] == PackedBit(data, pos, j)
    {
      TailStep(data, pos, fb, arr.Length, p, m, c, after);
      Store(data, pos, arr, fb, p, BitAnd(c, m) != 0);
      m := 2 * m;
      p := p + 1;
    }
  }

  /** The unpacking of n elements is the packed bit of each. */
  lemma UnpackIsPackedBits(data: seq<byte>, pos: nat, s: seq<bool>)
    requires pos + PackedBytes(|s|) <= |data|
    requires forall j :: 0 <= j < |s| ==> s[j] == PackedBit(data, pos, j)
    ensures s == Unpack(data[pos..], |s|)
  {
    forall j | 0 <= j < |s|
      ensures pos + j / 8 < |data|
    {
      assert j / 8 < PackedBytes(|s|);
    }
  }

  /**
   * The bool unpacker (lines 580-604) as it is meant to work: each full group
   * of 64 elements is read as a uint64 and checked bit by bit under a mask m;
   * the remaining elements take ceil(rem / 8) bytes, read little-endian. The
   * unpacker as written copies those bytes over the previous word's memory
   * and reverses them in place on a big-endian host (BoolPack.TailWordAsWritten).
   */
  method ReadBools(host: Endian, data: seq<byte>, pos: nat, arr: array<bool>) returns (next: nat)
    requires pos + PackedBytes(arr.Length) <= |data|
    modifies arr
    ensures next == pos + PackedBytes(arr.Length) && arr[..] == Unpack(data[pos..], arr.Length)
  {
    var n := arr.Length;
    var fb := n - n % 64;
    WholeGroups(n);
    PackedBytesAppend(fb, n - fb);
    next := ReadGroups(host, data, pos, arr, fb);
    if fb != n {
      next := ReadTail(data, pos, arr, fb, next);
    }
    assert forall j :: 0 <= j < n ==> arr[j] == PackedBit(data, pos, j);
    UnpackIsPackedBits(data, pos, arr[..]);
  }

  /** The elements in whole groups of 64 fill whole bytes and leave fewer than 64. */
  lemma WholeGroups(n: nat)
    ensures (n - n % 64) % 64 == 0 && (n - n % 64) % 8 == 0 && n % 64 < 64
  {
    var q := n / 64;
    assert n - n % 64 == 64 * q;
    assert (64 * q) % 64 == 0 && (64 * q) % 8 == 0 by {
      assert 64 * q == 64 * q + 0 && 64 * q == 8 * (8 * q) + 0;
    }
  }

  // ---------------------------------------------------------------------------
  // Deserialize

  /** Deserialize<T>(Data) (lines 557-687): the value at pos and the cursor after it, or the error Decode names. */
  method Deserialize(cc: Customs, host: Endian, t: Type, data: seq<byte>, pos: nat) returns (r: Result<(Value, nat)>)
    requires Decodable(t) && pos <= |data|
    ensures r == Decode(cc, t, data, pos)
    decreases t, 2
  {
    match t
    case Custom(id, _) =>
      r := DecodeCustom(cc, id, data, pos);
    case Coll(_, _) =>
      r := DeserializeColl(cc, host, t, data, pos);
    case Arith(k) =>
      r := ReadArith(host, k, data, pos);
    case StdPair(_, _) =>
      r := DeserializePair(cc, host, t, data, pos);
    case StdTuple(ts) =>
      var xs := DeserializeElems(cc, host, ts, data, pos);
      if xs.Err? {
        return Err(xs.error);
      }
      r := Ok((Tuple(xs.value.0), xs.value.1));
    case StdComplex(k) =>
      var re := ReadArith(host, k, data, pos);
      if re.Err? {
        return Err(re.error);
      }
      var im := ReadArith(host, k, data, re.value.1);
      if im.Err? {
        return Err(im.error);
      }
      r := Ok((Both(re.value.0, im.value.0), im.value.1));
    case StdArray(e, n) =>
      var arr := new Value[n];
      var end := DeserializeArray(cc, host, e, data, pos, arr);
      if end.Err? {
        return Err(end.error);
      }
      r := Ok((Items(arr[..]), end.value));
    case StdOptional(_) =>
      r := DeserializeOptional(cc, host, t, data, pos);
    case StdVariant(_) =>
      r := DeserializeVariant(cc, host, t, data, pos);
    case StdDuration(k) =>
      r := ReadArith(host, k, data, pos);
    case StdTimePoint(k) =>
      r := ReadArith(host, k, data, pos);
  }

  /**
   * A collection (lines 575-608): the count, then the elements into a
   * scratch array from which the container is constructed.
   */
  method DeserializeColl(cc: Customs, host: Endian, t: Type, data: seq<byte>, pos: nat) returns (r: Result<(Value, nat)>)
    requires t.Coll? && Decodable(t) && pos <= |data|
    ensures r == Decode(cc, t, data, pos)
    decreases t, 1
  {
    var count := ReadNatAt(host, data, pos, 8);
    if count.Err? {
      return Err(count.error);
    }
    var (n, p) := count.value;
    if t.elem == BoolType {
      if p + PackedBytes(n) > |data| {
        return Err(Truncated);
      }
      var arr := new bool[n];
      var end := ReadBools(host, data, p, arr);
      r := Ok((Items(BoolValues(arr[..])), end));
    } else {
      var arr := new Value[n];
      var end := DeserializeArray(cc, host, t.elem, data, p, arr);
      if end.Err? {
        return Err(end.error);
      }
      r := Ok((Items(arr[..]), end.value));
    }
  }

  /** A pair (lines 613-647): first, then second. */
  method DeserializePair(cc: Customs, host: Endian, t: Type, data: seq<byte>, pos: nat) returns (r: Result<(Value, nat)>)
    requires t.StdPair? && Decodable(t) && pos <= |data|
    ensures r == Decode(cc, t, data, pos)
    decreases t, 1
  {
    var x := Deserialize(cc, host, t.first, data, pos);
    if x.Err? {
      return Err(x.error);
    }
    var y := Deserialize(cc, host, t.second, data, x.value.1);
    if y.Err? {
      return Err(y.error);
    }
    r := Ok((Both(x.value.0, y.value.0), y.value.1));
  }

  /** An optional (lines 664-668): the has-value flag as a bool, then the payload when it is set. */
  method DeserializeOptional(cc: Customs, host: Endian, t: Type, data: seq<byte>, pos: nat) returns (r: Result<(Value, nat)>)
    requires t.StdOptional? && Decodable(t) && pos <= |data|
    ensures r == Decode(cc, t, data, pos)
    decreases t, 1
  {
    var flag := ReadArith(host, BoolKind, data, pos);
    if flag.Err? {
      return Err(flag.error);
    }
    if flag.value.0 == Num(1) {
      var x := Deserialize(cc, host, t.payload, data, flag.value.1);
      if x.Err? {
        return Err(x.error);
      }
      r := Ok((Present(x.value.0), x.value.1));
    } else {
      r := Ok((Absent, flag.value.1));
    }
  }

  /**
   * details::variantDeserialize (lines 378-382) and variantHelper2::Deserialize
   * (lines 344-366): the index, then the alternative it names; an index past
   * the alternatives gives the monostate alternative when there is one and
   * std::out_of_range otherwise.
   */
  method DeserializeVariant(cc: Customs, host: Endian, t: Type, data: seq<byte>, pos: nat) returns (r: Result<(Value, nat)>)
    requires t.StdVariant? && Decodable(t) && pos <= |data|
    ensures r == Decode(cc, t, data, pos)
    decreases t, 1
  {
    var alts := t.alts;
    var idx := ReadNatAt(host, data, pos, 8);
    if idx.Err? {
      return Err(idx.error);
    }
    var (j, p) := idx.value;
    if j < |alts| {
      if alts[j] == Monostate {
        r := Ok((Alt(j, Unit), p));
      } else {
        var x := Deserialize(cc, host, alts[j], data, p);
        if x.Err? {
          return Err(x.error);
        }
        r := Ok((Alt(j, x.value.0), x.value.1));
      }
    } else if HasMonostate(alts) {
      r := Ok((Alt(MonostateIndex(alts), Unit), p));
    } else {
      r := Err(OutOfRange);
    }
  }

  /** details::tupleDeserializer2 (lines 294-301): the first element, then the rest of the tuple. */
  method DeserializeElems(cc: Customs, host: Endian, ts: seq<Type>, data: seq<byte>, pos: nat)
    returns (r: Result<(seq<Value>, nat)>)
    requires DecodableElems(ts) && pos <= |data|
    ensures r == DecodeTuple(cc, ts, data, pos)
    decreases ts
  {
    if ts == [] {
      return Ok(([], pos));
    }
    var x := Deserialize(cc, host, ts[0], data, pos);
    if x.Err? {
      return Err(x.error);
    }
    var rest := DeserializeElems(cc, host, ts[1..], data, x.value.1);
    if rest.Err? {
      return Err(rest.error);
    }
    r := Ok(([x.value.0] + rest.value.0, rest.value.1));
  }

  /**
   * DeserializeArray(Data, Lower, Upper) (lines 719-722), which is also the
   * element loop of a collection (line 605) and of a std::array (lines
   * 658-662): Deserialize into each slot in turn. On success the slots hold
   * the decoded elements and the cursor is past them; on failure the error
   * is Decode's.
   */
  method DeserializeArray(cc: Customs, host: Endian, e: Type, data: seq<byte>, pos: nat, dst: array<Value>)
    returns (r: Result<nat>)
    requires Decodable(e) && pos <= |data|
    modifies dst
    ensures var d := DecodeItems(cc, e, data, pos, dst.Length, []);
      (d.Ok? ==> r == Ok(d.value.1) && dst[..] == d.value.0) && (d.Err? ==> r == Err(d.error))
    decreases e, 3
  {
    var p: nat := pos;
    var i := 0;
    ghost var acc: seq<Value> := [];
    while i < dst.Length
      invariant i <= dst.Length && p <= |data| && acc == dst[..i]
      invariant DecodeItems(cc, e, data, pos, dst.Length, []) == DecodeItems(cc, e, data, p, dst.Length - i, acc)
    {
      var x := Deserialize(cc, host, e, data, p);
      if x.Err? {
        return Err(x.error);
      }
      dst[i] := x.value.0;
      acc := acc + [x.value.0];
      p := x.value.1;
      i := i + 1;
    }
    assert dst[..i] == dst[..];
    r := Ok(p);
  }
}
