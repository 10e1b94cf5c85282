/**
 * What the older Serializer.h promises about its own format: SerializedSize
 * is the number of bytes Serialize writes, Deserialize on the same host reads
 * back what Serialize wrote and stops where it ended, a map rebuilt by
 * inserting by key never holds a key twice, and a floating-point value moved
 * to a host of the other byte order comes back byte-swapped.
 */
module LegacyLaws {
  import opened Wrappers
  import opened Bytes
  import opened Endian
  import opened Codec
  import opened CodecLaws
  import opened Legacy

  // ---------------------------------------------------------------------------
  // SerializedSize agrees with Serialize

  /** SerializedSize(Value) is the number of bytes Serialize(Data, Value) writes. */
  lemma {:induction false} WrittenSize(cc: Customs, host: Endian, t: LegacyType, v: Value)
    requires Lawful(cc) && Fits(t, v)
    ensures |Written(cc, host, t, v)| == SizeOf(cc, t, v)
    decreases t, 1
  {
    match t
    case Integral(w) =>
    case Floating(w) =>
    case Iterable(e, _) =>
      SeqWrittenSize(cc, host, e, v.elems);
    case PairOf(a, b) =>
      WrittenSize(cc, host, a, v.first);
      WrittenSize(cc, host, b, v.second);
    case TupleOf(ts) =>
      TupleWrittenSize(cc, host, ts, v.elems);
    case BuiltIn(id) =>
  }

  lemma {:induction false} SeqWrittenSize(cc: Customs, host: Endian, e: LegacyType, xs: seq<Value>)
    requires Lawful(cc) && forall i :: 0 <= i < |xs| ==> Fits(e, xs[i])
    ensures |WrittenSeq(cc, host, e, xs)| == SizeOfSeq(cc, e, xs)
    decreases e, |xs| + 2
  {
    if xs != [] {
      WrittenSize(cc, host, e, xs[0]);
      SeqWrittenSize(cc, host, e, xs[1..]);
    }
  }

  lemma {:induction false} TupleWrittenSize(cc: Customs, host: Endian, ts: seq<LegacyType>, xs: seq<Value>)
    requires Lawful(cc) && |ts| == |xs| && forall i :: 0 <= i < |ts| ==> Fits(ts[i], xs[i])
    ensures |WrittenTuple(cc, host, ts, xs)| == SizeOfTuple(cc, ts, xs)
    decreases ts
  {
    if ts != [] {
      WrittenSize(cc, host, ts[0], xs[0]);
      TupleWrittenSize(cc, host, ts[1..], xs[1..]);
    }
  }

  // ---------------------------------------------------------------------------
  // Maps insert by key

  /** The entries of xs whose key is not k, in order. */
  function DropKey(xs: seq<Value>, k: Value): (r: seq<Value>)
    ensures |r| <= |xs|
  {
    if xs == [] then []
    else (if xs[0].Both? && xs[0].first == k then [] else [xs[0]]) + DropKey(xs[1..], k)
  }

  /**
   * The first entry for each key, in the order the entries come: keep the
   * head and drop every later entry with its key. This is what std::map
   * keeps when it is offered the entries one by one.
   */
  function FirstPerKey(xs: seq<Value>): seq<Value>
    decreases |xs|
  {
    if xs == [] then []
    else if xs[0].Both? then [xs[0]] + FirstPerKey(DropKey(xs[1..], xs[0].first))
    else [xs[0]] + FirstPerKey(xs[1..])
  }

  lemma HasKeyAfter(h: Value, coll: seq<Value>, k: Value)
    requires !(h.Both? && h.first == k)
    ensures HasKey([h] + coll, k) <==> HasKey(coll, k)
  {
    if HasKey([h] + coll, k) {
      var i :| 0 <= i < |[h] + coll| && ([h] + coll)[i].Both? && ([h] + coll)[i].first == k;
      assert coll[i - 1] == ([h] + coll)[i];
    }
    if HasKey(coll, k) {
      var i :| 0 <= i < |coll| && coll[i].Both? && coll[i].first == k;
      assert ([h] + coll)[i + 1] == coll[i];
    }
  }

  /**
   * Inserting one more entry into the map built from xs gives the map built
   * from xs and that entry: the insert loop computes FirstPerKey.
   */
  lemma {:induction false} FirstPerKeyInsert(xs: seq<Value>, x: Value)
    ensures FirstPerKey(xs + [x]) == Insert(true, FirstPerKey(xs), x)
    decreases |xs|
  {
    if xs == [] {
      assert FirstPerKey([x]) == [x];
    } else {
      var h, t := xs[0], xs[1..];
      assert (xs + [x])[0] == h && (xs + [x])[1..] == t + [x];
      if h.Both? {
        var d := DropKey(t, h.first);
        DropKeyAppend(t, [x], h.first);
        if x.Both? && x.first == h.first {
          assert DropKey(t + [x], h.first) == d;
          assert ([h] + FirstPerKey(d))[0] == h;
        } else {
          assert DropKey(t + [x], h.first) == d + [x];
          FirstPerKeyInsert(d, x);
          if x.Both? {
            HasKeyAfter(h, FirstPerKey(d), x.first);
          }
        }
      } else {
        FirstPerKeyInsert(t, x);
        if x.Both? {
          HasKeyAfter(h, FirstPerKey(t), x.first);
        }
      }
    }
  }

  lemma {:induction false} DropKeyAppend(xs: seq<Value>, ys: seq<Value>, k: Value)
    ensures DropKey(xs + ys, k) == DropKey(xs, k) + DropKey(ys, k)
    decreases |xs|
  {
    if xs == [] {
      assert xs + ys == ys;
    } else {
      var h := if xs[0].Both? && xs[0].first == k then [] else [xs[0]];
      DropKeyUnfold(xs + ys, k);
      DropKeyUnfold(xs, k);
      assert (xs + ys)[0] == xs[0] && (xs + ys)[1..] == xs[1..] + ys;
      DropKeyAppend(xs[1..], ys, k);
      AppendAssoc(h, DropKey(xs[1..], k), DropKey(ys, k));
    }
  }

  lemma DropKeyUnfold(xs: seq<Value>, k: Value)
    requires xs != []
    ensures DropKey(xs, k) == (if xs[0].Both? && xs[0].first == k then [] else [xs[0]]) + DropKey(xs[1..], k)
  {
  }

  lemma AppendAssoc(a: seq<Value>, b: seq<Value>, c: seq<Value>)
    ensures a + (b + c) == (a + b) + c
  {
  }

  /** What a keyed read keeps of what an unkeyed read of the same bytes gives. */
  function KeptPerKey(r: Result<(seq<Value>, nat)>): Result<(seq<Value>, nat)> {
    match r
    case Ok((all, end)) => Ok((FirstPerKey(all), end))
    case Err(e) => Err(e)
  }

  /**
   * A map read from any bytes holds, in wire order, the first entry for each
   * key among the entries a plain read of the same bytes yields; it ends
   * where that read ends and fails exactly where it fails.
   */
  lemma {:induction false} MapReadKeepsFirstPerKey(cc: Customs, host: Endian, e: LegacyType, bytes: seq<byte>, pos: nat, n: nat, done: seq<Value>)
    requires Readable(e) && pos <= |bytes|
    ensures ReadItems(cc, host, e, true, bytes, pos, n, FirstPerKey(done))
         == KeptPerKey(ReadItems(cc, host, e, false, bytes, pos, n, done))
    decreases n
  {
    if n > 0 {
      var r := Read(cc, host, e, bytes, pos);
      if r.Ok? {
        FirstPerKeyInsert(done, r.value.0);
        MapReadKeepsFirstPerKey(cc, host, e, bytes, r.value.1, n - 1, done + [r.value.0]);
      }
    }
  }

  /** Inserting into a map whose keys are distinct leaves them distinct. */
  lemma InsertKeepsKeysDistinct(coll: seq<Value>, x: Value)
    requires KeysDistinct(coll) && x.Both?
    ensures KeysDistinct(Insert(true, coll, x))
  {
    var r := Insert(true, coll, x);
    if !HasKey(coll, x.first) {
      forall i, j | 0 <= i < j < |r| && r[i].Both? && r[j].Both?
        ensures r[i].first != r[j].first
      {
        if j == |coll| {
          assert r[i] == coll[i];
        } else {
          assert r[i] == coll[i] && r[j] == coll[j];
        }
      }
    }
  }

  /** A map read from any bytes never holds a key twice, however many entries the count announced. */
  lemma {:induction false} ReadMapKeysDistinct(cc: Customs, host: Endian, e: LegacyType, bytes: seq<byte>, pos: nat, n: nat, coll: seq<Value>)
    requires Readable(e) && e.PairOf? && pos <= |bytes| && KeysDistinct(coll)
    requires ReadItems(cc, host, e, true, bytes, pos, n, coll).Ok?
    ensures KeysDistinct(ReadItems(cc, host, e, true, bytes, pos, n, coll).value.0)
    decreases n
  {
    if n > 0 {
      var x := Read(cc, host, e, bytes, pos).value;
      PairReadIsPair(cc, host, e, bytes, pos);
      InsertKeepsKeysDistinct(coll, x.0);
      ReadMapKeysDistinct(cc, host, e, bytes, x.1, n - 1, Insert(true, coll, x.0));
    }
  }

  /** Two entries read with the same key 1 leave one entry in the map: the first. */
  lemma DuplicateKeyKeepsFirst(cc: Customs, host: Endian)
    ensures ReadItems(cc, host, PairOf(Integral(1), Integral(1)), true, [1, 5, 1, 7], 0, 2, [])
         == Ok(([Both(Num(1), Num(5))], 4))
  {
    var bytes: seq<byte> := [1, 5, 1, 7];
    var e := PairOf(Integral(1), Integral(1));
    var first, second := Both(Num(1), Num(5)), Both(Num(1), Num(7));
    assert Read(cc, host, e, bytes, 0) == Ok((first, 2)) by {
      assert bytes[0..1] == [1] && bytes[1..2] == [5];
    }
    assert Read(cc, host, e, bytes, 2) == Ok((second, 4)) by {
      assert bytes[2..3] == [1] && bytes[3..4] == [7];
    }
    assert Insert(true, [], first) == [first];
    assert Insert(true, [first], second) == [first] by {
      assert [first][0] == first;
    }
  }

  /** A multimap, read unkeyed, keeps both entries with key 1, in the order read. */
  lemma DuplicateKeyMultimapKeepsBoth(cc: Customs, host: Endian)
    ensures ReadItems(cc, host, PairOf(Integral(1), Integral(1)), false, [1, 5, 1, 7], 0, 2, [])
         == Ok(([Both(Num(1), Num(5)), Both(Num(1), Num(7))], 4))
  {
    var bytes: seq<byte> := [1, 5, 1, 7];
    var e := PairOf(Integral(1), Integral(1));
    var first, second := Both(Num(1), Num(5)), Both(Num(1), Num(7));
    assert Read(cc, host, e, bytes, 0) == Ok((first, 2)) by {
      assert bytes[0..1] == [1] && bytes[1..2] == [5];
    }
    assert Read(cc, host, e, bytes, 2) == Ok((second, 4)) by {
      assert bytes[2..3] == [1] && bytes[3..4] == [7];
    }
    assert Insert(false, [], first) == [first];
    assert Insert(false, [first], second) == [first, second];
    assert ReadItems(cc, host, e, false, bytes, 0, 2, []) == ReadItems(cc, host, e, false, bytes, 2, 1, [first]);
    assert ReadItems(cc, host, e, false, bytes, 2, 1, [first]) == ReadItems(cc, host, e, false, bytes, 4, 0, [first, second]);
  }

  /** What a pair type reads is a pair. */
  lemma PairReadIsPair(cc: Customs, host: Endian, e: LegacyType, bytes: seq<byte>, pos: nat)
    requires Readable(e) && e.PairOf? && pos <= |bytes| && Read(cc, host, e, bytes, pos).Ok?
    ensures Read(cc, host, e, bytes, pos).value.0.Both?
  {
  }

  // ---------------------------------------------------------------------------
  // Floating point: the host's own bytes

  /** Reading a number's host image on the host that wrote it gives the number back. */
  lemma HostRoundTrip(host: Endian, x: nat, w: nat)
    requires x < Pow256(w)
    ensures HostValue(host, HostBytes(host, x, w)) == x
  {
    if host == Big {
      ReverseReverse(LE(x, w));
    }
    FromLEOfLE(x, w);
  }

  /**
   * A floating-point value written on one host and read on a host of the
   * other byte order comes back with its bytes reversed: only integers are
   * normalised (lines 224-232, 269-279).
   */
  lemma FloatAcrossHosts(cc: Customs, host: Endian, other: Endian, x: nat, w: nat)
    requires 0 < w && x < Pow256(w)
    ensures Fits(Floating(w), Num(x))
    ensures Read(cc, other, Floating(w), Written(cc, host, Floating(w), Num(x)), 0)
         == Ok((Num(if other == host then x else SwapValue(x, w)), w))
  {
    var wire := HostBytes(host, x, w);
    assert wire[0..w] == wire;
    if other == host {
      HostRoundTrip(host, x, w);
    } else if host == Big {
      ReverseReverse(LE(x, w));
    }
  }

  /** A float whose bit pattern is 1 is read on a little-endian host as 2^24 when a big-endian host wrote it. */
  lemma FloatSwappedExample(cc: Customs)
    ensures Read(cc, Little, Floating(4), Written(cc, Big, Floating(4), Num(1)), 0) == Ok((Num(0x100_0000), 4))
  {
    FloatAcrossHosts(cc, Big, Little, 1, 4);
    SwapOfOne();
  }

  /** Byte-swapping the four-byte pattern 1 gives 2^24. */
  lemma SwapOfOne()
    ensures SwapValue(1, 4) == 0x100_0000
  {
    var s: seq<byte> := [1, 0, 0, 0];
    assert LE(1, 4) == s;
    assert Reverse(s) == [0, 0, 0, 1] by {
      forall k | 0 <= k < 4 ensures Reverse(s)[k] == [0, 0, 0, 1][k] {
        ReverseAt(s, k);
      }
    }
  }

  // ---------------------------------------------------------------------------
  // Round trip on one host

  /** Deserialize on the host that serialized a value reads it back and stops where Serialize ended. */
  lemma {:induction false} RoundTrip(cc: Customs, host: Endian, t: LegacyType, v: Value, bytes: seq<byte>, pos: nat, end: nat)
    requires Lawful(cc) && Readable(t) && Fits(t, v)
    requires pos <= end <= |bytes| && bytes[pos..end] == Written(cc, host, t, v)
    ensures Read(cc, host, t, bytes, pos) == Ok((v, end))
    decreases t, 1
  {
    if t.Iterable? {
      IterableRoundTrip(cc, host, t, v, bytes, pos, end);
    } else if t.PairOf? {
      PairRoundTrip(cc, host, t, v, bytes, pos, end);
    } else if t.TupleOf? {
      TupleOfRoundTrip(cc, host, t, v, bytes, pos, end);
    } else {
      LeafRoundTrip(cc, host, t, v, bytes, pos, end);
    }
  }

  /** Integers, floating-point values and types with their own operations. */
  lemma LeafRoundTrip(cc: Customs, host: Endian, t: LegacyType, v: Value, bytes: seq<byte>, pos: nat, end: nat)
    requires t.Integral? || t.Floating? || t.BuiltIn?
    requires Lawful(cc) && Readable(t) && Fits(t, v)
    requires pos <= end <= |bytes| && bytes[pos..end] == Written(cc, host, t, v)
    ensures Read(cc, host, t, bytes, pos) == Ok((v, end))
  {
    if t.Integral? {
      IntegralRoundTrip(cc, host, t, v, bytes, pos, end);
    } else if t.Floating? {
      FloatingRoundTrip(cc, host, t, v, bytes, pos, end);
    } else {
      BuiltInRoundTrip(cc, host, t, v, bytes, pos, end);
    }
  }

  /** An integer reads back from its little-endian bytes on either host. */
  lemma IntegralRoundTrip(cc: Customs, host: Endian, t: LegacyType, v: Value, bytes: seq<byte>, pos: nat, end: nat)
    requires t.Integral? && Readable(t) && Fits(t, v)
    requires pos <= end <= |bytes| && bytes[pos..end] == Written(cc, host, t, v)
    ensures Read(cc, host, t, bytes, pos) == Ok((v, end))
  {
    FromLEOfLE(v.bits, t.width);
  }

  /** A floating-point value reads back from the host's own bytes on the host that wrote them. */
  lemma FloatingRoundTrip(cc: Customs, host: Endian, t: LegacyType, v: Value, bytes: seq<byte>, pos: nat, end: nat)
    requires t.Floating? && Readable(t) && Fits(t, v)
    requires pos <= end <= |bytes| && bytes[pos..end] == Written(cc, host, t, v)
    ensures Read(cc, host, t, bytes, pos) == Ok((v, end))
  {
    var w := t.width;
    assert bytes[pos..end] == HostBytes(host, v.bits, w);
    HostRoundTrip(host, v.bits, w);
  }

  /** A type with its own operations reads back by its lawful Deserialize. */
  lemma BuiltInRoundTrip(cc: Customs, host: Endian, t: LegacyType, v: Value, bytes: seq<byte>, pos: nat, end: nat)
    requires t.BuiltIn? && Lawful(cc) && Fits(t, v)
    requires pos <= end <= |bytes| && bytes[pos..end] == Written(cc, host, t, v)
    ensures Read(cc, host, t, bytes, pos) == Ok((v, end))
  {
    var enc := cc.write(t.id, v.state);
    assert bytes[pos..] == enc + bytes[end..];
  }

  lemma {:induction false} IterableRoundTrip(cc: Customs, host: Endian, t: LegacyType, v: Value, bytes: seq<byte>, pos: nat, end: nat)
    requires t.Iterable? && Lawful(cc) && Readable(t) && Fits(t, v)
    requires pos <= end <= |bytes| && bytes[pos..end] == Written(cc, host, t, v)
    ensures Read(cc, host, t, bytes, pos) == Ok((v, end))
    decreases t, 0
  {
    var e, xs := t.elem, v.elems;
    assert Written(cc, host, t, v) == LE(|xs|, 8) + WrittenSeq(cc, host, e, xs);
    CountBytes(|xs|, WrittenSeq(cc, host, e, xs), bytes, pos, end);
    NilAppend(xs);
    ItemsRoundTrip(cc, host, e, t.keyed, xs, bytes, pos + 8, end, []);
    ReadIterableStep(cc, host, t, bytes, pos, xs, end);
  }

  /** An iterable whose count reads as n and whose n elements read as xs reads as Items(xs). */
  lemma ReadIterableStep(cc: Customs, host: Endian, t: LegacyType, bytes: seq<byte>, pos: nat, xs: seq<Value>, q: nat)
    requires t.Iterable? && Readable(t) && pos + 8 <= |bytes|
    requires ReadItems(cc, host, t.elem, t.keyed, bytes, pos + 8, FromLE(bytes[pos..pos + 8]), []) == Ok((xs, q))
    ensures Read(cc, host, t, bytes, pos) == Ok((Items(xs), q))
  {
  }

  lemma {:induction false} PairRoundTrip(cc: Customs, host: Endian, t: LegacyType, v: Value, bytes: seq<byte>, pos: nat, end: nat)
    requires t.PairOf? && Lawful(cc) && Readable(t) && Fits(t, v)
    requires pos <= end <= |bytes| && bytes[pos..end] == Written(cc, host, t, v)
    ensures Read(cc, host, t, bytes, pos) == Ok((v, end))
    decreases t, 0
  {
    var wa := Written(cc, host, t.first, v.first);
    Split(bytes, pos, end, wa, Written(cc, host, t.second, v.second));
    RoundTrip(cc, host, t.first, v.first, bytes, pos, pos + |wa|);
    RoundTrip(cc, host, t.second, v.second, bytes, pos + |wa|, end);
  }

  lemma {:induction false} TupleOfRoundTrip(cc: Customs, host: Endian, t: LegacyType, v: Value, bytes: seq<byte>, pos: nat, end: nat)
    requires t.TupleOf? && Lawful(cc) && Readable(t) && Fits(t, v)
    requires pos <= end <= |bytes| && bytes[pos..end] == Written(cc, host, t, v)
    ensures Read(cc, host, t, bytes, pos) == Ok((v, end))
    decreases t, 0
  {
    TupleRoundTrip(cc, host, t.elems, v.elems, bytes, pos, end);
  }

  /**
   * The element loop reads the elements back in order: a container appends
   * each at end(), and a map, whose keys are distinct, never meets a key it
   * already holds.
   */
  lemma {:induction false} ItemsRoundTrip(cc: Customs, host: Endian, e: LegacyType, keyed: bool, xs: seq<Value>,
                                          bytes: seq<byte>, p: nat, q: nat, coll: seq<Value>)
    requires Lawful(cc) && Readable(e) && (keyed ==> e.PairOf?)
    requires forall i :: 0 <= i < |xs| ==> Fits(e, xs[i])
    requires keyed ==> KeysDistinct(coll + xs)
    requires p <= q <= |bytes| && bytes[p..q] == WrittenSeq(cc, host, e, xs)
    ensures ReadItems(cc, host, e, keyed, bytes, p, |xs|, coll) == Ok((coll + xs, q))
    decreases e, |xs| + 2
  {
    if xs == [] {
      AppendNil(coll, xs);
    } else {
      var m := ItemsHead(cc, host, e, xs, bytes, p, q);
      FreshEntry(keyed, e, coll, xs);
      FitsTail(e, xs);
      ItemsRoundTrip(cc, host, e, keyed, xs[1..], bytes, m, q, coll + [xs[0]]);
      ItemsConclude(cc, host, e, keyed, bytes, p, m, q, coll, xs);
    }
  }

  /** Reading xs[0] at p and then the others from m reads all of xs from p. */
  lemma ItemsConclude(cc: Customs, host: Endian, e: LegacyType, keyed: bool, bytes: seq<byte>, p: nat, m: nat, q: nat,
                      coll: seq<Value>, xs: seq<Value>)
    requires Readable(e) && xs != [] && p <= |bytes| && Read(cc, host, e, bytes, p) == Ok((xs[0], m))
    requires Insert(keyed, coll, xs[0]) == coll + [xs[0]] && (coll + [xs[0]]) + xs[1..] == coll + xs
    requires ReadItems(cc, host, e, keyed, bytes, m, |xs[1..]|, coll + [xs[0]]) == Ok((coll + xs, q))
    ensures ReadItems(cc, host, e, keyed, bytes, p, |xs|, coll) == Ok((coll + xs, q))
  {
    ReadItemsStep(cc, host, e, keyed, bytes, p, |xs[1..]|, coll, (xs[0], m));
  }

  lemma FitsTail(e: LegacyType, xs: seq<Value>)
    requires xs != [] && forall i :: 0 <= i < |xs| ==> Fits(e, xs[i])
    ensures forall i :: 0 <= i < |xs[1..]| ==> Fits(e, xs[1..][i])
  {
    assert forall i :: 0 <= i < |xs[1..]| ==> xs[1..][i] == xs[i + 1];
  }

  /** The first element reads back and stops at m, where the bytes of the others start. */
  lemma ItemsHead(cc: Customs, host: Endian, e: LegacyType, xs: seq<Value>, bytes: seq<byte>, p: nat, q: nat)
    returns (m: nat)
    requires Lawful(cc) && Readable(e) && xs != [] && forall i :: 0 <= i < |xs| ==> Fits(e, xs[i])
    requires p <= q <= |bytes| && bytes[p..q] == WrittenSeq(cc, host, e, xs)
    ensures p <= m <= q && Read(cc, host, e, bytes, p) == Ok((xs[0], m))
    ensures bytes[m..q] == WrittenSeq(cc, host, e, xs[1..])
    decreases e, 2
  {
    var w0 := Written(cc, host, e, xs[0]);
    Split(bytes, p, q, w0, WrittenSeq(cc, host, e, xs[1..]));
    m := p + |w0|;
    RoundTrip(cc, host, e, xs[0], bytes, p, m);
  }

  /** One more element: read it, insert it, and go on from where it ended. */
  lemma ReadItemsStep(cc: Customs, host: Endian, e: LegacyType, keyed: bool, bytes: seq<byte>, p: nat, n: nat,
                      coll: seq<Value>, x: (Value, nat))
    requires Readable(e) && p <= |bytes| && Read(cc, host, e, bytes, p) == Ok(x)
    ensures ReadItems(cc, host, e, keyed, bytes, p, n + 1, coll)
         == ReadItems(cc, host, e, keyed, bytes, x.1, n, Insert(keyed, coll, x.0))
  {
  }

  /** The next element written is appended: its key, if any, is not among those read before it. */
  lemma FreshEntry(keyed: bool, e: LegacyType, coll: seq<Value>, xs: seq<Value>)
    requires xs != [] && (keyed ==> e.PairOf?) && Fits(e, xs[0])
    requires keyed ==> KeysDistinct(coll + xs)
    ensures Insert(keyed, coll, xs[0]) == coll + [xs[0]]
    ensures (coll + [xs[0]]) + xs[1..] == coll + xs
    ensures keyed ==> KeysDistinct((coll + [xs[0]]) + xs[1..])
  {
    assert (coll + [xs[0]]) + xs[1..] == coll + xs;
    if keyed {
      var s := coll + xs;
      forall i | 0 <= i < |coll| && coll[i].Both?
        ensures coll[i].first != xs[0].first
      {
        assert s[i] == coll[i] && s[|coll|] == xs[0];
      }
    }
  }

  lemma {:induction false} TupleRoundTrip(cc: Customs, host: Endian, ts: seq<LegacyType>, xs: seq<Value>,
                                          bytes: seq<byte>, p: nat, q: nat)
    requires Lawful(cc) && |ts| > 0 && (forall i :: 0 <= i < |ts| ==> Readable(ts[i]))
    requires |ts| == |xs| && forall i :: 0 <= i < |ts| ==> Fits(ts[i], xs[i])
    requires p <= q <= |bytes| && bytes[p..q] == WrittenTuple(cc, host, ts, xs)
    ensures ReadTuple(cc, host, ts, bytes, p) == Ok((xs, q))
    decreases ts, 1
  {
    var m := TupleHead(cc, host, ts, xs, bytes, p, q);
    if |ts| == 1 {
      ReadTupleLast(cc, host, ts, xs, bytes, p, m, q);
    } else {
      TupleRoundTrip(cc, host, ts[1..], xs[1..], bytes, m, q);
      ReadTupleConclude(cc, host, ts, xs, bytes, p, m, q);
    }
  }

  /** Reading xs[0] at p and then the others from m reads all of xs from p. */
  lemma ReadTupleConclude(cc: Customs, host: Endian, ts: seq<LegacyType>, xs: seq<Value>, bytes: seq<byte>,
                          p: nat, m: nat, q: nat)
    requires |ts| > 1 && |xs| == |ts| && (forall i :: 0 <= i < |ts| ==> Readable(ts[i])) && p <= m <= |bytes|
    requires Read(cc, host, ts[0], bytes, p) == Ok((xs[0], m))
    requires ReadTuple(cc, host, ts[1..], bytes, m) == Ok((xs[1..], q))
    ensures ReadTuple(cc, host, ts, bytes, p) == Ok((xs, q))
  {
    ReadTupleStep(cc, host, ts, bytes, p, (xs[0], m), (xs[1..], q));
    assert [xs[0]] + xs[1..] == xs;
  }

  /** The first element reads back and stops at m, where the bytes of the others start. */
  lemma TupleHead(cc: Customs, host: Endian, ts: seq<LegacyType>, xs: seq<Value>, bytes: seq<byte>, p: nat, q: nat)
    returns (m: nat)
    requires Lawful(cc) && |ts| > 0 && (forall i :: 0 <= i < |ts| ==> Readable(ts[i]))
    requires |ts| == |xs| && forall i :: 0 <= i < |ts| ==> Fits(ts[i], xs[i])
    requires p <= q <= |bytes| && bytes[p..q] == WrittenTuple(cc, host, ts, xs)
    ensures p <= m <= q && Read(cc, host, ts[0], bytes, p) == Ok((xs[0], m))
    ensures |ts[1..]| == |xs[1..]| && forall i :: 0 <= i < |ts[1..]| ==> Readable(ts[1..][i]) && Fits(ts[1..][i], xs[1..][i])
    ensures bytes[m..q] == WrittenTuple(cc, host, ts[1..], xs[1..])
    decreases ts, 0
  {
    forall i | 0 <= i < |ts| - 1 ensures Readable(ts[1..][i]) && Fits(ts[1..][i], xs[1..][i]) {
      assert ts[1..][i] == ts[i + 1] && xs[1..][i] == xs[i + 1];
    }
    var w0, rest := Written(cc, host, ts[0], xs[0]), WrittenTuple(cc, host, ts[1..], xs[1..]);
    assert WrittenTuple(cc, host, ts, xs) == w0 + rest;
    Split(bytes, p, q, w0, rest);
    m := p + |w0|;
    RoundTrip(cc, host, ts[0], xs[0], bytes, p, m);
  }

  /** A one-element tuple reads as its element, whose bytes are all there is. */
  lemma ReadTupleLast(cc: Customs, host: Endian, ts: seq<LegacyType>, xs: seq<Value>, bytes: seq<byte>, p: nat, m: nat, q: nat)
    requires |ts| == 1 == |xs| && Readable(ts[0]) && p <= m <= q <= |bytes|
    requires Read(cc, host, ts[0], bytes, p) == Ok((xs[0], m))
    requires bytes[m..q] == WrittenTuple(cc, host, ts[1..], xs[1..])
    ensures ReadTuple(cc, host, ts, bytes, p) == Ok((xs, q))
  {
    assert xs == [xs[0]];
  }

  /** A longer tuple reads its first element, then the rest from where the first ended. */
  lemma ReadTupleStep(cc: Customs, host: Endian, ts: seq<LegacyType>, bytes: seq<byte>, p: nat,
                      x: (Value, nat), r: (seq<Value>, nat))
    requires |ts| > 1 && (forall i :: 0 <= i < |ts| ==> Readable(ts[i])) && p <= |bytes|
    requires Read(cc, host, ts[0], bytes, p) == Ok(x)
    requires ReadTuple(cc, host, ts[1..], bytes, x.1) == Ok(r)
    ensures ReadTuple(cc, host, ts, bytes, p) == Ok(([x.0] + r.0, r.1))
  {
  }
}
