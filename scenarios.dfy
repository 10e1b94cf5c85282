/**
 * The two scenarios of tests/main.cpp, each written as the test writes it:
 * size the value, serialize it into a buffer of exactly that size,
 * deserialize it from the start of the buffer, and compare.
 */
module Scenarios {
  import opened Wrappers
  import opened Bytes
  import opened Endian
  import opened Shapes
  import opened Codec
  import opened CodecLaws
  import opened CodecFacts
  import Writer
  import Reader

  /** std::uint64_t. */
  const UInt64 := Arith(IntKind(8, false))

  /** std::unordered_set<std::uint64_t>: an unsigned size_type, range-constructible, not a map. */
  const UInt64Set := Coll(Container(true, true, false), UInt64)

  /** The number uint64_roundtrip sends. */
  const Sent: nat := 24523485222452345

  /** The elements unorderedset_roundtrip inserts, in one of the orders the set may iterate them. */
  const SentSet: seq<Value> := [Num(3), Num(4), Num(4523425934582345)]

  /**
   * What both tests do with a value x of type t: size it, serialize it into
   * a buffer of exactly that size, then deserialize from the start of the
   * buffer. The size, the cursor after writing and the cursor after reading
   * all agree, and the value comes back.
   */
  method Exchange(cc: Customs, host: Endian, t: Type, x: Value) returns (size: Result<nat>, written: nat, back: Result<(Value, nat)>)
    requires Lawful(cc) && Decodable(t) && Encodable(t, x) && Settled(x)
    ensures size == Ok(Size(cc, t, x)) && written == Size(cc, t, x)
    ensures back == Ok((x, Size(cc, t, x)))
  {
    EncodeSize(cc, t, x);
    SerializedSizeIsLength(cc, t, x);
    DecodableIsSupported(t);
    size := SerializedSize(cc, t, x);
    var n := Size(cc, t, x);
    var c := new byte[n];
    ghost var blank := c[..];
    written := Writer.Serialize(cc, host, t, x, c, 0);
    SpliceAll(blank, Encode(cc, t, x));
    assert c[..][0..n] == Encode(cc, t, x);
    back := Reader.Deserialize(cc, host, t, c[..], 0);
    RoundTrip(cc, t, x, c[..], 0, n);
    CanonOfSettled(t, x);
  }

  /**
   * uint64_roundtrip: SerializedSize is 8, Serialize advances the cursor by
   * 8, and Deserialize reads back the same number and also advances by 8.
   */
  method UInt64RoundTrip(cc: Customs, host: Endian) returns (size: Result<nat>, written: nat, back: Result<(Value, nat)>)
    requires Lawful(cc)
    ensures size == Ok(8) && written == 8
    ensures back == Ok((Num(Sent), 8))
  {
    Pow256Of8();
    size, written, back := Exchange(cc, host, UInt64, Num(Sent));
  }

  /** The set holds uint64 values, and its size is the count's eight bytes and eight bytes per element. */
  lemma SentSetSize(cc: Customs)
    ensures Encodable(UInt64Set, Items(SentSet)) && Settled(Items(SentSet))
    ensures Size(cc, UInt64Set, Items(SentSet)) == 32
  {
    Pow256Of8();
    var xs := SentSet;
    assert xs[1..][1..][1..] == [];
    assert SizeSeq(cc, UInt64, xs[1..][1..]) == 8;
    assert SizeSeq(cc, UInt64, xs) == 24;
  }

  /**
   * unorderedset_roundtrip: SerializedSize is 32 (the count and three
   * eight-byte elements), Serialize advances the cursor by 32, and
   * Deserialize reads back the same elements and also advances by 32.
   */
  method UInt64SetRoundTrip(cc: Customs, host: Endian) returns (size: Result<nat>, written: nat, back: Result<(Value, nat)>)
    requires Lawful(cc)
    ensures size == Ok(32) && written == 32
    ensures back == Ok((Items(SentSet), 32))
  {
    SentSetSize(cc);
    size, written, back := Exchange(cc, host, UInt64Set, Items(SentSet));
  }
}
