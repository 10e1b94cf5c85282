# BSerializer in Dafny

BSerializer is a header-only C++ library that turns values into a flat byte
buffer and back. It handles:

- arithmetic types, which are written little-endian;
- collections, written as a 64-bit element count followed by the elements, with `bool` collections packed one bit per element;
- `std::pair`, `std::tuple`, `std::complex`, `std::array`, `std::optional`, `std::variant` and `std::monostate`;
- `std::chrono` durations and time points;
- any type that supplies its own `SerializedSize`/`Serialize`/`Deserialize` (the `BuiltInSerializable` concept).

This project models the codec of `include/bserializer/serializer.h`, the type
classification of `Serializable.h`, and the older codec of `Serializer.h`. It
proves round trips, sizes, the bool packer, the endianness swaps and the two
scenarios of `tests/main.cpp`.

The model has three layers:

- **Wire format as functions.** `Codec` holds `Size`, `Encode` and `Decode` over a `Value`/`Type` pair. `Legacy` holds `SizeOf`, `Written` and `Read` for the older header.
- **The library's loops as methods.** `Writer`, `Reader` and `LegacyIO` work over arrays, with cursors as indices into a byte buffer. Each method is proved to write or read exactly what the functions say.
- **Laws.** `CodecLaws`, `CodecFacts`, `LegacyLaws`, `BoolPack` and `LegacySwap` prove the properties:
  - decoding what was encoded gives back the value and stops where the bytes end;
  - the size is the number of bytes written;
  - decoded values are well typed;
  - the bool packer round-trips;
  - the byte swaps reverse bytes and are involutions.

The modules are:

- `Bytes`: bytes, little-endian images and `Splice`, which describes a buffer after a write at an offset.
- `Endian`: a host's byte order, and `ToFromLittleEndian`.
- `Shapes`: the concepts of `Serializable.h` and the type descriptor.
- `BoolPack`: bit packing, with the packer and unpacker as written.
- `Codec`, `CodecLaws`, `CodecFacts`, `Writer` and `Reader`: `serializer.h`.
- `LegacySwap`, `Legacy`, `LegacyLaws` and `LegacyIO`: `Serializer.h`.
- `Scenarios`: `tests/main.cpp`.

Host byte order is a parameter (`Endian.Endian`). A type with its own operations is modelled by a `Customs` record of size, write and read functions, indexed by a type id. Round trips through such a type require the record is `Lawful`: its size is the length of what it writes, and its read undoes its write whatever bytes follow.

## Model

| member | source | states |
|---|---|---|
| Shapes.SerializableByShape | Serializable.h:162-209 | `isSerializable` holds exactly for arithmetic and custom types, pairs and tuples of serializable types, and collections (maps included) of serializable elements: the six specialisations agree with a shape-by-shape definition |
| Shapes.TupleSerializable | Serializable.h:176-184 | a tuple is serializable exactly when every element is; the empty tuple is serializable |
| Shapes.MapCollectionByKey | Serializable.h:186-198 | a serializable map also satisfies the collection trait exactly when its key is not a pair, a tuple or a custom type, because `value_type` holds the key const-qualified and those traits reject a const-qualified type |
| Shapes.PairKeyedMap | Serializable.h:162-198 | `std::map<std::pair<int, int>, int>` satisfies the map trait and `isSerializable`, but not the collection trait |
| Shapes.SerializableIsSupported | Serializable.h:200-209 | every type `isSerializable` accepts, with valid arithmetic widths, is handled by some branch of the model of `Serialize` |
| Shapes.DecodableIsSupported | include/bserializer/serializer.h:557-680 | every type `Deserialize` handles is also handled by `Serialize` |
| Shapes.MonostateIndex | include/bserializer/serializer.h:344-366 | the index it returns names a `std::monostate` alternative |
| Bytes.FromLEOfLE | include/bserializer/serializer.h:518-522 | reading back the little-endian image of a `w`-byte number gives the number |
| Bytes.LEOfFromLE | include/bserializer/serializer.h:609-611 | every `w`-byte sequence is the little-endian image of the number read from it |
| Bytes.LEInjective | include/bserializer/serializer.h:518-522 | two numbers of one width with the same image are equal |
| Bytes.ReverseReverse | include/bserializer/serializer.h:288-291 | reversing an object's bytes twice restores them |
| Endian.ToFromLittleEndian | include/bserializer/serializer.h:384-388 | on a little-endian host the bytes are unchanged; on a big-endian host byte `k` becomes byte `w-1-k` |
| Endian.ToFromLittleEndianInvolution | include/bserializer/serializer.h:384-388 | applying the normalisation twice restores the bytes, on either host |
| Endian.NormalisedIsLittleEndian | include/bserializer/serializer.h:518-522 | normalising a number's in-memory bytes gives its little-endian image on either host |
| Endian.ReadBackIsLittleEndian | include/bserializer/serializer.h:609-611 | normalising wire bytes and reading them as a host integer gives the little-endian value of the wire |
| Endian.SwapValueInvolution | include/bserializer/serializer.h:288-291 | swapping a value's bytes twice restores it |
| Endian.ToFromLittleEndianRange | include/bserializer/serializer.h:390-402 | the array method leaves every element unchanged on a little-endian host and byte-swaps each in place on a big-endian host |
| Endian.ToFromLittleEndianTwice | include/bserializer/serializer.h:390-402 | a property of the array method, stated as a method of its own with no counterpart in the source: normalising an array twice leaves it as it was |
| LegacySwap.ToFromLittleEndian8 | Serializer.h:119-121 | on either host the 8-bit overload is the one-byte case of the byte-order normalisation `Endian.ToFromLittleEndian` |
| LegacySwap.ToFromLittleEndian16 | Serializer.h:122-127 | the shift formula keeps the value on a little-endian host and reverses its two bytes on a big-endian host |
| LegacySwap.ToFromLittleEndian32 | Serializer.h:128-137 | the shift-and-mask formula reverses the four bytes on a big-endian host and is the identity otherwise |
| LegacySwap.ToFromLittleEndian64 | Serializer.h:138-151 | the shift-and-mask formula reverses the eight bytes on a big-endian host and is the identity otherwise |
| LegacySwap.Swap16Reverses | Serializer.h:124 | `(v << 8) \| (v >> 8)` reverses the byte lanes of a 16-bit value |
| LegacySwap.Swap32Reverses | Serializer.h:130-134 | the four masked shifts reverse the byte lanes of a 32-bit value |
| LegacySwap.Swap64Reverses | Serializer.h:140-148 | the eight masked shifts reverse the byte lanes of a 64-bit value |
| LegacySwap.SwapsAreInvolutions | Serializer.h:122-151 | each swap formula applied twice restores its argument |
| LegacySwap.ToFromLittleEndianInvolutions | Serializer.h:152-163 | normalising twice restores a 16-, 32- or 64-bit value; the signed overloads cast through these |
| LegacySwap.PromotedOnLittle | Serializer.h:224-226 | on a little-endian host a `char`, `char8_t` or `char16_t`, promoted through the `int32_t` overload, is written as its little-endian image and read back unchanged |
| LegacySwap.PromotedOnBig | Serializer.h:158-160 | on a big-endian host the promoted `int32_t` swap leaves nothing of a character in the byte(s) kept by the conversion back: a non-negative character becomes 0, a negative one of a signed type becomes -1 |
| LegacySwap.CharOnBigEndianCounterexample | Serializer.h:224-226 | `'A'` as a `char` on a big-endian host is written as the byte `0x00`, and that byte is read back (lines 269-271) as 0 |
| BoolPack.Pack | include/bserializer/serializer.h:474-513 | the packed image of `n` bools is `ceil(n/8)` bytes |
| BoolPack.PackBit | include/bserializer/serializer.h:484-485 | element `j` is bit `j mod 8` of byte `j div 8` |
| BoolPack.PackRoundTrip | include/bserializer/serializer.h:580-604 | unpacking the packed image of `bs` gives back `bs` |
| BoolPack.PackAppend | include/bserializer/serializer.h:478-486 | packing a whole number of bytes' worth of elements and then the rest is the same as packing both together |
| BoolPack.WordImageIsPack | include/bserializer/serializer.h:479-483 | the little-endian image of the accumulated word, at the packed width, is the packed bytes |
| BoolPack.PackedBytesByGroups | include/bserializer/serializer.h:413-415 | `ceil(n/8)` is 8 bytes per full 64-element group plus the bytes of the remainder |
| BoolPack.TrailingBytes | include/bserializer/serializer.h:500-508 | the trailing byte count the packer picks lies between 1 and 8 |
| BoolPack.TailAsWrittenLittle | include/bserializer/serializer.h:499-511 | on a little-endian host the packer writes the image of the last word cut at its highest non-zero byte |
| BoolPack.TrailingCountCounterexample | include/bserializer/serializer.h:500-508 | ten `false` elements: the size promises 2 trailing bytes, the packer as written writes 1 |
| BoolPack.BigEndianTailCounterexample | include/bserializer/serializer.h:509-510 | on a big-endian host, `[true]` is written as `0x00` where the corrected packer writes `0x01` |
| BoolPack.TailWordAsWrittenLittle | include/bserializer/serializer.h:595-596 | on a little-endian host the unpacker's word agrees with the wire bytes on every wire bit |
| BoolPack.BigEndianUnpackCounterexample | include/bserializer/serializer.h:595-596 | on a big-endian host the byte `0x01` is unpacked as `false` |
| Codec.SerializedSize | include/bserializer/serializer.h:404-462 | size fails with `out_of_range` exactly when the value holds a valueless variant with no monostate alternative |
| Codec.ReadNat | include/bserializer/serializer.h:609-611 | a read number is below `256^w`, and the cursor moves by exactly `w` within the buffer |
| Codec.DecodeArith | include/bserializer/serializer.h:609-611 | a decoded arithmetic value is in range for its kind (a bool is 0 or 1), and the cursor moves by the width |
| Codec.DecodeCustom | include/bserializer/serializer.h:572-573 | a custom read yields an object and never moves the cursor outside the buffer |
| Codec.DecodeItems | include/bserializer/serializer.h:605 | the element loop yields exactly `n` more elements, and the cursor stays in the buffer |
| Codec.DecodeTuple | include/bserializer/serializer.h:293-301 | a tuple read yields one element per type, and the cursor stays in the buffer |
| Codec.Decode | include/bserializer/serializer.h:557-680 | decoding never moves the cursor backwards or past the end |
| CodecLaws.RoundTrip | include/bserializer/serializer.h:464-680 | `Deserialize` of what `Serialize` wrote gives back the value (a valueless variant comes back as the monostate) and stops where those bytes end, whatever follows |
| CodecLaws.CanonOfSettled | include/bserializer/serializer.h:344-366 | a value without valueless variants comes back unchanged |
| CodecLaws.ItemCollRoundTrip | include/bserializer/serializer.h:469-517 | a collection comes back with the same elements in iteration order |
| CodecLaws.BoolCollRoundTrip | include/bserializer/serializer.h:575-604 | a `bool` collection comes back element for element through the packed bits |
| CodecLaws.ArrayRoundTrip | include/bserializer/serializer.h:657-663 | a `std::array` comes back element for element |
| CodecLaws.PairRoundTrip | include/bserializer/serializer.h:613-647 | a pair comes back member for member |
| CodecLaws.ComplexRoundTrip | include/bserializer/serializer.h:651-656 | a complex number comes back as its real and imaginary parts |
| CodecLaws.TupleRoundTrip | include/bserializer/serializer.h:293-301 | a tuple comes back element for element |
| CodecLaws.OptionalRoundTrip | include/bserializer/serializer.h:664-668 | an optional comes back empty or holding the same payload |
| CodecLaws.AltRoundTrip | include/bserializer/serializer.h:344-366 | a variant comes back holding the same alternative index and payload |
| CodecLaws.ValuelessRoundTrip | include/bserializer/serializer.h:326-330 | a valueless variant with a monostate alternative comes back holding the monostate |
| CodecLaws.CustomRoundTrip | include/bserializer/serializer.h:572-573 | a type with its own operations comes back by its lawful read |
| CodecLaws.NumberRoundTrip | include/bserializer/serializer.h:518-522 | an arithmetic value, a duration or a time point comes back unchanged |
| CodecLaws.ItemsRoundTrip | include/bserializer/serializer.h:605 | the element loop reads back the elements that were written, appended after those already read |
| CodecLaws.ElemsRoundTrip | include/bserializer/serializer.h:293-301 | the tuple reader reads back each element in declared order |
| CodecFacts.EncodeSize | include/bserializer/serializer.h:404-462 | `SerializedSize` is exactly the number of bytes `Serialize` writes |
| CodecFacts.SeqSize | include/bserializer/serializer.h:418-420 | the summed element sizes are the length of the written elements |
| CodecFacts.TupleSize | include/bserializer/serializer.h:433-437 | the folded tuple size is the length of the written tuple |
| CodecFacts.SerializedSizeIsLength | include/bserializer/serializer.h:404-462 | size succeeds exactly for values that can be written, and then equals the length written |
| CodecFacts.SettledEncodable | include/bserializer/serializer.h:310-312 | a value without valueless variants never makes `SerializedSize` or `Serialize` throw |
| CodecFacts.DecodeTyped | include/bserializer/serializer.h:557-680 | whatever `Deserialize` returns is a well-typed value of the requested type with no valueless variant |
| CodecFacts.ItemsTyped | include/bserializer/serializer.h:605 | every element the collection loop reads is of the element type |
| CodecFacts.ElemsTyped | include/bserializer/serializer.h:293-301 | every tuple element read is of its declared type |
| CodecFacts.RoundTripSettled | include/bserializer/serializer.h:464-680 | a value without valueless variants is read back exactly from a buffer holding only its bytes |
| CodecFacts.Redecode | include/bserializer/serializer.h:557-680 | anything `Deserialize` returns can be written again and reads back to itself |
| Writer.SerializeRaw | include/bserializer/serializer.h:764-767 | copies `src` into the buffer at the cursor, changes nothing else, and advances the cursor by its length |
| Writer.WriteArith | include/bserializer/serializer.h:518-522 | writes the number's little-endian image at the cursor on either host, and advances by its width |
| Writer.WriteBools | include/bserializer/serializer.h:474-513 | the corrected packer writes exactly `Pack(bs)` and advances by `ceil(n/8)` |
| Writer.PackOne | include/bserializer/serializer.h:478-486 | one element of the packing loop keeps the packing invariant: full words flushed, the rest accumulated under mask `m` |
| Writer.FlushWord | include/bserializer/serializer.h:479-483 | flushing a full word appends its eight little-endian bytes to what was written |
| Writer.WritePartial | include/bserializer/serializer.h:499-511 | the last group is written as `k` little-endian bytes on either host |
| Writer.FlushLast | include/bserializer/serializer.h:498-512 | after the last group the buffer holds the whole packed image |
| Writer.Serialize | include/bserializer/serializer.h:464-555 | writes exactly `Encode(t, v)` at the cursor, changes nothing else, and advances by its length |
| Writer.SerializeColl | include/bserializer/serializer.h:469-517 | writes the count and then the elements, packed when they are bools |
| Writer.SerializePair | include/bserializer/serializer.h:523-526 | writes the first member and then the second |
| Writer.SerializeComplex | include/bserializer/serializer.h:532-535 | writes the real part and then the imaginary part |
| Writer.SerializeOptional | include/bserializer/serializer.h:539-545 | writes the presence flag and then the payload, if any |
| Writer.SerializeVariant | include/bserializer/serializer.h:323-342 | writes the index, or `SIZE_MAX` for a valueless variant, and then the payload of a non-monostate alternative |
| Writer.SerializeElems | include/bserializer/serializer.h:527-531 | writes a tuple's elements in declared order |
| Writer.SerializeArray | include/bserializer/serializer.h:709-717 | writes the elements one after another with no count |
| Writer.SerializedArraySize | include/bserializer/serializer.h:697-707 | the summed element sizes are the number of bytes `SerializeArray` writes |
| Reader.DeserializeRaw | include/bserializer/serializer.h:772-775 | copies `len` bytes from the cursor into the destination at `lo`, leaves the rest of the destination, and advances by `len` |
| Reader.LoadNat | include/bserializer/serializer.h:609-611 | a host load followed by normalisation yields the little-endian value of the wire bytes |
| Reader.ReadArith | include/bserializer/serializer.h:609-611 | reads an arithmetic value exactly as `DecodeArith` defines it, failing on a short buffer |
| Reader.ReadGroups | include/bserializer/serializer.h:584-591 | the full 64-element groups fill the array with the packed bits and consume 8 bytes per group |
| Reader.ReadOne | include/bserializer/serializer.h:585-590 | one element of the group loop stores its packed bit and reloads a word every 64 elements |
| Reader.ReadTail | include/bserializer/serializer.h:592-603 | the remaining elements take `ceil(rem/8)` bytes, are filled with their packed bits, and leave the earlier elements alone |
| Reader.ReadBools | include/bserializer/serializer.h:580-604 | the corrected unpacker fills the array with `Unpack` of the wire and consumes `ceil(n/8)` bytes |
| Reader.UnpackIsPackedBits | include/bserializer/serializer.h:580-604 | an array whose element `j` is the packed bit `j` is the unpacked image |
| Reader.Deserialize | include/bserializer/serializer.h:557-687 | returns exactly `Decode(t)` at the cursor, including every error |
| Reader.DeserializeColl | include/bserializer/serializer.h:575-608 | reads the count and then the packed bits or the elements into a local array |
| Reader.DeserializePair | include/bserializer/serializer.h:613-647 | reads the first member and then the second, whatever their sizes |
| Reader.DeserializeOptional | include/bserializer/serializer.h:664-668 | reads the flag and then the payload only when the flag is non-zero |
| Reader.DeserializeVariant | include/bserializer/serializer.h:344-382 | reads the index, fails with `out_of_range` on an unknown index without a monostate, and otherwise reads that alternative |
| Reader.DeserializeElems | include/bserializer/serializer.h:293-301 | reads a tuple's elements in declared order |
| Reader.DeserializeArray | include/bserializer/serializer.h:719-727 | reads `n` elements into consecutive array slots |
| Legacy.Read | Serializer.h:245-292 | a successful read leaves the cursor within the buffer and no earlier than it started |
| Legacy.ReadItems | Serializer.h:257-266 | the insert loop never moves the cursor backwards or past the end |
| Legacy.ReadTuple | Serializer.h:168-177 | a tuple read yields one element per type |
| LegacyLaws.WrittenSize | Serializer.h:179-243 | the older `SerializedSize` is exactly the number of bytes the older `Serialize` writes |
| LegacyLaws.SeqWrittenSize | Serializer.h:184-190 | the iterable's summed element sizes are the length of its written elements |
| LegacyLaws.TupleWrittenSize | Serializer.h:199-205 | the tuple's folded size is the length of its written elements |
| LegacyLaws.FirstPerKeyInsert | Serializer.h:257-262 | inserting one more entry by key into the map built from earlier entries gives the first entry for each key of all of them, in the order they came |
| LegacyLaws.MapReadKeepsFirstPerKey | Serializer.h:250-268 | a unique-key map (`std::map`, `std::unordered_map`) read from any bytes holds, in wire order, the first entry for each key among the entries a plain read of the same bytes yields; it ends where that read ends and fails exactly where it fails |
| LegacyLaws.InsertKeepsKeysDistinct | Serializer.h:260-262 | inserting into a map never creates a second entry for a key |
| LegacyLaws.ReadMapKeysDistinct | Serializer.h:250-267 | a deserialized unique-key map never holds two entries with one key, whatever the wire |
| LegacyLaws.DuplicateKeyKeepsFirst | Serializer.h:260-262 | a wire map `{1:5, 1:7}` is read into a unique-key map as `{1:5}`: the first entry for a key wins |
| LegacyLaws.DuplicateKeyMultimapKeepsBoth | Serializer.h:260-262 | the same wire map read into a multimap keeps both entries, in the order read |
| LegacyLaws.HostRoundTrip | Serializer.h:224-232 | raw host bytes of a number read back on the same host give the number |
| LegacyLaws.FloatAcrossHosts | Serializer.h:229-232 | a float written on one host reads back unchanged on a host of the same order and byte-swapped on the other |
| LegacyLaws.FloatSwappedExample | Serializer.h:274-279 | a big-endian 4-byte `1` is read on a little-endian host as `0x1000000` |
| LegacyLaws.RoundTrip | Serializer.h:209-292 | the older `Deserialize` of what the older `Serialize` wrote, on the same host, for fixed-width integers, gives back the value and stops where its bytes end |
| LegacyLaws.LeafRoundTrip | Serializer.h:224-232 | fixed-width integers, floats and types with their own operations read back |
| LegacyLaws.IntegralRoundTrip | Serializer.h:269-273 | a fixed-width integer (one of the eight types with its own overload) reads back from its little-endian bytes |
| LegacyLaws.FloatingRoundTrip | Serializer.h:274-279 | a float reads back from the host's own bytes on the same host |
| LegacyLaws.BuiltInRoundTrip | Serializer.h:247-249 | a type with its own operations reads back by its lawful `Deserialize` |
| LegacyLaws.IterableRoundTrip | Serializer.h:250-267 | an iterable comes back with the same elements in order; for a map, with keys distinct as written |
| LegacyLaws.PairRoundTrip | Serializer.h:280-287 | a pair comes back member for member |
| LegacyLaws.TupleOfRoundTrip | Serializer.h:288-290 | a tuple comes back element for element |
| LegacyLaws.ItemsRoundTrip | Serializer.h:257-266 | the insert loop rebuilds the written elements in order after what it already holds |
| LegacyLaws.FreshEntry | Serializer.h:260-265 | the next written entry is appended, because its key is not yet present |
| LegacyLaws.TupleRoundTrip | Serializer.h:168-177 | the first-then-rest tuple reader reads back every element |
| LegacyIO.SerializedSize | Serializer.h:179-207 | the size loop returns `SizeOf`, which `WrittenSize` ties to the bytes written |
| LegacyIO.SizeOfElems | Serializer.h:199-205 | the tuple fold returns the sum of the element sizes |
| LegacyIO.Serialize | Serializer.h:209-243 | writes exactly `Written(t, v)` at the cursor, changes nothing else, and advances by its length |
| LegacyIO.SerializeIterable | Serializer.h:214-222 | reserves the count slot, writes the elements, then back-patches the count; the result is the count followed by the elements |
| LegacyIO.SerializeElements | Serializer.h:218-221 | writes each element in turn and counts them: the count equals the number of elements |
| LegacyIO.SerializeElems | Serializer.h:237-240 | writes a tuple's elements in declared order |
| LegacyIO.Deserialize | Serializer.h:245-292 | returns exactly `Read(t)` at the cursor, including every error |
| LegacyIO.ReadFloating | Serializer.h:274-279 | copies `w` host bytes into a float, or fails when fewer than `w` remain |
| LegacyIO.DeserializeIterable | Serializer.h:250-267 | inserts `len` elements one by one into a local collection, as `ReadItems` defines |
| LegacyIO.DeserializeTuple | Serializer.h:168-177 | reads the first element and then the rest, as `ReadTuple` defines |
| Scenarios.UInt64RoundTrip | tests/main.cpp:7-21 | for `24523485222452345`: size 8, `Serialize` moves the cursor 8, and `Deserialize` returns the same number and moves 8 |
| Scenarios.SentSetSize | tests/main.cpp:23-29 | the set `{3, 4, 4523425934582345}` has serialized size 32 |
| Scenarios.UInt64SetRoundTrip | tests/main.cpp:23-40 | for that set: size 32, `Serialize` moves 32, and `Deserialize` returns the same elements and moves 32 |

## Left out

- Memory: `malloc`/`free`, placement `new`, `reserve` and `const_cast` overloads are not modelled. The input buffer is a `seq<byte>`; the output buffer is an `array<byte>` with the cursor as an index.
- Reading past the end: the source does no bounds check and reads past the end of the buffer, which is undefined behaviour. The model returns `Truncated` instead.
- Floating point: floats and doubles are carried as their bit patterns (`Num(bits)`). Signed integers are carried as their two's-complement bit patterns.
- Host detection: `std::endian::native` is a parameter.
- Custom types: the operations of a type with its own serialization are functions in a `Customs` record. They are not modelled further. Round trips require the record to be `Lawful`. A custom read that fails is modelled as `Rejected`. The model assumes that the custom `Serialize` and `Deserialize` take the cursor by reference and advance it past the bytes they write or read. The signatures documented in Serializable.h (lines 17-22) take `void* Data` and `const void* Data` by value. With those, the calls at include/bserializer/serializer.h lines 467 and 573 and Serializer.h lines 212 and 248 leave the cursor where it was, so the next component overwrites, or reads again, the custom bytes. The model does not capture that.
- `size_t` overflow of sizes and counts is not modelled. Counts are required to fit in 64 bits.
- `std::tuple<>`: it has no deserializer in either header, so the model excludes it from `Decodable`/`Readable`.
- Collections: a collection is rebuilt in the model as the sequence of elements read. The source rebuilds it through its constructor (`initializer_list`), or through `insert` in the older header. Set de-duplication, sorted order in `std::set`/`std::map`, and hash order in unordered containers are therefore not modelled.
- Writer.Serialize: requires the value to be encodable, so the `std::out_of_range` that the variant helper throws (include/bserializer/serializer.h line 330) for a valueless variant with no `std::monostate` alternative is not modelled, nor are the bytes of earlier components already written by then. The same inputs make `SerializedSize` throw first (line 312); `Codec.SerializedSize` models that throw, and `CodecFacts.SerializedSizeIsLength` shows it happens exactly on the values `Writer.Serialize` excludes.
- Writer.SerializeVariant: excludes the same throw, for the same reason.
- Codec.DecodeArith: a `bool` byte other than 0 or 1 is read as `true`. In C++ reading such a byte as `bool` is undefined behaviour, which the model does not represent.
- Shapes.SerializableIsSupported: the newer header takes its concepts from its own serializable.h, which is not part of this model. `Supported` assumes its collection branch takes every collection whose element type is handled. Under the traits of Serializable.h, a map keyed by a pair, a tuple or a custom type is serializable only through the map trait (`Shapes.MapCollectionByKey`), while the dispatch at include/bserializer/serializer.h lines 409, 469 and 575 tests the collection trait. If serializable.h has the same traits, such a map has no branch there, yet the lemma counts it as handled.
- Repeated alternative types in a variant: a type descriptor does not tell apart C++ types of one width and signedness (`int` and `long` where both are 32-bit, `double` and `long double` where they agree), so the model admits variants whose descriptors repeat and reads them back by index. A variant that repeats one C++ type (`std::variant<int, int>`, or two `std::monostate` alternatives) is still sized and written by the source, but its Deserialize does not compile, because the converting construction from the alternative's type (include/bserializer/serializer.h line 360) or from `std::monostate()` (lines 348 and 357) is ambiguous. The model does not capture that compile-time rejection.
- Scenarios.UInt64SetRoundTrip: the set's iteration order is fixed to one order. `x == y` in the test is set equality; the model compares sequences in that order.
- Legacy.Insert: a non-map container inserts at `end()`, which the model treats as append. A `std::set` would instead ignore duplicates and keep its own order. For unique-key maps, the model keeps the first entry for a key, like `std::map::insert`. `std::multimap` and `std::unordered_multimap` also satisfy `details::IsMap` (Serializer.h lines 36-42), but their `insert` keeps every entry. The model reads them as unkeyed iterables (`keyed` false), in the order read, as `LegacyLaws.DuplicateKeyMultimapKeepsBoth` shows; their key order is not modelled.
- LegacyLaws.MapReadKeepsFirstPerKey: holds for unique-key maps only. A multimap is read with `keyed` false and keeps every entry.
- LegacyLaws.ReadMapKeysDistinct: holds for unique-key maps only. A multimap keeps repeated keys.
- The older header's `Serializable<_T>` checks (Serializer.h lines 181, 211 and 247) name the newer concept where `BuiltInSerializable` is meant. The model uses the intended test: a type with its own operations.
- The older header's recursive calls `Serialize(v, Data)`, `Serialize(Value.first, Data)`, `Serialize(Value.second, Data)` and `Serialize(args, Data)` (Serializer.h lines 219, 234-235 and 239) swap the two arguments and do not compile. The model writes each element at the cursor as intended.
- Legacy integers: the older header normalises integers with shift-and-mask formulas. `LegacySwap` proves these equal byte reversal on `bv16`/`bv32`/`bv64`. `Legacy` then uses the byte-reversal form. `Legacy.Integral` stands for the eight fixed-width types that have an overload (Serializer.h lines 119-163).
- Legacy.Written: covers the eight fixed-width integer types. `char`, `char8_t` and `char16_t` match no overload exactly and are promoted to `int`. On a big-endian host they are then written as zero bytes (see Findings). `Legacy` models the intended little-endian image. The as-written form is `LegacySwap.PromotedWritten8`/`PromotedWritten16`.
- LegacyIO.Serialize: writes the intended little-endian image for promoted character types, not the zero bytes the source writes on a big-endian host (see Findings).
- LegacyIO.Deserialize: reads promoted character types as intended, not as the 0 or -1 the source returns on a big-endian host (see Findings).
- LegacyLaws.RoundTrip: proved for fixed-width integers. On a big-endian host the source breaks it for promoted character types (see Findings).
- LegacyLaws.LeafRoundTrip: the same restriction as `LegacyLaws.RoundTrip`.
- LegacyLaws.IntegralRoundTrip: the same restriction as `LegacyLaws.RoundTrip`.
- `long` where it is 32-bit next to `int`, and `long long` where it is 64-bit next to `long`, match no overload exactly. Both conversions are equally ranked, so the calls at Serializer.h lines 225 and 270 are ambiguous and do not compile for them. The model does not capture that rejection. `bool` is promoted too, but any non-zero result converts back to `true`, so it survives the swap.
- The bool packer and unpacker used by the rest of the model (`Writer.WriteBools`, `Reader.ReadBools`) are the corrected ones. The as-written forms are in `BoolPack` and appear under Findings.
- The (Lower, Upper) and (Array, Length) overloads of the array and raw helpers share one model each (`Writer.SerializeArray`, `Reader.DeserializeArray`, `Writer.SerializeRaw`, `Reader.DeserializeRaw`). `SerializedRawSize` returns `sizeof` or the address difference and is not modelled separately.

## Findings

| source | as written | input that shows it | evidently intended | confidence | as-written member | corrected member |
|---|---|---|---|---|---|---|
| include/bserializer/serializer.h:500-508 | the trailing byte count is the number of significant bytes of the last word | ten `false` elements: `SerializedSize` counts 2 bytes after the count, the packer writes 1, and the reader consumes 2 | write `ceil(rem/8)` bytes, as `SerializedSize` (lines 413-415) and the unpacker (line 594) expect | not executed | BoolPack.TrailingCountCounterexample | Writer.WriteBools |
| include/bserializer/serializer.h:509-510 | on a big-endian host, the first `i` bytes of the word's big-endian memory are reversed and copied | `[true]` on a big-endian host: the word is `1`, and the byte written is `0x00` | write the low `i` bytes little-endian, as the full words are written | not executed | BoolPack.BigEndianTailCounterexample | Writer.WritePartial |
| include/bserializer/serializer.h:595-596 | the unpacker copies the wire bytes over the first bytes of the previous word's memory and reverses them in place on a big-endian host | wire byte `0x01` for one element on a big-endian host: it is read back as `false` | read the `i` wire bytes as a little-endian number | not executed | BoolPack.BigEndianUnpackCounterexample | Reader.ReadTail |
| Serializer.h:224-226 | `char`, `char8_t` and `char16_t` are promoted to `int`, pass through `toFromLittleEndian(int32_t)` (lines 158-160, then 128-136), and are truncated back to their own width | `'A'` (`0x41`) as a `char` on a big-endian host: the swap gives `0x41000000`, the `char` keeps `0x00`, so the byte written is `0x00`, and reading it back (lines 269-271) gives 0 | write and read the little-endian image, as the fixed-width overloads do | not executed | LegacySwap.CharOnBigEndianCounterexample | LegacyLaws.IntegralRoundTrip |
