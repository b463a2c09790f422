# Verification of the firmware's codec, allocators and kernel objects

A Dafny model of four parts of the firmware, with the properties its users rely on proved for all
inputs, all runs or all reachable states.

- **nanopb codec** (`Words`, `Varint`, `Proto`, `Encoding`, `Decoding`, `Layout`, `Endings`, `Merging`,
  `RoundTrip`, `RoundTripExact`, `WireFormat`, `Evolution`, `Capacity`, `FieldIterator`,
  `RequiredBitmap`, `Encoder`, `Decoder`). `Encoding` and `Decoding` say as functions what the encoder
  puts on the wire and what the decoder makes of any bytes. `Encoder` and `Decoder` are the code as
  it runs: streams whose pointers and counters advance, the schema iterator, substreams, the sizing
  stream, the required-field bitmap; each operation is proved to compute those functions, failures
  included. The theorems are about the functions: what decoding does with an encoded message
  (exactly when it comes back unchanged), that neither the layout of the input nor the way a field
  is written matters, what arrives when sender and receiver have different versions of a schema,
  where a message ends, and that whatever is received stays inside its arrays and can be sent on.
- **Heaps and the block pool** (`Ring`, `Tiling`, `Blocks`, `HighWater`, `MemHeap`, `SmallMem`, `Chain`,
  `MemPool`). Each heap is a class with the header fields and the pool bytes; a ghost list of
  blocks says what the links mean. The lemmas of `Blocks` say what cutting, joining and resizing
  do to a pool; the methods are the link surgery of the code, and show that no operation touches
  another live payload.
- **Kernel objects** (`Waiting`, `MessageQueue`, `Mailbox`, `Event`, `Mutex`). Each method is one region
  between disabling and enabling interrupts, and is called for a thread that comes new or was
  woken; blocking is going to sleep in one step and looking again in a later one. The invariants
  hold between any two steps, so under every interleaving.
- **SEGGER RTT** (`RingBuffer`, `Rtt`). The ring buffers with the debug host as a second party
  that reads, or writes any number of pieces, between any two steps of the target.

Where a plain claim does not hold of the code, its exact condition is proved instead, next to an
input or a run that breaks it:

- A message whose string fills its array is encoded and then refused (`AnyLayoutOutcome`,
  `FullStringRefused`).
- A key cut short by the end of the input goes unnoticed up to five bytes of it (`CutKeyIgnored`,
  `CutKeyAccepted`).
- A nested message that a zero key ends early leaves the rest of its bytes to the enclosing message
  (`NestedZeroEnds`).
- A shrinking `rt_realloc` can leave free memory below `lfree`, where `rt_malloc` does not look
  (`Shrink`, `ShrinkLosesLow`).
- The nesting counter of a mutex holds 255 takes, and one more wraps it (`TakeInv`, `TakeOverflow`).
- A FIFO mutex can be handed to a thread less urgent than another waiter (`HandOffInherits`,
  `FifoLosesInheritance`).
- A mutex owner keeps its boost when the waiter that caused it times out (`ExpireBoost`,
  `TimeoutKeepsBoost`).

`rt_mp_alloc` is modelled as coded although a reader may expect otherwise: it puts a waiting thread
in front of the others, so the last to come is served first.

`dafny verify dfyconfig.toml` covers the whole project.

## Model

| member | source | states |
|---|---|---|
| Varint.RoundTrip64 | packages/nanopb-v1.0.0/pb_decode.c:196-216 | every 64-bit value, encoded and followed by anything, is read back by the 64-bit reader, which stops right behind it |
| Varint.RoundTrip32 | packages/nanopb-v1.0.0/pb_decode.c:160-194 | the same for every 32-bit value and the 32-bit reader |
| Varint.EncodedSize | packages/nanopb-v1.0.0/pb_encode.c:392-409 | a 64-bit value takes 1 to 10 bytes, a 32-bit value at most 5 |
| Varint.EncodeFormat | packages/nanopb-v1.0.0/pb_encode.c:392-409 | the encoder writes the shortest varint of the value: base-128 digits, the least significant first, the top bit set on all but the last byte |
| Varint.EncodeLength | packages/nanopb-v1.0.0/pb_encode.c:392-409 | a value takes k bytes or fewer if and only if it is below 2^(7k) |
| Varint.NegativeLength | packages/nanopb-v1.0.0/pb_encode.c:554-570 | a negative number takes ten bytes, whatever the size of its type |
| Varint.Meaning64 | packages/nanopb-v1.0.0/pb_decode.c:196-216 | any varint, as short as possible or not, followed by anything: up to ten bytes it reads as its base-128 value modulo 2^64, and a longer one is refused |
| Varint.Meaning32 | packages/nanopb-v1.0.0/pb_decode.c:160-194 | the same for up to five bytes and 2^32 |
| Varint.Decode32AgreesWith64 | packages/nanopb-v1.0.0/pb_decode.c:160-216 | on every byte string the 32-bit reader accepts, the 64-bit reader accepts too, consumes the same bytes and agrees modulo 2^32 |
| Varint.Decode64Range | packages/nanopb-v1.0.0/pb_decode.c:196-216 | what the 64-bit reader returns fits 64 bits, whatever the input |
| Varint.Decode32Range | packages/nanopb-v1.0.0/pb_decode.c:160-194 | what the 32-bit reader returns fits 32 bits, whatever the input |
| Varint.ZigZagRoundTrip | packages/nanopb-v1.0.0/pb_decode.c:954-966 | every signed 64-bit value survives zigzag coding |
| Varint.UnZigZagRoundTrip | packages/nanopb-v1.0.0/pb_encode.c:411-420 | every 64-bit pattern is the zigzag code of the value it decodes to |
| Varint.ZigZagValue | packages/nanopb-v1.0.0/pb_encode.c:411-420 | the zigzag code is twice a number from zero up, and 1, 3, 5, ... from minus one down |
| Varint.SignExtendRoundTrip | packages/nanopb-v1.0.0/pb_encode.c:554-570 | sign extension to 64 bits and truncation to the field width give every signed value back |
| Layout.FindComplete | packages/nanopb-v1.0.0/pb_common.c:71-88 | from any position the cyclic search finds a tag if and only if the schema has it |
| Layout.FindUnique | packages/nanopb-v1.0.0/pb_common.c:71-88 | with distinct tags the search finds the one field with the tag, from any position |
| Layout.SeenProject | packages/nanopb-v1.0.0/pb_decode.c:818-822 | a required field is marked as seen exactly if it was before or a record for it was read |
| Layout.LoopOverRecords | packages/nanopb-v1.0.0/pb_decode.c:763-826 | the decoding loop over whole records, whatever follows them, ends behind them with each field holding what its own records say |
| Layout.DecodeRecords | packages/nanopb-v1.0.0/pb_decode.c:763-859 | pb_decode on records, each taken whole or refused by its field, succeeds if and only if none is refused and every required field is on the wire, and then consumes everything and leaves in each field what its records say |
| Layout.ReadableDecidable | packages/nanopb-v1.0.0/pb_decode.c:763-826 | input whose records are all taken whole is among the input that the layout results cover |
| Layout.LoopRefuses | packages/nanopb-v1.0.0/pb_decode.c:763-826 | the decoding loop fails on records of which one is refused by its field, wherever it stands and whatever follows |
| Layout.LayoutIndependence | packages/nanopb-v1.0.0/pb_decode.c:763-826 | two inputs with the same records per field, in the same order within a field, decode to the same message or are both refused: records may be permuted across fields, and unknown ones inserted, moved or dropped |
| Layout.LoopOnMessage | packages/nanopb-v1.0.0/pb_decode.c:763-859 | records that are all taken whole, read over whatever the struct holds: accepted if and only if each required field has one |
| Layout.SkippableExactly | packages/nanopb-v1.0.0/pb_decode.c:264-277 | the records that are skipped are exactly a key with a tag outside the schema followed by one payload of its wire type, with keys, varints and lengths of any accepted length |
| Endings.CutKeyIgnored | packages/nanopb-v1.0.0/pb_decode.c:238-262 | behind whole records a key cut short by the end of the input is taken for a clean end exactly up to five bytes of it |
| Endings.CutVarint | packages/nanopb-v1.0.0/pb_decode.c:160-194 | continuation bytes up to the end of the input are an error with nothing left exactly as long as the register is not full |
| Endings.CutKeyAccepted | packages/nanopb-v1.0.0/pb_decode.c:238-262 | an input cut inside its second key that pb_decode accepts |
| Endings.CutAnywhere | packages/nanopb-v1.0.0/pb_decode.c:763-859 | whole records and then one that the end of the input cuts short: cut inside its payload the input is refused; cut inside its key the message is what the records before it say |
| Endings.ZeroEnds | packages/nanopb-v1.0.0/pb_decode.c:775-790 | a zero byte in place of a key ends the message, and what follows it stays unread |
| Endings.NestedZeroEnds | packages/nanopb-v1.0.0/pb_decode.c:309-331 | after a zero key inside a nested message the enclosing message goes on right behind the zero, and as many bytes are missing at its end |
| Merging.NestedMerge | packages/nanopb-v1.0.0/pb_decode.c:1144-1165 | two records of a nested message are read as one with the bodies joined if and only if each brings the required fields, else the second is refused |
| Merging.NestedOver | packages/nanopb-v1.0.0/pb_decode.c:1144-1165 | a record of a nested message is read over what the field holds |
| Merging.RunAllConcat | packages/nanopb-v1.0.0/pb_decode.c:763-826 | reading records in two goes leaves what reading them in one does |
| WireFormat.SignedMeaning | packages/nanopb-v1.0.0/pb_decode.c:1010-1026 | any varint of up to ten bytes in a signed field of 1, 2, 4 or 8 bytes: accepted, and read as the value of the type that is the same modulo its span |
| WireFormat.UnsignedMeaning | packages/nanopb-v1.0.0/pb_decode.c:1028-1042 | the same for unsigned fields of 4 or 8 bytes |
| WireFormat.ZigZagMeaning | packages/nanopb-v1.0.0/pb_decode.c:1044-1058 | the same for zigzag fields: even words count up from zero, odd ones down from minus one |
| WireFormat.OtherSizes | packages/nanopb-v1.0.0/pb_decode.c:1010-1058 | an integer field of any other size is refused by both sides |
| WireFormat.Resized | packages/nanopb-v1.0.0/pb_encode.c:554-603 | an integer that fits the types of both sides arrives when they disagree on its size |
| WireFormat.ScalarBytes | packages/nanopb-v1.0.0/pb_encode.c:456-492 | the bytes of records of field 1: an unsigned 150 is 08 96 01, a zigzag -2 is 08 03 |
| WireFormat.FixedBytes | packages/nanopb-v1.0.0/pb_encode.c:605-613 | the bytes of the fixed-size records of field 1: keys 0D and 09, then the contents |
| WireFormat.StringBytes | packages/nanopb-v1.0.0/pb_encode.c:615-655 | the bytes of a bytes record and of a string record of field 2, the string cut at its first zero |
| WireFormat.NestedBytes | packages/nanopb-v1.0.0/pb_encode.c:657-664 | the bytes of a nested message in field 3 |
| WireFormat.PackedBytes | packages/nanopb-v1.0.0/pb_encode.c:125-167 | the bytes of a packed array in field 4 |
| WireFormat.RecordCount | packages/nanopb-v1.0.0/pb_encode.c:112-258 | a present value makes one record, an array of scalars one in all, any other array one per item; absent and empty fields make none |
| WireFormat.SchemaOrder | packages/nanopb-v1.0.0/pb_encode.c:349-371 | a field behind the others in the schema goes out behind them |
| WireFormat.OwnSkips | packages/nanopb-v1.0.0/pb_encode.c:462-492 | the wire type in the key is that of the payload: skipping by it gets exactly past every value the encoder writes, whatever follows |
| WireFormat.PieceSkippable | packages/nanopb-v1.0.0/pb_decode.c:218-277 | a record written with the field's own wire type is skipped by every reader whose schema lacks the tag |
| RoundTrip.ValRoundTrip | packages/nanopb-v1.0.0/pb_decode.c:1010-1165 | the payload of every value, whatever follows it, is decoded to the value in canonical form, nested messages included |
| RoundTrip.SlotRoundTrip | packages/nanopb-v1.0.0/pb_decode.c:337-402 | the records that the encoder writes for a field, packed arrays included, restore it from its default |
| RoundTrip.BytesOutcome | packages/nanopb-v1.0.0/pb_decode.c:1072-1107 | a bytes field takes exactly what leaves room for the size in front of it, and refuses more |
| RoundTrip.StringOutcome | packages/nanopb-v1.0.0/pb_decode.c:1109-1142 | a string comes back up to its first zero, and is refused exactly if there is no room for the zero behind it |
| RoundTrip.PackedOutcome | packages/nanopb-v1.0.0/pb_decode.c:355-381 | a packed body adds all its items behind those that are there, or is refused, and that exactly if the array would overflow |
| RoundTrip.LastTaken | packages/nanopb-v1.0.0/pb_decode.c:341-353 | a field that is not an array, written several times under any wire types, ends up with the last value |
| RoundTrip.OwnSpelling | packages/nanopb-v1.0.0/pb_encode.c:112-258 | what the encoder writes for a field is one of the ways to write it |
| RoundTrip.AnyLayoutRoundTrip | packages/nanopb-v1.0.0/pb_decode.c:763-859 | the records of a message restore it however each field is written (arrays packed, item by item or in any mixture, scalars more than once, under any wire type), in any order across fields, with skippable records in between |
| RoundTrip.MsgRoundTrip | packages/nanopb-v1.0.0/pb_decode.c:763-873 | decoding what pb_encode wrote succeeds, consumes every byte and gives the message back in canonical form, for every schema and nesting |
| RoundTripExact.MsgFailure | packages/nanopb-v1.0.0/pb_decode.c:1109-1142 | a message with a string that fills its array at any depth encodes to bytes that pb_decode refuses |
| RoundTripExact.FullStringRefused | packages/nanopb-v1.0.0/pb_decode.c:1109-1142 | a message that pb_encode accepts and pb_decode refuses |
| RoundTripExact.AnyLayoutOutcome | packages/nanopb-v1.0.0/pb_decode.c:763-859 | the outcome for the records of any message, however each field is written, in any order across fields and with skippable records in between: the canonical form, or refusal, and that exactly if a string has no room for its zero or an array more items than the receiver has room for |
| RoundTripExact.PiecesOutcome | packages/nanopb-v1.0.0/pb_decode.c:355-392 | an array of any type takes all items in order from any mixture of packed and unpacked records, or is refused, and that if and only if the total passes the size of the array or a value is refused on its own |
| RoundTripExact.SpelledOutcome | packages/nanopb-v1.0.0/pb_decode.c:337-402 | the outcome for the records of one field, however it is written |
| RoundTripExact.DecodeAfterEncode | packages/nanopb-v1.0.0/pb_decode.c:763-873 | the outcome of decoding an encoded message, for every message the encoder accepts |
| RoundTripExact.MsgCanon | packages/nanopb-v1.0.0/pb_encode.c:349-371 | a message fits its descriptor exactly if its strings end inside their arrays and sending it loses nothing |
| RoundTripExact.RoundTripIffFits | packages/nanopb-v1.0.0/pb_decode.c:763-873 | decoding undoes encoding exactly on the messages that fit: strings without zeros and with room for one, absent optionals at their defaults |
| RoundTripExact.EncodingInjective | packages/nanopb-v1.0.0/pb_encode.c:349-371 | two fitting messages with the same encoding are the same message |
| RoundTripExact.CanonFits | packages/nanopb-v1.0.0/pb_decode.c:763-873 | what was received fits its descriptor |
| RoundTripExact.Resend | packages/nanopb-v1.0.0/pb_encode.c:349-371 | what was received is accepted by the encoder, makes the same bytes as before and is received unchanged |
| Evolution.SchemaEvolution | packages/nanopb-v1.0.0/pb_decode.c:763-859 | a message sent with one schema and received with another that uses no tag for something else: the shared fields arrive, the sender's others are skipped, the receiver's others stay absent; refused exactly if the receiver requires a field the sender lacks, or a shared field has an unterminated string or too many items |
| Evolution.FewerFields | packages/nanopb-v1.0.0/pb_decode.c:792-800 | a receiver that has only some of the sender's fields gets exactly those, in canonical form, and consumes every byte |
| Evolution.RecordsSkippable | packages/nanopb-v1.0.0/pb_decode.c:218-277 | every record of a field is skipped by a receiver that lacks the tag |
| Evolution.SameSpelling | packages/nanopb-v1.0.0/pb_encode.c:112-258 | a way to write a field does not depend on its place, its array size or its default |
| Capacity.ReceivedWithin | packages/nanopb-v1.0.0/pb_decode.c:763-873 | whatever the input: at every depth what was read is inside its array (bytes behind the size, a string in front of its zero), no array has more items than room, and an optional field marked absent holds its initial value |
| Capacity.NotSent | packages/nanopb-v1.0.0/pb_decode.c:698-757 | a field without records in an accepted input is not required, and is absent or empty with its default, or cleared memory, at every depth |
| Capacity.DefaultInitial | packages/nanopb-v1.0.0/pb_decode.c:698-757 | before anything is read a field is absent or empty, with its default, or cleared memory, at every depth |
| Capacity.MsgWithinOk | packages/nanopb-v1.0.0/pb_encode.c:349-371 | a message inside its arrays is one that the encoder accepts and whose strings are terminated |
| Capacity.Forwarded | packages/nanopb-v1.0.0/pb_decode.c:763-873 | whatever the input: a message that pb_decode accepts is one that pb_encode accepts, and what is sent on is received in canonical form |
| FieldIterator.FollowsStruct | packages/nanopb-v1.0.0/pb_common.c:40-66 | descriptors that give each field by the gap behind the one before, arrays counting in full, take the iterator to where the struct has the fields |
| FieldIterator.FieldsDisjoint | packages/nanopb-v1.0.0/pb_common.c:20-69 | two fields of a struct lie behind one another, with the gap of the later one in between |
| FieldIterator.WordsDisjoint | packages/nanopb-v1.0.0/pb_common.c:54-69 | a has_ flag or _count that lies in the gap before its field overlaps no field and no other flag or count |
| FieldIterator.ReqCountMonotone | packages/nanopb-v1.0.0/pb_common.c:20-69 | the required-field index tells required fields apart |
| FieldIterator.Iterator.constructor | packages/nanopb-v1.0.0/pb_common.c:8-18 | the iterator starts at the first field with the addresses of its data and of its flag or count, and no required field behind it |
| FieldIterator.Iterator.Next | packages/nanopb-v1.0.0/pb_common.c:20-69 | a step goes to the next field or wraps to the first, and keeps both addresses and the count of required fields before it |
| FieldIterator.Iterator.Search | packages/nanopb-v1.0.0/pb_common.c:71-88 | the search stops after at most one lap, on the first match in cyclic order or where it began |
| Encoder.OStream.Write | packages/nanopb-v1.0.0/pb_encode.c:87-108 | a write succeeds exactly if it fits, changes just the bytes behind the last one, and in a sizing stream only counts |
| Encoder.FillVarint | packages/nanopb-v1.0.0/pb_encode.c:392-409 | the loop over the varint buffer leaves the encoding in it |
| Encoder.EncodeVarint | packages/nanopb-v1.0.0/pb_encode.c:392-409 | writes the encoding of the value, or fails exactly if it does not fit |
| Encoder.EncodeTag | packages/nanopb-v1.0.0/pb_encode.c:456-460 | writes the key of a tag and a wire type |
| Encoder.EncodeString | packages/nanopb-v1.0.0/pb_encode.c:494-500 | writes a length and the bytes |
| Encoder.StringLength | packages/nanopb-v1.0.0/pb_encode.c:631-655 | the scan finds the first zero within the array, or the whole array |
| Encoder.EncodeVal | packages/nanopb-v1.0.0/pb_encode.c:554-664 | each value coder writes the payload of the wire format or fails exactly on a wrong size or a full stream |
| Encoder.EncodeSubmessage | packages/nanopb-v1.0.0/pb_encode.c:502-550 | the length prefix is the length of the body, and the size check behind the body never fails |
| Encoder.GetEncodedSize | packages/nanopb-v1.0.0/pb_encode.c:378-387 | the sizing stream counts exactly the bytes that pb_encode writes, and fails exactly on the messages it refuses |
| Encoder.PackedSize | packages/nanopb-v1.0.0/pb_encode.c:131-152 | the computed size of a packed array is the length of its items |
| Encoder.EncodePacked | packages/nanopb-v1.0.0/pb_encode.c:125-167 | a packed array is written as one record whose length prefix is the length of the items |
| Encoder.EncodeItemRecords | packages/nanopb-v1.0.0/pb_encode.c:168-194 | an unpacked array is written as one record per item |
| Encoder.EncodeField | packages/nanopb-v1.0.0/pb_encode.c:201-258 | a field is written as its records: required always, optional if present, repeated up to the array size; what these are as bytes and as wire types say the lemmas of WireFormat |
| Encoder.EncodeMessage | packages/nanopb-v1.0.0/pb_encode.c:349-371 | pb_encode succeeds exactly if no field is in error and everything fits, and then has written the records of all fields in schema order |
| RequiredBitmap.MarkSeen | packages/nanopb-v1.0.0/pb_decode.c:818-822 | sets one bit of the bitmap and no other |
| RequiredBitmap.AllSeen | packages/nanopb-v1.0.0/pb_decode.c:846-855 | the byte-wise test with its partial last byte holds exactly if the first n bits are set |
| RequiredBitmap.FullRepresents | packages/nanopb-v1.0.0/pb_decode.c:828-856 | the first n bits are set exactly if every required field was seen, with fewer than 256 required fields |
| Decoder.IStream.Read | packages/nanopb-v1.0.0/pb_decode.c:86-118 | a read succeeds exactly if that many bytes are left, and then the pointer and the count move by it |
| Decoder.DecodeVarint32 | packages/nanopb-v1.0.0/pb_decode.c:160-194 | reads what the 32-bit register holds after the loop, and consumes what it looked at |
| Decoder.DecodeVarint | packages/nanopb-v1.0.0/pb_decode.c:196-216 | the same for 64 bits |
| Decoder.DecodeTag | packages/nanopb-v1.0.0/pb_decode.c:238-262 | reads a key, or tells a clean end from an error by whether bytes are left |
| Decoder.SkipField | packages/nanopb-v1.0.0/pb_decode.c:218-277 | skips one payload of the wire type, or fails |
| Decoder.MakeSubstream | packages/nanopb-v1.0.0/pb_decode.c:309-322 | the substream is the next n bytes, the parent keeps what lies behind them |
| Decoder.CloseSubstream | packages/nanopb-v1.0.0/pb_decode.c:324-331 | the parent goes on where the substream stopped, drained or not |
| Decoder.DecodeVal | packages/nanopb-v1.0.0/pb_decode.c:1010-1142 | each value decoder accepts and returns what the specification function says |
| Decoder.DecodeSubmessage | packages/nanopb-v1.0.0/pb_decode.c:1144-1165 | a nested message is decoded in its substream over the present contents of the field |
| Decoder.DecodePacked | packages/nanopb-v1.0.0/pb_decode.c:355-381 | the loop over a packed array reads items until the substream is empty and fails on overflow |
| Decoder.DecodeField | packages/nanopb-v1.0.0/pb_decode.c:337-402 | required, optional and repeated fields take one value, an unpacked item or a packed array |
| Decoder.SetToDefaults | packages/nanopb-v1.0.0/pb_decode.c:698-757 | every field is set to its default, nested messages included |
| Decoder.CheckRequired | packages/nanopb-v1.0.0/pb_decode.c:828-856 | the final check holds exactly if every required field was met |
| Decoder.DecodeOne | packages/nanopb-v1.0.0/pb_decode.c:775-826 | one round of the loop is one step of the specification |
| Decoder.DecodeNoInit | packages/nanopb-v1.0.0/pb_decode.c:763-859 | the whole loop with iterator, bitmap and substreams computes the specification function |
| Decoder.Decode | packages/nanopb-v1.0.0/pb_decode.c:861-873 | pb_decode accepts exactly what the specification accepts, with the same message and the stream where it says |
| Ring.InsertRing | rt-thread/include/rtservice.h:58-80 | the four link writes of an insertion make a ring with the node in that place |
| Ring.RemoveRing | rt-thread/include/rtservice.h:86-92 | the two link writes of a removal close the ring over the gap |
| Ring.ListNodes.Init | rt-thread/include/rtservice.h:47-50 | a node becomes a list of its own |
| Ring.ListNodes.InsertAfter | rt-thread/include/rtservice.h:58-65 | the node comes behind the given one and no other list changes |
| Ring.ListNodes.InsertBefore | rt-thread/include/rtservice.h:73-80 | the node comes before the given one; before the head means at the end |
| Ring.ListNodes.Remove | rt-thread/include/rtservice.h:86-92 | the node leaves its list and becomes a list of its own |
| Ring.ListNodes.IsEmpty | rt-thread/include/rtservice.h:98-101 | true exactly if only the head is in the list |
| Ring.ListNodes.Len | rt-thread/include/rtservice.h:107-119 | the walk counts the nodes other than the head |
| Tiling.SumTotal | rt-thread/src/memheap.c:60-66 | free and used payload and one header per block fill the span of the pool |
| Blocks.CutBlock | rt-thread/src/memheap.c:187-233 | splitting a free block for a request keeps the tiling and the absence of free neighbours, and the free bytes shrink by payload and header |
| Blocks.JoinAll | rt-thread/src/memheap.c:535-578 | freeing a block and merging it with the free neighbours on both sides keeps the tiling, leaves no two free neighbours, and the free bytes grow by payload and merged headers |
| Blocks.ResizePool | rt-thread/src/memheap.c:333-485 | moving the end of a used block, over a free neighbour or within itself, keeps the tiling and the absence of free neighbours |
| Blocks.JoinKeeps | rt-thread/src/memheap.c:535-578 | merging leaves every other used block its place and its end |
| MemHeap.SplitAlloc | rt-thread/src/memheap.c:187-233 | the split keeps the free list equal to the unused blocks |
| MemHeap.JoinFreeOk | rt-thread/src/memheap.c:540-592 | after the merges the free list again holds exactly the unused blocks |
| MemHeap.FreeAll | rt-thread/src/memheap.c:535-592 | freeing keeps the block list, the free list and the free byte count consistent |
| MemHeap.ResizeAll | rt-thread/src/memheap.c:333-485 | in-place growth and the split on shrinking keep the block list, the free list and the free byte count consistent |
| MemHeap.Heap.constructor | rt-thread/src/memheap.c:50-119 | one free block and the tailer, all bytes but two headers available, nothing handed out |
| MemHeap.Heap.FindFit | rt-thread/src/memheap.c:169-180 | the search stops at the first block of the free list that is large enough |
| MemHeap.Heap.Alloc | rt-thread/src/memheap.c:138-281 | null exactly if the request is not below the available size or no free block holds it; otherwise the first block of the free list that fits, cut if the rest can be a block, the rest then first in the free list; the pointer is new and aligned, every live payload is untouched, the high-water mark follows |
| MemHeap.Heap.MergeBoth | rt-thread/src/memheap.c:540-578 | the link writes of both merges leave the block list and the free list linked both ways |
| MemHeap.Heap.FreeBlock | rt-thread/src/memheap.c:531-592 | the block list and the free list afterwards: merged with exactly the free neighbours, and first in the free list unless merged to the left |
| MemHeap.Heap.Free | rt-thread/src/memheap.c:495-595 | takes one pointer away, keeps every other payload and all invariants, and gives back exactly the payload and a header per merge |
| MemHeap.Heap.Move | rt-thread/src/memheap.c:408-414 | the block moves exactly if an allocation can be served; its payload comes along, and the high-water mark is raised to the use between the allocation and the free |
| MemHeap.Heap.Grow | rt-thread/src/memheap.c:333-400 | growth in place keeps the front of the payload and all other payloads, and charges the growth |
| MemHeap.Heap.Shrink | rt-thread/src/memheap.c:419-492 | shrinking keeps the front of the payload and all other payloads, and credits the tail |
| MemHeap.Heap.Realloc | rt-thread/src/memheap.c:284-492 | shrinking stays in place and cuts exactly if the rest can be a block; growing stays in place exactly if the free neighbour is large enough, else the block moves or, exactly if an allocation cannot be served, nothing changes; the first min(old, new) bytes and all other payloads are kept, a block that moved is gone from its old place, and the high-water mark is the larger of the old mark and the use afterwards or, on a move, the use in between |
| MemHeap.Heap.LiveDisjoint | rt-thread/src/memheap.c:138-595 | live payloads lie in the pool and overlap neither each other nor a header |
| MemHeap.Heap.Accounting | rt-thread/src/memheap.c:62-66 | available bytes, payload in use and one header per block make up the pool; the high-water mark is the largest use there has been |
| SmallMem.LinkedInsert | rt-thread/src/mem.c:330-348 | the link writes of the split keep next and prev inverse up to the end of the heap |
| SmallMem.LinkedRemove | rt-thread/src/mem.c:165-193 | the link writes of plugging a hole keep next and prev inverse up to the end of the heap |
| SmallMem.FreeLow | rt-thread/src/mem.c:156-194 | after rt_free lfree is a free block again, with nothing free below it if nothing was before |
| SmallMem.ShrinkLow | rt-thread/src/mem.c:471-498 | after a shrink lfree is a free block or the end; nothing lies free below it exactly if it was below the new free block or at the block that one swallowed |
| SmallMem.ShrinkLosesLow | rt-thread/src/mem.c:471-498 | a run of rt_malloc and rt_realloc after which a free block lies below lfree and a request that fits it gets null |
| SmallMem.Heap.Init | rt-thread/src/mem.c:204-258 | no heap exactly if the range has no room for two headers; else one free block up to heap_end, lfree on it, nothing in use |
| SmallMem.Heap.Find | rt-thread/src/mem.c:305-313 | the scan from lfree stops at the first block in the bound that fits, or has passed all of them |
| SmallMem.Heap.SearchFailed | rt-thread/src/mem.c:305-408 | a failed scan leaves no free block at or above lfree that fits but an exact fit that ends at heap_end |
| SmallMem.Heap.SearchLowest | rt-thread/src/mem.c:305-313 | the block found is the lowest one at or above lfree that fits |
| SmallMem.Heap.SearchAll | rt-thread/src/mem.c:305-313 | if nothing lies free below lfree, the scan misses no block of the heap |
| SmallMem.Heap.Malloc | rt-thread/src/mem.c:272-410 | null exactly on size zero or when nothing at or above lfree fits apart from an exact fit ending at heap_end; otherwise the lowest such block, cut if the rest is large enough, new, aligned; all live payloads untouched; used_mem and max_mem exact, all structure kept, and nothing free below lfree if nothing was |
| SmallMem.Heap.PlugHoles | rt-thread/src/mem.c:156-194 | merges a free block with free neighbours on both sides and moves lfree along |
| SmallMem.Heap.Free | rt-thread/src/mem.c:546-609 | takes one pointer away, keeps every other payload, the structure, used_mem and that nothing lies free below lfree |
| SmallMem.Heap.Shrink | rt-thread/src/mem.c:456-499 | keeps the front of the payload and all other payloads, and nothing is free below lfree afterwards exactly under the stated condition |
| SmallMem.Heap.Realloc | rt-thread/src/mem.c:421-510 | out of range sizes and pointers, zero and null as in the code; the block stays exactly if its size is right or a cut leaves enough, else it moves or nothing changes; the first min(old, new) bytes and all other payloads are kept, and the lowest-free shortcut is lost exactly on a shrink whose tail lies below lfree; used_mem and max_mem are exact |
| SmallMem.Heap.Move | rt-thread/src/mem.c:501-507 | the block moves exactly if an allocation can be served; as much of its payload as fits comes along, and max_mem is raised to the use between the allocation and the free |
| SmallMem.Heap.LiveDisjoint | rt-thread/src/mem.c:272-609 | live payloads lie in the heap and overlap neither each other nor a header |
| SmallMem.Heap.Accounting | rt-thread/src/mem.c:601-605 | used_mem and the spans of the free blocks make up the heap; max_mem is the largest use there has been |
| Waiting.EnqueueSplit | rt-thread/src/ipc.c:80-123 | a suspended thread goes to the end, or behind all threads at least as urgent and before the first less urgent one |
| Waiting.EnqueueSorted | rt-thread/src/ipc.c:93-119 | a list in priority order stays in priority order |
| Waiting.Suspend | rt-thread/src/ipc.c:80-123 | the loop over the list links puts the thread in that place and touches no other list |
| Waiting.Offered | rt-thread/src/ipc.c:1543-1561 | offering one more and resuming the first sleeper leaves nobody asleep beside an unclaimed item |
| Waiting.Claimed | rt-thread/src/ipc.c:1683-1692 | taking one, by a woken thread or by one that came first, leaves nobody asleep beside an unclaimed item |
| Waiting.Refused | rt-thread/src/ipc.c:1620-1652 | finding nothing, and sleeping again or giving up, leaves nobody asleep beside an unclaimed item |
| Waiting.Expired | rt-thread/src/ipc.c:1661-1668 | a timeout removes just the thread and forgets no item |
| Waiting.WakeFirst | rt-thread/src/ipc.c:134-148 | resuming takes the head of the list and nobody else, and the others keep their order |
| Waiting.LinedSleep | rt-thread/src/ipc.c:80-123 | a thread that goes to sleep takes its place in the order of service: priority and then arrival under the PRIO flag, arrival under the FIFO flag |
| Waiting.WakeInOrder | rt-thread/src/ipc.c:134-148 | the thread that is resumed is to be served before everybody left asleep |
| Chain.ChainAppend | rt-thread/src/ipc.c:2090-2106 | linking behind the last node makes the chain with the node at the end |
| Chain.ChainPush | rt-thread/src/ipc.c:2198-2206 | linking before the first node makes the chain with the node in front |
| MessageQueue.Partition | rt-thread/src/ipc.c:1975-2445 | every node is queued, free or in one thread's hands, and in only one of these |
| MessageQueue.HoldToQueued | rt-thread/src/ipc.c:2090-2106 | linking a node moves it from its thread to the queue and nothing else |
| MessageQueue.Queue.constructor | rt-thread/src/ipc.c:1781-1832 | the loop over the pool links all nodes into the free list |
| MessageQueue.Queue.SendTry | rt-thread/src/ipc.c:1975-2083 | a sender, new or woken, takes the first free node, sleeps, or is told that the queue is full or the message too big, exactly as the free list and the timeout say |
| MessageQueue.Queue.Fill | rt-thread/src/ipc.c:2085-2088 | the copy changes one node that no list holds; the message is then in it |
| MessageQueue.Queue.SendLink | rt-thread/src/ipc.c:2090-2132 | the message becomes the last one and the first sleeping receiver is resumed; all invariants hold at this step |
| MessageQueue.Queue.UrgentLink | rt-thread/src/ipc.c:2200-2236 | the message becomes the first one and the first sleeping receiver is resumed |
| MessageQueue.Queue.RecvTry | rt-thread/src/ipc.c:2258-2355 | a receiver, new or woken, takes the first message, sleeps or times out, exactly as the queue and the timeout say |
| MessageQueue.Queue.RecvCopy | rt-thread/src/ipc.c:2357-2358 | the copy delivers the message that was taken, cut to the room of the caller |
| MessageQueue.Queue.RecvReturn | rt-thread/src/ipc.c:2360-2388 | the node goes to the front of the free list and the first sleeping sender is resumed |
| MessageQueue.Queue.Reset | rt-thread/src/ipc.c:2397-2441 | all queued nodes go to the front of the free list one by one, both waiting lists are dismissed, messages in copy are left alone |
| MessageQueue.Queue.Timeout | rt-thread/src/ipc.c:2050-2060 | only the thread whose timer expired leaves, and no wake-up is lost |
| RingBuffer.UnrollWrite | drivers/SEGGER_RTT.c:341-349 | a copy behind the last word that stays within the buffer adds the chunk at the end |
| RingBuffer.UnrollPut | rt-thread/src/ipc.c:1536-1542 | writing at the input offset adds the word at the end |
| RingBuffer.UnrollGet | rt-thread/src/ipc.c:1684-1691 | moving the output offset drops the first word |
| RingBuffer.UnrollSkip | drivers/SEGGER_RTT.c:238-266 | moving the read offset drops that many words from the front |
| Mailbox.RunInv | rt-thread/src/ipc.c:1442-1758 | over every run of senders, receivers, timeouts and resets, under every interleaving: mails come out in the order they went in, none lost and none twice; a mail no woken receiver is about to take finds no receiver asleep, and room no woken sender is about to use finds no sender asleep |
| Mailbox.StepInv | rt-thread/src/ipc.c:1442-1758 | every step keeps both sides free of lost wake-ups |
| Mailbox.RunServes | rt-thread/src/ipc.c:1442-1758 | over every run the thread that a step resumes was asleep and is to be served before every thread left asleep on its side: more urgent, or as urgent and earlier, under the PRIO flag, and earlier under the FIFO flag |
| Mailbox.StepLined | rt-thread/src/ipc.c:1442-1758 | every step keeps both waiting lists in the order of service |
| Mailbox.Mailbox.SendTry | rt-thread/src/ipc.c:1442-1571 | the ring buffer code computes the step: it appends the mail and resumes the first sleeping receiver, sleeps, or reports full, exactly as room and timeout say |
| Mailbox.Mailbox.RecvTry | rt-thread/src/ipc.c:1590-1724 | the ring buffer code computes the step: it removes the first mail and resumes the first sleeping sender, sleeps, or times out |
| Mailbox.Mailbox.Timeout | rt-thread/src/ipc.c:1661-1668 | only the thread whose timer expired leaves |
| Mailbox.Mailbox.Reset | rt-thread/src/ipc.c:1726-1755 | the box is empty and nobody sleeps |
| Mailbox.Mailbox.constructor | rt-thread/src/ipc.c:1294-1325 | an empty box, nobody waiting |
| Event.DeliverSettles | rt-thread/src/ipc.c:1060-1108 | after a delivery no remaining waiter is satisfied by what is left of the set, and bits are only taken away |
| Event.DeliverInOrder | rt-thread/src/ipc.c:1060-1108 | each waiter is resumed exactly if the set left by the waiters before it satisfies it, and receives just the bits of that set it asked for |
| Event.ClearReceived | rt-thread/src/ipc.c:1093-1095 | clearing the received bits, as the sender does, is clearing the wanted bits, as the receiver does |
| Event.SatisfiedMonotone | rt-thread/src/ipc.c:1066-1085 | fewer bits satisfy fewer waiters |
| Event.PlusBit | rt-thread/src/ipc.c:1050 | adding: a bit is in the set afterwards exactly if it was before or was sent |
| Event.SatisfiedBits | rt-thread/src/ipc.c:1066-1085 | RT_EVENT_FLAG_AND asks for every single bit, RT_EVENT_FLAG_OR for some |
| Event.ConsumeBit | rt-thread/src/ipc.c:1093-1095 | the clear option takes exactly the bits asked for |
| Event.DeliverBits | rt-thread/src/ipc.c:1060-1108 | a bit is left by a send exactly if it was there and no resumed waiter with the clear option took it |
| Event.RunBits | rt-thread/src/ipc.c:1029-1275 | over every run a bit is set exactly if it was sent since it was last cleared |
| Event.RunReceives | rt-thread/src/ipc.c:1127-1237 | after every run a receive of any bits succeeds exactly if all of them, or some, were sent since they were last cleared |
| Event.Event.Send | rt-thread/src/ipc.c:1029-1116 | one send is adding the bits and then the immediate receive of each waiter in list order: same received bits, same clearing, same waiters left; afterwards no sleeping thread is satisfied, and threads resumed earlier keep their bits |
| Event.Event.RecvResumed | rt-thread/src/ipc.c:1218-1232 | a resumed thread receives the bits it was granted, whatever was sent between its wake-up and its run |
| Event.Event.Check | rt-thread/src/ipc.c:1065-1096 | the test, the saved bits and the clearing for one thread |
| Event.Event.Recv | rt-thread/src/ipc.c:1127-1237 | immediate success, refusal, timeout or sleep; no sleeping thread becomes satisfied |
| Event.Event.constructor | rt-thread/src/ipc.c:915-933 | no bits set, nobody waiting |
| Event.Event.Timeout | rt-thread/src/ipc.c:1203-1222 | only the thread whose timer expired leaves, and no sleeping thread is satisfied |
| Event.Event.Reset | rt-thread/src/ipc.c:1249-1275 | no bits set, nobody waiting |
| Mutex.TakeInv | rt-thread/src/ipc.c:654-780 | taking keeps all of the mutex invariant exactly if the 8-bit nesting counter does not run over |
| Mutex.TakeOutcome | rt-thread/src/ipc.c:681-770 | the caller has the mutex exactly if it had it or it was free, waits exactly if somebody else has it and it may wait, and then the owner is as urgent as the more urgent of the two; nobody else is touched |
| Mutex.TakeOverflow | rt-thread/src/ipc.c:681-685 | a run from the initial state: after 255 nested takes one more leaves the counter at zero with the owner still set |
| Mutex.ReleaseInv | rt-thread/src/ipc.c:790-881 | releasing keeps all of the mutex invariant |
| Mutex.HandOff | rt-thread/src/ipc.c:831-871 | the final release puts the owner back to its base priority and hands over to the first waiter, or frees the mutex |
| Mutex.NestedRelease | rt-thread/src/ipc.c:828-831 | an inner release only lowers the nesting counter: owner, value, waiters and priorities stay |
| Mutex.StepBalanced | rt-thread/src/ipc.c:654-881 | in every step the takes a thread got the mutex with less its releases are the nesting counter for the owner and zero for all others, and the owner loses the mutex exactly in the step that brings its count to zero |
| Mutex.RunBalanced | rt-thread/src/ipc.c:654-881 | so over every run, whatever the flag |
| Mutex.ExpireOutcome | rt-thread/src/ipc.c:755-762 | only the waiter whose timer expired leaves, and the others keep their order |
| Mutex.ExpireInv | rt-thread/src/ipc.c:755-762 | a timeout keeps the invariant |
| Mutex.TakeBoost | rt-thread/src/ipc.c:654-780 | a take keeps that the owner is at its base priority or has the priority of a waiter |
| Mutex.ReleaseBoost | rt-thread/src/ipc.c:790-881 | so does a release |
| Mutex.ExpireBoost | rt-thread/src/ipc.c:755-762 | a timeout keeps it exactly if the owner is at its base priority or another waiter has its priority |
| Mutex.RunBoost | rt-thread/src/ipc.c:654-881 | over every run without timeouts the owner is at its base priority or has the priority of a waiter, whatever the flag |
| Mutex.TimeoutKeepsBoost | rt-thread/src/ipc.c:755-762 | a run of three steps after which the owner keeps a boost that nobody needs |
| Mutex.RunInv | rt-thread/src/ipc.c:654-881 | over every run of a PRIO mutex: value is 1 iff there is no owner iff hold is 0, then nobody waits; waiters are in order of priority and of arrival among equals; the owner is as urgent as every waiter; all others are at their base priority |
| Mutex.HandOffInherits | rt-thread/src/ipc.c:841-861 | whatever the flag, inheritance survives the hand-over exactly if the first waiter is as urgent as all others |
| Mutex.FifoLosesInheritance | rt-thread/src/ipc.c:841-861 | a run of a FIFO mutex after which the owner is less urgent than a waiter |
| Mutex.Mutex.TakeBy | rt-thread/src/ipc.c:654-780 | the method computes the transition function and keeps the invariant exactly if the counter has room |
| Mutex.Mutex.ReleaseBy | rt-thread/src/ipc.c:790-881 | the method computes the transition function and keeps the invariant; only the owner succeeds |
| Mutex.Mutex.constructor | rt-thread/src/ipc.c:530-552 | free, without waiters |
| Mutex.Mutex.Timeout | rt-thread/src/ipc.c:755-762 | the method computes the transition function and keeps the invariant |
| Rtt.Buffer.Put | drivers/SEGGER_RTT.c:341-349 | one copy appends the chunk to the ring and moves the write offset, wrapping at the end |
| Rtt.Buffer.RoomLeft | drivers/SEGGER_RTT.c:306-311 | the room the code computes is what the bytes in the ring leave, but for one place |
| Rtt.Buffer.CopyRound | drivers/SEGGER_RTT.c:333-350 | one round copies as much as there is room for before the end of the buffer, and something if there was any room, without touching what the host has not read |
| Rtt.Buffer.Write | drivers/SEGGER_RTT.c:291-355 | with the host reading at any time: SKIP writes all or nothing, TRIM a prefix as long as the room first seen; at most two copies; what the host read and what is in the ring is what was written |
| Rtt.Buffer.WriteBlocking | drivers/SEGGER_RTT.c:291-355 | in the mode that waits, at any moment a prefix has been written, and every round that does not find the ring full makes progress until all is written |
| Rtt.Buffer.Read | drivers/SEGGER_RTT.c:224-275 | with the host writing any number of pieces at any time: returns exactly the first min(available, requested) bytes of the ring as first seen |
| MemPool.BlocksFit | rt-thread/src/mempool.c:94-119 | the blocks lie in the pool, behind one another, each with its word and room for the block size |
| MemPool.RunInv | rt-thread/src/mempool.c:77-449 | over every run of allocations, frees and timeouts, under every interleaving: every block is free or allocated, never both, the two counts add up to all blocks, and a free block no woken thread is about to take finds nobody asleep |
| MemPool.StepInv | rt-thread/src/mempool.c:303-449 | every step keeps that |
| MemPool.RunServesLast | rt-thread/src/mempool.c:303-449 | over every run a free resumes exactly the sleeper that came last, and the others keep their order |
| MemPool.FreedFirst | rt-thread/src/mempool.c:399-449 | the block freed last is the first to be given out again |
| MemPool.StepLast | rt-thread/src/mempool.c:303-449 | every step keeps the last to come first |
| MemPool.Pool.constructor | rt-thread/src/mempool.c:77-124 | the loop links all blocks into one chain ended by null; with no block the end mark goes in front of the pool |
| MemPool.Pool.AllocTry | rt-thread/src/mempool.c:303-390 | the chain code computes the step: a caller, new or woken, gets the first free block with the pool pointer in it, sleeps in front of the others, or times out |
| MemPool.Pool.Timeout | rt-thread/src/mempool.c:352-360 | only the thread whose timer expired leaves |
| MemPool.Pool.Free | rt-thread/src/mempool.c:399-449 | the block is the first free one again and the first sleeper is resumed |

## Left out

- nanopb callbacks, extensions, pointer fields and custom streams: user function pointers, or disabled in this configuration; `ptr == NULL` in a submessage descriptor is an error path of broken descriptors only.
- The destination struct is a value that the decoder's methods return, not memory they write in place; the iterator still carries field addresses, and `FieldsDisjoint` and `WordsDisjoint` say that they do not collide.
- Encoder.EncodeMessage: covers messages whose encoding is shorter than 2^32 bytes; longer ones would wrap the 32-bit size_t that counts them. The same holds for the other Encoder methods and for the round-trip theorems.
- Layout.LayoutIndependence: speaks of records that a field takes whole or refuses whatever follows; a record whose nested message stops early is the subject of `NestedZeroEnds`, one cut off by the end of the input that of `CutAnywhere`, and neither is combined with a change of layout.
- Evolution.SchemaEvolution: asks that a tag the two schemas share has the same type, the same rule and the same data size in both, nested types included; `Resized` covers integers of different size.
- RoundTripExact.RoundTripIffFits: compares strings up to the terminator and bytes fields up to their size; array bytes behind these are not part of a message value.
- Wrap-around of 32-bit sizes in the heaps (a request close to 2^32 rounded up by RT_ALIGN); sizes are unbounded here.
- Heap headers: link, used and magic words are fields of the model; the pool bytes under a new header become arbitrary, and overwriting a header through a live pointer is not modelled.
- MemHeap.Heap.Free: one heap only; the pool pointer in the header, by which a pointer finds its heap, and the semaphore, which makes each operation atomic, are not modelled.
- MemHeap.Heap.constructor: asks for room for two headers; on a smaller pool the unsigned count of available bytes would wrap.
- SmallMem.Heap.Realloc: asks that live blocks have at least one word, which every operation keeps; a pointer into a block but not to its start is not modelled.
- SmallMem.Heap.Malloc: asks for mem_size_aligned of at least MIN_SIZE_ALIGNED; below that the unsigned bound of the scan wraps and the scan would not end.
- Scheduler, thread and timer: a resumed thread leaves its list and its timer is stopped; a timeout takes it off the list with an error. How long a thread sleeps is left open.
- Waiting lists in the kernel objects are sequences; that the list code implements the insertion is shown in `Waiting.Suspend`, the removals are those of `Ring`. Priorities of threads waiting on a mailbox, a queue or an event do not change while they wait.
- MessageQueue.Queue.SendTry: entry is unbounded; its 16 bits would wrap only with more nodes than they count.
- Mutex.RunInv: one mutex per thread, no signals, no priority changes from outside, the PRIO flag, fewer than 256 nested takes; detaching or deleting a mutex is not modelled.
- Rtt.Buffer.WriteBlocking: watches a bounded number of rounds; that the host will make room is not modelled. The moment between raising the write offset to the buffer size and setting it to zero is not modelled in either mode.
- Semaphores, devices, object registration, hooks, tracing, kernel printing, drivers and applications: input and output or easy plumbing.
