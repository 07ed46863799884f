# cbuf: wire format, ring buffer, logs and schema text

A Dafny model of the cbuf message system, with proofs. cbuf is a schema language for messages, a
code generator that writes encoders and decoders for them, a reader that converts messages between
versions of a schema, a logger that many threads write to, and readers that play logs back.

The model has four parts.

**Wire format.** `Schema` is a resolved, acyclic schema and the packed layout computed for it
(`SchemaFlags` computes it as the source does, with memos). `WireFormat` defines the bytes of a
value once, on values alone, and everything else is proved against that: the generated
`encode_net_size`, `encode_net` and `decode_net` (`NetCode`), whose memcpy fast paths rest on
`Memory`, and the reader that works from a schema at run time (`CBufParser`), which skips messages
and converts them in place into the packed memory of another schema. `Conversion` says what the
conversion of a message means, destination field by destination field; `Arrival` says of each kind
of field, from the value's own bytes, what is in the destination afterwards, `ConversionLaws` what else
a caller may rely on, and `Compatibility` between which schemas every value converts. `FlatLaws`
proves which types have values of one size only, with the values of `Samples` as the counterexamples.
`Preamble` is the word that packs a size and a topic variant; the source's comment speaks of 4 and
28 bits, but the code uses one bit as a flag, 4 for the variant and 27 for the size, and the model
follows the code.

**Ring buffer.** `RingState` and `RingBuffer` are the buffer's operations, each one region under
the locks. `RingProtocol` is a step system of any number of producers and the logger thread, with
single-byte unlocked reads and writes between the regions; a ghost history gives allocations ids
and positions that never wrap. `RingTheorems` states what holds over whole runs, `RingProgress` when a request is granted and that
the last byte written is the one delivered.

**Logs.** `LogFormat` is a log file as packets, `LogWriter` the logger's processPacket with its
file splits, `LogStream` and `LogReader` the reading of many files by time with recovery from
corruption, `LogMerge` the merging of files into one. What reading comes to is defined on arbitrary
bytes, position by position (`MetaAt`, `NextAt`, `Trace` in `LogStream`); `LogTrace` works it out for
intact packets, for a file that was cut off and for corrupted bytes between packets. `Interleaving`
is the taking of items from many sequences by time. `LogLaws`, `LogFiles`, `LogDelivery` and
`LogRoundTrip` hold the results.

**Schema text.** At the level of tokens: the parser of expressions and declarations, the printing of a
type with all namespaces it needs, and the way back. `DeclSyntax` is the grammar of declarations, as
trees with their texts and meanings; every method of `SchemaParser` and `SchemaReader` is proved
against it both ways: what is returned is the meaning of the tokens read, and in front of any text of
the grammar its meaning is returned, or an error if it has none. `DeclLaws` says which texts have none
and what each part of a declaration becomes, `DeclWritten` which declarations come back from their
texts. `OperatorTable` is about expressions, `SymbolTable` and `AstPrinter` about lookup and printing,
`SchemaRoundTrip` about the whole way and the hash, `ShapeLaws` about what the hash depends on.

Some promises do not hold of the code. For these the proofs say exactly when they do, by a condition
that can be checked beforehand:

- A string converted into a short string is copied with strncpy straight out of the message, which
  goes on behind the string's end (`TextToShortString`).
- An array longer than a compact destination array leaves a count larger than the array, and so no
  value of the destination type (`CompactCount`, `CompactCountFails`).
- A request that exactly fits makes the ring issue a padding of no bytes, which costs one byte of
  capacity for good and keeps the shutdown loop from ending (`Conservation`, `DrainedCount`,
  `LeakExample`).
- With more than 15 topics of one type, variants repeat or vanish (`VariantsTellTopics`,
  `SeventeenTopics`).
- Reading consumes metadata packets until there is none, and one whose preamble gives its size as 0
  stays where it is: reading ends if and only if no such packet is come to (`SkippingEnds`,
  `EmptyMetaStays`).
- A file that was cut off inside its last packet is read up to there, and all others to the end,
  only if the reader makes sense of what is left. A tail of eight bytes or more is always skipped
  (`TraceOfCut`). A shorter one is read together with whatever memory holds behind the file
  (`ShortEnd`): without recovery, if that has no magic number or no size, reading stops for all files
  once this one is at its end (`ReadAll`, `ReadBesideCut`); and if it has a size not larger than the
  tail, the tail is delivered as a message (`ReadPhantom`). Several metadata packets at the end of a
  file stop the reading in the same way (`TraceOf`).
- An element with an initialiser and @compact prints in an order the parser refuses
  (`ElementAgain`), and an enum class is printed as an enum and read back as one (`EnumPrinted`).
- An initialiser is checked against the size in front of it, but not against one behind it
  (`ElementExactly`, `SizeTooLate`).
- The hash of a struct depends on its names, types and array sizes, and on nothing else: @compact,
  @naked and initialisers can change with the hash staying the same, although the first two change the
  bytes on the wire (`SameShapes`, `NotHashed`).
- A type that is found only through the global namespace, by a name qualified with a namespace that
  the text does not need, is lost on the way back, and with it the hash of the struct that names it
  (`SameLookup`, `PrintAndParse`).
- The operator table makes sums bind tighter than products. An expression written with the
  parentheses that are usually necessary is read as it is meant if and only if nowhere in it a
  product is an operand of a sum (`ParseUsual`); a sum under a product is in parentheses anyway.

Premises, where they are not in the contracts' own words: custom types resolve and are acyclic;
field names are distinct within a struct; arrays fit the memory and sizes meet the preamble's
asserts; requests to the ring are larger than zero; reading a file comes to no metadata packet of
size 0 (`Readable`, of any bytes), and for the results of `ReadAll` that speak of whole files packet
times are below 1e15; packets that are merged have no negative times; a type hash stands for one
name and schema; names are distinct among namespaces and the global namespace holds no enums, which
the parser keeps where lookups do not see them.

Ghost parameters of methods (a value, what follows it, what the memory held) are arbitrary: the
contract holds for whatever value's encoding happens to be there.

## Model

| member | source | states |
|---|---|---|
| Preamble.SetSizeIsRegister | include/cbuf_preamble.h:35-43 | setting an allowed size makes it the size read back, leaves the variant alone, and setting it again changes nothing |
| Preamble.SetVariantIsRegister | include/cbuf_preamble.h:52-65 | setting a variant leaves the size alone and reads back as its low four bits |
| Preamble.TwoRegisters | include/cbuf_preamble.h:25-65 | after any run of allowed updates, size and variant are the last ones written: two independent registers in one word |
| Preamble.SizeField.SetSize | include/cbuf_preamble.h:35-43 | the in-place setter does that update of the word |
| Preamble.SizeField.SetVariant | include/cbuf_preamble.h:52-65 | the in-place setter does that update of the word, with the case of a size word that has no variant yet |
| SchemaFlags.Flags.ComputeSimple | src/CBufParser.cpp:998-1034 | whatever was memoised before, the answer and the memo are the recursive definition of a simple struct |
| SchemaFlags.Flags.ComputeCompact | src/CBufParser.cpp:1036-1069 | the memo is the recursive definition of having compact arrays; the first call answers true whatever the flag |
| SchemaFlags.Flags.ComputeAll | src/CBufParser.cpp:984-996 | over any list of structs in any order, every flag ends up as its definition says |
| SchemaFlags.Layouts.ComputeSizes | src/CBufParser.cpp:68-103 | the memoised size and every field offset are those of the packed layout |
| SchemaFlags.Layouts.ElementTypeSize | src/CBufParser.cpp:23-64 | the size of one element of each type, sizes of inner structs being computed on the way |
| SchemaFlags.RangesDisjoint | src/CBufParser.cpp:84-100 | field ranges are disjoint, follow one another without a gap and end at the size of the struct |
| WireFormat.StampLength | src/CPrinter.cpp:242-247 | setting the sizes in a value changes no length, so the sizes set are those of what is written |
| WireFormat.StampSettles | src/CPrinter.cpp:242-247 | after encoding, every preamble in the value holds its own object's size, and encoding again changes nothing |
| WireFormat.StampInitialises | src/CPrinter.cpp:242-252 | a value with its types' hashes, whose sizes the preamble can hold, meets the decoder's checks once its sizes are set |
| WireFormat.WireIs | src/CPrinter.cpp:239-404 | the bytes of each kind of value: counts and lengths in front in four bytes, low byte first, the preamble's magic, size, hash and time at 0, 4, 8 and 16 |
| WireFormat.WireAt | src/CPrinter.cpp:254-404 | the k-th of several values stands right behind the bytes of those before it |
| WireFormat.FlatRunSettled | src/CPrinter.cpp:619-631 | elements of a flat type that are initialised as the constructor does already hold their sizes, so their memory can be copied |
| Memory.FlatStructIsWire | src/CPrinter.cpp:684-700 | the memory image of a struct flagged simple and without compact arrays is its wire encoding |
| Memory.FlatItemsAreWire | src/CPrinter.cpp:284-305 | the memory of an array of such elements is the concatenation of their encodings |
| Memory.FlatSize | src/CPrinter.cpp:178-181 | the wire size of a flat value does not depend on the value: it is the packed size of the type |
| Memory.FlatRunSize | src/CPrinter.cpp:171-182 | the size of an array of flat elements is the size of one times the count |
| FlatLaws.FlatExactly | src/CPrinter.cpp:284-305 | a type is flagged as one whose arrays are copied at once if and only if every value of it has the packed size on the wire, structs of no bytes apart |
| Memory.RunBytes | src/CPrinter.cpp:288-305 | the bytes memcpy reads from an array of flat elements are their encodings |
| Memory.LoadItemsExact | src/CPrinter.cpp:475-488 | copying bytes into the memory of flat elements gives the one array whose encoding they are |
| NetCode.EncodeNetSize | src/CPrinter.cpp:151-237 | the computed size is the length of the wire encoding, for every schema and value |
| NetCode.FieldNetSize | src/CPrinter.cpp:161-234 | the same for each kind of field, multiplying where the generated code multiplies |
| NetCode.ItemsNetSize | src/CPrinter.cpp:196-221 | the loop over elements whose sizes may differ adds up to the length of their encodings |
| NetCode.EncodeNet | src/CPrinter.cpp:239-253 | refuses exactly when the buffer is too small and then writes nothing; otherwise writes the encoding with all preamble sizes set, and touches no other byte |
| NetCode.EncodeFields | src/CPrinter.cpp:254-404 | the fields are written one behind the other, in declaration order |
| NetCode.PutPreamble | src/CPrinter.cpp:245-252 | the four stores write the 24 bytes of the preamble |
| NetCode.EncodeField | src/CPrinter.cpp:263-379 | count, then either one memcpy or the loop: both write the encodings of the elements |
| NetCode.EncodeItem | src/CPrinter.cpp:380-399 | one number, enum, string, short string or struct |
| NetCode.EncodeItems | src/CPrinter.cpp:317-325 | the loop of encode_net calls writes the concatenated encodings |
| NetCode.DecodeNet | src/CPrinter.cpp:406-423 | in front of the encoding of any initialised value it returns that value and its length; conversely what it accepts was encoded there, if the sizes in it are consistent; magic, hash and size are checked |
| NetCode.ReadPreamble | src/CPrinter.cpp:410-422 | the preamble read is the one whose bytes stand there |
| NetCode.DecodeFields | src/CPrinter.cpp:425-602 | the same for the fields of a struct in order |
| NetCode.DecodeField | src/CPrinter.cpp:434-577 | the same for each kind of field, with the check of compact counts where the code has it |
| NetCode.DecodeCount | src/CPrinter.cpp:436-500 | the element count is the schema's or the one in front of the array |
| NetCode.DecodeBlock | src/CPrinter.cpp:475-488 | one memcpy reads the elements that the loop would read |
| NetCode.DecodeItems | src/CPrinter.cpp:500-510 | the loop of decode_net calls, advancing by encode_net_size or by the size in the preamble |
| NetCode.DecodeItem | src/CPrinter.cpp:578-600 | one number, enum, string, short string or struct |
| NetCode.DecodeText | src/CPrinter.cpp:590-594 | a length-prefixed string |
| NetCode.RoundTrip | src/CPrinter.cpp:151-607 | decode_net of encode_net gives back the value, sizes set, and uses exactly encode_net_size bytes, through all nestings |
| NetCode.PlainCopyIsEncodeNet | src/CPrinter.cpp:684-700 | encode() of a flat struct writes what encode_net() writes, and its size is the packed size |
| CBufParser.Reader.ProcessArraySize | src/CBufParser.cpp:145-163 | reads the element count; only a compact array larger than its slots is refused |
| CBufParser.Reader.SkipRun | src/CBufParser.cpp:549-573 | skipping numbers, enums or strings moves the cursor over exactly their encodings |
| CBufParser.Reader.SkipElement | src/CBufParser.cpp:1881-1962 | skipping a field of any kind moves the cursor by exactly its wire size |
| CBufParser.Reader.SkipStructs | src/CBufParser.cpp:1953-1956 | the same for an array of structs |
| CBufParser.Reader.SkipStruct | src/CBufParser.cpp:1964-1977 | the same for a struct; it agrees with encode_net_size of the value |
| CBufParser.Reader.StoreNumber | src/CBufParser.cpp:624-688 | the switch over destination types stores the number read, cast (NumbersArrive says what arrives), or refuses |
| CBufParser.Reader.ConvertText | src/CBufParser.cpp:805-840 | a string into a string, or into 16 bytes by strncpy out of the message |
| CBufParser.Reader.ConvertShortText | src/CBufParser.cpp:932-960 | a short string into a string or a short string |
| CBufParser.Reader.ConvertStruct | src/CBufParser.cpp:1979-1989 | one struct: memory outside its destination never changes, success is as specified, and then memory and cursor are as specified |
| CBufParser.Reader.CopyPreamble | src/CBufParser.cpp:1981-1989 | the preamble is copied if both structs have one, and skipped in any case |
| CBufParser.Reader.ConvertEach | src/CBufParser.cpp:1991-1998 | the loop over the source fields establishes, per destination field, the conversion of the source field of its name |
| CBufParser.Reader.ConvertPart | src/CBufParser.cpp:2000-2003 | a field is written at its offset in the destination and nowhere else |
| CBufParser.Reader.ConvertField | src/CBufParser.cpp:590-613 | array against non-array and struct against non-struct are refused; otherwise the kind of destination decides |
| CBufParser.Reader.ConvertCompact | src/CBufParser.cpp:604-608 | the count in front of a compact destination is the source's, not cut to the slots |
| CBufParser.Reader.ConvertSlots | src/CBufParser.cpp:615-691 | items go into slots in order; those without a slot are skipped, so the cursor still ends behind the array |
| CBufParser.Reader.ConvertVector | src/CBufParser.cpp:2114-2143 | structs are converted into a new zeroed block that becomes the vector |
| CBufParser.Reader.ConvertPushes | src/CBufParser.cpp:575-583 | other items are pushed onto the vector that is there |
| CBufParser.FastConversion | src/CBufParser.cpp:2193-2213 | for whatever value the message encodes, the memory becomes the specified conversion and the result is the value's wire size, whatever is dropped or truncated; 0 if refused |
| CBufParser.SkipMessage | src/CBufParser.cpp:1964-1977 | skipping a whole message uses exactly its wire size |
| Conversion.JoinAt | src/CBufParser.cpp:84-100 | replacing one field in a struct's memory changes its own range and no other |
| Conversion.ConvertedStep | src/CBufParser.cpp:1991-2150 | one source field settles the destination field of its name and leaves all others |
| Conversion.FieldsOutcome | src/CBufParser.cpp:1979-2150 | the loop's result is the field-by-field specification, or its refusal |
| ConversionLaws.FieldsByName | src/CBufParser.cpp:1991-2150 | each destination field is the conversion of the source field of the same name, wherever that stands, and is untouched without one |
| Arrival.ArrivesByName | src/CBufParser.cpp:1979-2151 | after a conversion, each destination field has what is due from the value of its namesake, said of the value's own bytes for numbers, strings, structs, array slots and vectors; without a namesake it has what it had |
| Arrival.NumbersArrive | src/CBufParser.cpp:615-691 | a number or enum converted into another number type arrives as the cast of its own bytes: in its field, in the first slots of an array (the other slots staying), or behind what a vector held |
| Arrival.PreambleArrives | src/CBufParser.cpp:1979-1989 | a destination with a preamble gets the message's, and keeps its own if the source has none |
| ConversionLaws.SameSchema | src/CBufParser.cpp:1979-2151 | converting into the same schema reproduces the value if and only if short strings are zero-filled, their arrays are already in place (in a vector: 15 characters each), and vectors of plain items start empty |
| ConversionLaws.SameSlots | src/CBufParser.cpp:615-691 | the same for array slots |
| ConversionLaws.SamePushes | src/CBufParser.cpp:575-583 | the same for items pushed into an empty vector |
| ConversionLaws.TextToShortString | src/CBufParser.cpp:832-836 | a string arrives in a short string as it is if and only if it has 16 characters, holds a NUL, or the byte behind it in the message is 0 |
| ConversionLaws.TextToShortStringFails | src/CBufParser.cpp:834 | the string "a" before the number 98 arrives as "ab" |
| ConversionLaws.CompactCount | src/CBufParser.cpp:604-608 | what is left in a compact array is the memory of a value only if the source array is not longer, whatever the items; and for numbers, enums and strings exactly then |
| ConversionLaws.CompactCountFails | src/CBufParser.cpp:604-608 | three numbers into two slots: the count says three, and the struct is not the memory of any value of its type |
| Compatibility.EveryValueConverts | src/CBufParser.cpp:1979-2151 | with at least 16 bytes behind the message, every value of a schema converts into another if and only if each source field with a namesake fits it in shape and kind, through all nestings |
| Compatibility.ConvertsStruct | src/CBufParser.cpp:1979-2151 | between such schemas no value is refused, whatever is in the destination before |
| Compatibility.RefusesStruct | src/CBufParser.cpp:590-613 | between others a value with an item in every array is refused, whatever follows it and whatever is in the destination |
| RingBuffers.RingBuffer.AllocInner | ulog/include/ringbuffer.h:75-110 | one round under the lock: the new allocation, or padding to the end of the buffer, with all counters (GrantedExactly says when) |
| RingBuffers.RingBuffer.HandleToAddress | ulog/include/ringbuffer.h:137-143 | the address is that of the allocation under the cut handle |
| RingBuffers.RingBuffer.StoreByte | ulog/include/ringbuffer.h:137-143 | an unlocked producer store at that address |
| RingBuffers.RingBuffer.Populate | ulog/include/ringbuffer.h:120-135 | marks the allocation populated and changes nothing else |
| RingBuffers.RingBuffer.LastUnread | ulog/include/ringbuffer.h:145-180 | reports the oldest allocation if it is padding or populated |
| RingBuffers.RingBuffer.Dequeue | ulog/include/ringbuffer.h:182-215 | removes the oldest allocation if it is padding or populated |
| RingProtocol.StepKeeps | ulog/include/ringbuffer.h:75-215 | every step of every thread is safe (lookups succeed, accesses stay in the buffer) and keeps the invariant |
| RingProtocol.HandleFindsIts | ulog/include/ringbuffer.h:137-143 | a producer's handle finds the allocation it was given out for |
| RingProtocol.HeadFound | ulog/include/ringbuffer.h:157-160 | the consumer's lookup finds the oldest live allocation; the map is empty exactly if none is live |
| RingProtocol.IdWindow | ulog/include/ringbuffer.h:89-106 | the window of live ids is never longer than the bytes in use, so cut to 32 bits they do not collide |
| RingProtocol.LiveDisjoint | ulog/include/ringbuffer.h:89-108 | two live allocations share no byte, across any number of wraps |
| RingProtocol.UsedBelowWrite | ulog/include/ringbuffer.h:80-106 | the guard leaves room even when the request ends up as padding |
| RingProgress.GrantedExactly | ulog/include/ringbuffer.h:75-110 | in every state of every run a request is taken up if and only if it is positive and the bytes in use and it are less than the capacity; if it fits before the end it is then granted at the write position, else the rest of the buffer becomes padding, all other allocations staying |
| RingProgress.ManyLive | ulog/include/ringbuffer.h:75-110 | for any sizes that together are less than the capacity there is a run in which all of them are live at once, one behind the other |
| RingTheorems.RunsAreSafe | ulog/include/ringbuffer.h:75-215 | in every run of any number of producers and the logger thread, every state keeps the invariant and every step is safe |
| RingTheorems.DeliveredInOrder | ulog/src/ulogger.cpp:311-334 | in every run, the packets handed over are exactly those of the freed allocations (and the one in hand), in allocation order |
| RingTheorems.PopulatedBytesDelivered | ulog/src/ulogger.cpp:311-334 | a populated allocation, once freed, was delivered at its place in the order with the bytes its range held when it was populated |
| RingTheorems.LiveAllocationsDisjoint | ulog/include/ringbuffer.h:89-108 | in every run, live allocations are pairwise disjoint and together shorter than the buffer |
| RingTheorems.WritesStayInside | ulog/include/ringbuffer.h:137-143 | an unlocked write changes no byte of another live allocation |
| RingProgress.WriteStores | ulog/include/ringbuffer.h:137-143 | a producer's write stores its byte at that place of its allocation, and changes no other byte of the buffer |
| RingProgress.StampStores | ulog/src/ulogger.cpp:162-167 | so does the logger's write into the packet it holds |
| RingProgress.LastWriteDelivered | ulog/src/ulogger.cpp:311-334 | in every run, the byte last written at a place of an allocation before it was populated is the byte delivered there, whatever other threads did between |
| RingTheorems.Conservation | ulog/include/ringbuffer.h:89-106 | in every run, the byte count is the sum of live sizes plus the number of paddings of no bytes ever issued, below the capacity, never underflowing |
| RingTheorems.LiveKeysDistinct | ulog/include/ringbuffer.h:48-48 | in every run of any length, live ids cut to the map's key type are distinct |
| RingTheorems.DrainedCount | ulog/src/ulogger.cpp:336-348 | with nothing left to free the count is the number of such paddings: zero if and only if none was issued |
| RingTheorems.DrainLoopSticks | ulog/src/ulogger.cpp:336-348 | if one was, no step of the logger thread changes anything any more |
| RingTheorems.Drain | ulog/src/ulogger.cpp:336-348 | otherwise the shutdown loop ends, having handed over everything queued, in order |
| RingTheorems.FreeOne | ulog/src/ulogger.cpp:311-334 | one turn from lastUnread to dequeue delivers the oldest allocation |
| RingTheorems.TwoRounds | ulog/include/ringbuffer.h:112-118 | from a drained state a request that leaves one spare byte is granted at once or after one padding that the consumer frees |
| RingTheorems.LeakedAway | ulog/include/ringbuffer.h:80-105 | once the paddings of no bytes add up to the capacity less one, no request is ever granted |
| RingTheorems.LeakExample | ulog/include/ringbuffer.h:105 | a run with two bytes of buffer that ends that way |
| LogWriter.Logger.SerializeMetadata | ulog/src/cbuf_stream.cpp:42-84 | writes the encoded metadata packet of a type unless this file has it |
| LogWriter.Logger.GetOrMakeTopicVariant | ulog/src/ulogger.cpp:24-42 | the variant is the topic's position in its type's list, to which a new topic is added at the end |
| LogWriter.Logger.OpenFile | ulog/src/ulogger.cpp:236-263 | a new, empty file |
| LogWriter.Logger.CloseFile | ulog/src/ulogger.cpp:287-297 | the file is kept and the dictionary forgotten; the variants are not |
| LogWriter.Logger.WritePacket | ulog/src/ulogger.cpp:169-190 | the packet's bytes go behind the file |
| LogWriter.Logger.ProcessPacket | ulog/src/ulogger.cpp:124-220 | checks, metadata if new to the file, variant stamp, packet, and a new file once the limit is passed (FilesAreSplit, AcceptedExactly and StampTouches say which) |
| LogLaws.StampedIsGood | ulog/src/ulogger.cpp:162-167 | the variant stamp never alters a packet's extent |
| LogLaws.FilesAreSelfContained | ulog/src/ulogger.cpp:124-220 | in every run every file, split off or current, has metadata before the first packet of each type, right for the type |
| LogLaws.NothingLost | ulog/src/ulogger.cpp:124-220 | over all files in order, the data packets are exactly the accepted ones in arrival order, stamped with the variants the topics keep to the end |
| LogFiles.FilesAreSplit | ulog/src/ulogger.cpp:192-219 | in every run, the data packets of each closed file add up to more than the limit, and without the last one to at most that; those of the current file to at most that |
| LogFiles.MetadataOnce | ulog/src/cbuf_stream.cpp:42-84 | in every run, each file has the metadata of a type once, right before the type's first packet, and none of other types |
| LogFiles.MetadataFrom | ulog/src/cbuf_stream.cpp:42-84 | the name and schema in it are those that came with a packet of the type |
| LogFiles.AcceptedExactly | ulog/src/ulogger.cpp:136-157 | a packet, not metadata and of a length the preamble can hold, is written if and only if it has the magic number, a size that is its length, and a hash |
| LogFiles.WrittenOrCounted | ulog/src/ulogger.cpp:124-220 | every packet is written or counted as an error, and not both |
| LogFiles.StampTouches | ulog/src/ulogger.cpp:162-167 | what is written differs from what was given in the four bytes of the size at most |
| LogLaws.VariantStays | ulog/src/ulogger.cpp:32-41 | a topic's variant never changes |
| LogLaws.TopicsDistinct | ulog/src/ulogger.cpp:24-42 | in every run the topics of a type stay distinct |
| LogLaws.FifteenTopics | ulog/src/ulogger.cpp:163-164 | the variants kept in the size word tell the topics of a type apart, and from no topic, if and only if there are at most 15 |
| LogLaws.VariantsTellTopics | ulog/src/ulogger.cpp:24-42 | in every run, two accepted packets of a type carry the same variant exactly if they have the same topic, if and only if the type has at most 15 topics, or 16 and no packet without one |
| LogLaws.SeventeenTopics | ulog/src/ulogger.cpp:24-42 | a run with a packet of one type on each of n topics in which the variants tell the topics apart exactly if n is at most 16 |
| LogStream.InputStream.ConsumeInternal | ulog/src/cbuf_stream.cpp:262-282 | on any bytes: a metadata packet is taken off the stream and learned exactly if its preamble has the magic number and the hash, and its own size and both its strings are inside the file; otherwise nothing changes |
| LogStream.InputStream.DecodeMetadata | ulog/src/cbuf_stream.cpp:270-273 | decoding succeeds exactly then, with the type hash, name and schema that stand there |
| LogStream.InputStream.SkippingEnds | ulog/include/cbuf_stream.h:331-369 | on any bytes, some number of attempts at consuming metadata leads to where none is if and only if no metadata packet of size 0 is come to |
| LogStream.EmptyMetaStays | ulog/src/cbuf_stream.cpp:262-282 | a metadata packet whose preamble has size 0, with empty strings, is consumed any number of times without the stream moving, whatever follows it |
| LogStream.LongNameEnds | ulog/src/cbuf_stream.cpp:270-273 | the same preamble before a name that would end behind the file counts as no metadata and is not consumed |
| LogStream.InputStream.SkipMetas | ulog/include/cbuf_stream.h:331-369 | consumes and learns exactly the metadata at the cursor, wherever this ends |
| LogStream.InputStream.GetNextSize | ulog/include/cbuf_stream.h:339-345 | the size in the preamble behind the metadata at the cursor |
| LogStream.InputStream.CheckNextPreamble | ulog/include/cbuf_stream.h:364-369 | whether the preamble behind the metadata at the cursor has the magic number |
| LogStream.InputStream.Advance | ulog/include/cbuf_stream.h:245-252 | forward, at most to the end, offset plus remaining bytes staying the file size |
| LogStream.InputStream.SkipMessage | ulog/include/cbuf_stream.h:381-392 | past what stands behind the metadata at the cursor, by the size it gives, at most to the end; it fails exactly at the end or at size 0 |
| LogStream.InputStream.SkipCorrupted | ulog/include/cbuf_stream.h:394-406 | to the least later offset with the magic number and a size among those it can look at, else to the end; from a bad offset always strictly forward |
| LogStream.CutAnywhere | ulog/src/cbuf_readerbase.cpp:70-74 | a file cut off at any byte is the whole packets before the cut and a tail of one more |
| LogStream.ShortEnd | ulog/src/cbuf_readerbase.cpp:36-80 | what less than a preamble at the end of a file comes to, by the 24 bytes read there: it is skipped, taken for a packet, passed as corrupted, or stops the reading |
| LogStream.LongTail | ulog/src/cbuf_readerbase.cpp:70-74 | a tail of at least eight bytes of a packet is skipped, whatever memory holds behind the file |
| LogStream.ShortTail | ulog/src/cbuf_readerbase.cpp:41-46 | a tail of at most four bytes with zeros behind it has no preamble that could begin a packet; of a longer one the bytes of the size decide |
| LogStream.CutOffEnd | ulog/src/cbuf_readerbase.cpp:67-79 | at a preamble whose size is larger than what is left of the file, nothing more comes of it |
| LogReader.Reader.Corrupted | ulog/src/cbuf_readerbase.cpp:41-41 | corrupted means no magic number or no size |
| LogReader.Reader.Recover | ulog/src/cbuf_readerbase.cpp:48-66 | on any bytes in which no metadata of size 0 is come to, every round leaves less of the file, so the loop ends; it ends at the first offset found where a packet can begin behind metadata, or at the end of the file, with one corruption counted each round |
| LogReader.Reader.PacketTime | ulog/src/cbuf_readerbase.cpp:36-80 | on any such bytes a stream is brought to the packet it comes to next and given its time; without one it is at its end and counts as very late, or stops the reading; corruptions are counted, and what was learned on the way is kept |
| LogReader.Reader.TimeHere | ulog/src/cbuf_readerbase.cpp:67-79 | a packet longer than what is left is skipped, whatever else counts |
| LogReader.Reader.PrepareStreams | ulog/src/cbuf_readerbase.cpp:36-80 | the same for all streams, none disturbing another, up to one that stops the reading; of no stream the packets still to come change |
| LogReader.Reader.FindEarliest | ulog/src/cbuf_readerbase.cpp:82-88 | the first stream with the least time |
| LogReader.Reader.ComputeNextSi | ulog/src/cbuf_readerbase.cpp:29-97 | over files of any bytes, finds a stream whose next packet is the earliest of all and not late; otherwise there is none and reading is finished, or a stream stops it and it is not |
| LogReader.Reader.ProcessMessage | ulog/include/cbuf_reader.h:474-503 | delivers that packet's bytes under the name and schema its file has told of its type, and moves past it and no other |
| LogDelivery.ReadAll | ulog/include/cbuf_reader.h:474-503 | for files of any bytes: each file is what was delivered from it and what is left, each packet delivered the earliest of those next, in time order if the files are; reading finishes if and only if no file whose packets are all in time ends in bytes that stop it, and stops as soon as such a file is at its end; if it finishes, of each file all that comes before the first late packet has been delivered, and every corruption passed is counted once |
| LogTrace.TraceOf | ulog/src/cbuf_readerbase.cpp:36-80 | from intact packets, whatever is behind them, reading comes to exactly the data packets in order with what the metadata before them told, and then to what those other bytes come to; without recovery several metadata packets at the end of a file stop it, if nothing behind the file looks like a preamble |
| LogTrace.TraceOfCut | ulog/src/cbuf_readerbase.cpp:67-79 | of a file cut off at any byte, reading comes to exactly the data packets that are whole, and then to what the rest of one more comes to; if that rest is eight bytes or more, to nothing, and reading ends there with no corruption |
| LogTrace.GapSkipped | ulog/src/cbuf_readerbase.cpp:48-66 | bytes in which no offset looks like a preamble are passed as one corruption, up to the packet behind them |
| LogTrace.TraceOfSegments | ulog/src/cbuf_readerbase.cpp:48-66 | with recovery, a file of intact packets with such bytes between them comes to all its packets, one corruption for each place |
| Interleaving.OrderedUntilLate | ulog/src/cbuf_readerbase.cpp:90-94 | in a file in time order the packets before the first late one are all that are not late |
| Interleaving.UntilLateIs | ulog/src/cbuf_readerbase.cpp:20-27 | with no end time, or one not positive, all packets are read; else exactly those in front of the first one later than it |
| Interleaving.TakeNext | ulog/src/cbuf_readerbase.cpp:82-97 | taking the earliest head loses and repeats nothing, and keeps everything taken the earliest of the heads of its time |
| Interleaving.Ordered | ulog/src/cbuf_readerbase.cpp:82-97 | from files in time order, deliveries are in time order over all files |
| Interleaving.AtTheEnd | ulog/src/cbuf_readerbase.cpp:90-94 | when all heads left are late, what was taken from a file is all of its packets before the first late one |
| LogMerge.OutputStream.LearnType | ulog/src/cbuf_stream.cpp:168-186 | metadata of a new type is learned; that of a known type is refused exactly if its schema text differs |
| LogMerge.OutputStream.MergePacket | ulog/src/cbuf_stream.cpp:161-220 | the packet is copied exactly if its type and time are wanted; metadata that contradicts what is known is refused, and the type is missing exactly if no metadata for it came before, both leaving everything as it was |
| LogMerge.KeptExactly | ulog/src/cbuf_stream.cpp:190-211 | of the packets taken, metadata is kept if and only if its type's name is wanted, and a data packet if also its time is between the two given, both included; in order |
| LogMerge.FindEarliest | ulog/src/cbuf_stream.cpp:234-245 | an input whose next packet is the earliest; none only if all are at their end |
| LogMerge.Merge | ulog/src/cbuf_stream.cpp:222-258 | merging self-contained files succeeds: it ends, the output is the wanted part of an interleaving that takes the earliest head each time and all of every input, it is self-contained, and no lookup misses |
| LogRoundTrip.LogAndReadBack | ulog/src/ulogger.cpp:124-220 | logging any packets with file splits, closing the last file and reading all of them back gives, file by file, exactly the accepted packets in the order logged, with the right name and schema for each, whether or not their times are in order |
| LogRoundTrip.ReadFiles | ulog/include/cbuf_reader.h:474-503 | of complete, self-contained files, all data packets are read, each file's in their order, under the right names and schemas, whatever their times |
| LogRoundTrip.LogAll | ulog/src/ulogger.cpp:311-351 | the files written, the last closed at the end, are self-contained and hold exactly the accepted packets in order |
| LogRoundTrip.ReadBesideCut | ulog/src/cbuf_readerbase.cpp:41-46 | next to a file of at most four bytes nothing of a complete file is read without recovery; with recovery all of it is, and one corruption counted |
| LogRoundTrip.ReadPhantom | ulog/src/cbuf_readerbase.cpp:67-79 | a file cut off behind the first byte of a size, if that byte is small, is delivered as a message of that many bytes, shorter than a preamble |
| LogRoundTrip.ReadCorrupted | ulog/src/cbuf_readerbase.cpp:48-66 | reading any number of files with corrupted bytes between their packets, with recovery, delivers every packet of every file in its order, under its type's name and schema where its file has told them, and counts one corruption for each place with such bytes |
| OperatorTable.SumsBindTighter | src/Parser.cpp:122-134 | under the table, 2*3+4 is 2*(3+4), with value 14 |
| OperatorTable.ParseUsual | src/Parser.cpp:701-737 | for every expression tree, its text with the parentheses that are usually necessary, products tighter than sums, is parsed to that tree if and only if nowhere a product is an operand of a sum |
| OperatorTable.ParseMinimal | src/Parser.cpp:701-737 | for every expression tree, its text with the parentheses that the table makes necessary is parsed to that tree, up to the first token after it |
| OperatorTable.SameText | src/Parser.cpp:701-737 | a text and its meaning determine the parentheses in it: two texts of one tree, one of them a front of the other, are equal |
| OperatorTable.UsualText | src/Parser.cpp:122-134 | a tree is written alike under both tables if and only if nowhere a sum is an operand of a product or a product of a sum |
| SchemaText.OperatorsMean | src/Parser.cpp:503-563 | on integers the operators are the usual ones, the quotient cut towards zero, the remainder with the sign of the dividend; dividing by zero has no value |
| SchemaText.OnlyNumbers | src/Parser.cpp:503-529 | nothing else than numbers can be calculated with |
| SchemaText.ListsMean | src/Parser.cpp:483-498 | a list has the values of all expressions in it, in order, or none if one has none |
| SchemaParser.Spine | src/Parser.cpp:701-730 | any text that is grouped as the table says, with whatever parentheses, is a leftmost operand and operators of descending precedence |
| SchemaParser.Parser.ParseExpression | src/Parser.cpp:732-737 | any text grouped as the table says, redundant parentheses included, parses to its meaning, up to the first token after it; and whatever any text parses to is the meaning of the tokens read, grouped as the table says |
| SchemaParser.Parser.ParseBinary | src/Parser.cpp:701-730 | the climbing loop applies exactly the operators not weaker than the level, in order, on any tokens |
| SchemaParser.Parser.ParseOperand | src/Parser.cpp:708-722 | a right operand takes all operators that bind tighter |
| SchemaParser.Parser.ParseUnary | src/Parser.cpp:685-699 | prefix signs bind tightest |
| SchemaParser.Parser.ParseSimpleLiteral | src/Parser.cpp:593-668 | literals and parenthesised expressions |
| SchemaParser.Parser.ParseArray | src/Parser.cpp:250-277 | lists in braces, not empty |
| SchemaParser.Parser.ParseValue | src/Parser.cpp:427-430 | a constant expression, grouped as the table says, and its value, if it has one |
| SchemaParser.Parser.ParseElement | src/Parser.cpp:279-478 | any element: in front of any text of the grammar what it means, and whatever is returned is what the tokens read mean |
| SchemaParser.Parser.ParseSuffixes | src/Parser.cpp:361-475 | any number of sizes and initialisers, in any order, up to the semicolon; an error where something else stands |
| SchemaParser.Parser.ParseArraySuffix | src/Parser.cpp:362-412 | one array suffix with its size a product of numbers, and @compact right behind it, or its refusal |
| SchemaParser.Parser.ParseSize | src/Parser.cpp:364-381 | the numbers between the brackets, and their product |
| SchemaParser.Parser.ParseInitialiser | src/Parser.cpp:413-470 | an identifier or a constant expression, or its refusal |
| SchemaParser.Parser.ParseType | src/Parser.cpp:283-347 | a built-in type or a name, qualified or not; whatever is returned was written there |
| SchemaParser.Parser.ParseStruct | src/Parser.cpp:739-777 | any struct: in front of any text of the grammar what it means, and whatever is returned is what the tokens read mean |
| SchemaParser.Parser.ParseEnum | src/Parser.cpp:779-869 | any enum, with or without class and a comma behind its last item: in front of any text of the grammar what it means, and whatever is returned is what the tokens read mean |
| SchemaParser.Parser.ParseItem | src/Parser.cpp:808-862 | one item, with or without a value of its own, up to its comma or the closing brace; one refused is an error |
| DeclSyntax.ProductIs | src/Parser.cpp:364-381 | an array's size is the product of the numbers in its brackets, cut to 64 bits once or at each step |
| DeclLaws.SuitsExactly | src/Parser.cpp:188-210 | a value suits a built-in type if and only if all values in it do, to any depth of lists (integers any number, floats f32 and f64, texts the strings), or as 0 or 1 a bool; a type of a name only a name suits |
| DeclLaws.ElementExactly | src/Parser.cpp:361-475 | an element is refused if and only if it has a second size, @compact on a dynamic array or strings, or an initialiser that has no value, does not suit the type, or is a list of other length than the size in front of it; otherwise its size is the one given and its initialiser the last |
| DeclLaws.StructExactly | src/Parser.cpp:739-777 | a struct is refused if and only if one of its elements is, and otherwise has all of them in order |
| DeclLaws.EnumExactly | src/Parser.cpp:779-869 | an enum is refused if and only if two items have one name or a value is no integer; otherwise it has all items in order, each with the value given or one more than the one before, the first 0 |
| DeclLaws.DeclsExactly | src/Parser.cpp:995-1035 | a namespace is refused if and only if a declaration in it is, and otherwise has what it had and then what is declared, structs and enums each in order |
| DeclLaws.SchemaExactly | src/Parser.cpp:975-1169 | a text is refused if and only if one of its declarations is; otherwise there is exactly one namespace of each name that is opened, however often, with all that is declared in it, and what stands outside is global |
| DeclWritten.LegalExactly | src/AstPrinter.cpp:64-119 | an element written with @compact behind its size means itself if and only if it is legal: a size below 2^64, @compact only on sized arrays other than of strings, an initialiser that agrees with type and size |
| DeclWritten.ElementAgain | src/AstPrinter.cpp:64-119 | an element comes back from its printed text if and only if it does not have both an initialiser and @compact |
| DeclWritten.StructAgain | src/AstPrinter.cpp:136-145 | the printed text of a legal struct is one of the grammar and means that struct |
| DeclWritten.EnumMeans | src/Parser.cpp:779-869 | an enum, written with its class mark, with or without a comma behind its last item, means itself if and only if its items are legal: names distinct, each value given or one more than the one before |
| DeclWritten.EnumAgain | src/Parser.cpp:779-869 | such a text is read back as that enum; the items of any enum accepted are legal |
| DeclWritten.LastComma | src/Parser.cpp:857-861 | the two texts differ in the last comma only |
| DeclWritten.EnumPrinted | src/AstPrinter.cpp:121-134 | a printed enum is read back without its class mark, and otherwise as it was |
| DeclWritten.SizeTooLate | src/Parser.cpp:453-468 | u8 a = 3[4]; is accepted, although u8 a[4] = 3; is not |
| SchemaReader.ParseBody | src/Parser.cpp:995-1035 | the declarations of a namespace up to its brace, in order: in front of any text of the grammar what it means, and whatever is returned is what the tokens read mean |
| SchemaReader.ParseNamespace | src/Parser.cpp:975-1037 | any namespace, its declarations added to those of the one of its name, if there is one: in front of any text of the grammar what it means, and whatever is returned is what the tokens read mean |
| SchemaReader.ParseInternal | src/Parser.cpp:1111-1169 | any text of declarations and namespaces up to its end: in front of any text of the grammar what it means, and whatever is returned is what the tokens read mean |
| SchemaReader.ParseTop | src/Parser.cpp:1111-1169 | the same for each declaration or namespace in it |
| SchemaReader.AllPrinted | src/AstPrinter.cpp:147-165 | the printed text of any list of namespaces is one of the grammar, and means these namespaces |
| SchemaReader.ReadPrinted | src/Parser.cpp:1111-1169 | the text of any list of namespaces, the global one included, reads back as those |
| SymbolTable.FirstFound | src/SymbolTable.cpp:75-95 | a struct is found if there is one of the name, and then the first |
| SymbolTable.FirstEnumFound | src/SymbolTable.cpp:97-116 | the same for enums |
| SymbolTable.StructSpace | src/SymbolTable.cpp:75-95 | a struct is found in the namespace if that declares it, else in the global one; it is not found exactly if the namespace is unknown or neither declares it |
| SymbolTable.EnumSpace | src/SymbolTable.cpp:97-116 | the same for enums |
| AstPrinter.Printer.PrintElem | src/AstPrinter.cpp:64-119 | the element's text, with the unprinted namespaces of its type in front of everything |
| AstPrinter.Printer.PrintStruct | src/AstPrinter.cpp:136-145 | the struct's text, with what its elements need in front |
| AstPrinter.Printer.PrintNamespace | src/AstPrinter.cpp:147-165 | the namespace's text, with what it needs in front; ends even if namespaces refer to each other |
| AstPrinter.Printer.PrintNeeded | src/AstPrinter.cpp:73-98 | a namespace not printed yet is printed into a buffer of its own and put in front |
| AstPrinter.Printer.PrintAst | src/AstPrinter.cpp:178-186 | the text consists of the namespaces reachable from the struct's, each exactly once, and no other |
| SchemaRoundTrip.PrintAndParse | src/AstPrinter.cpp:178-186 | the schema text of a struct parses back to the namespaces it was printed from, and every type in them has the hash it had, if and only if no type named in the text is lost |
| SchemaRoundTrip.SameLookup | src/SymbolTable.cpp:124-134 | a type named in the text is found again as it was, if and only if it was not found before or the namespace where it is looked up first is in the text |
| SchemaRoundTrip.OnlyFallbackLost | src/SymbolTable.cpp:75-95 | a type that is lost is one that the namespace where it is looked up first does not declare |
| SchemaRoundTrip.SameHashes | src/CBufParser.cpp:1080-1114 | every type in the text has the hash it had, to any depth of nesting, if and only if that holds of all types named in it |
| ShapeLaws.SameShapes | src/CBufParser.cpp:1080-1114 | two structs have the same shape, on which alone the hash depends, if and only if, to any depth, they agree in namespace and name, number of elements, and each element's name, array size and built-in type, enum or struct |
| ShapeLaws.OtherSize | src/CBufParser.cpp:1088-1090 | structs with another array size at one place have different shapes |
| ShapeLaws.NotHashed | src/CBufParser.cpp:1080-1114 | structs that differ in @compact, @naked or initialisers only have the same shape |
| SchemaRoundTrip.PrintedCovers | src/AstPrinter.cpp:147-186 | what is printed covers all that the types in it need |
| SchemaRoundTrip.QualifiedNameLost | src/SymbolTable.cpp:75-95 | a schema where it does not: the namespace named declares nothing, and the type is found globally |

## Left out

- NetCode.EncodeNet: the C++ also writes the size into the object's own preamble; here the object with its sizes set is the function Stamp of the value.
- NetCode.DecodeNet: reads past the buffer and writes past an array are reported as an outcome of their own and not followed further; slots of a compact array behind its count are not part of a value.
- NetCode.FieldNetSize: for an empty vector of structs the generated code calls a method on element 0, which C++ leaves undefined, before multiplying by zero.
- CBufParser.FastConversion: when a copy reads past the message, or a conversion is refused half way, nothing is said of the destination's own bytes; all other memory is still unchanged.
- Conversion.FieldsOutcome: casts between different number types are a parameter that is the identity on equal types; number bytes, floats included, are opaque.
- SchemaFlags.Layouts.ComputeSizes: sizes are unbounded, so the wrap-around of 32-bit sizes is not modelled; multi-dimensional arrays, which it refuses, do not exist in the schema type.
- RingBuffers.RingBuffer.AllocInner: waiting on a condition variable is the operation's precondition; requests of size 0 only make padding and are excluded.
- RingProtocol.StepKeeps: weak memory orderings and lost wakeups are not modelled; the logger's variant stamp is a write into the packet it holds.
- RingTheorems.Drain: every allocation has been populated by then; a producer that gives up without populating stops the loop.
- LogWriter.Logger.ProcessPacket: opening a file and writing to it always succeed; rotation from other threads is not modelled.
- LogStream.InputStream.DecodeMetadata: a metadata packet whose strings would end behind the file, which the C++ reads past the end, counts as refused here and in all that builds on it (`MetaAt`).
- LogStream.InputStream.SkipMetas: where a metadata packet of size 0 is come to, the C++ recurses until its stack ends; the contract excludes exactly these positions.
- LogRoundTrip.ReadCorrupted: corrupted bytes in which something looks like a preamble, or that begin like metadata of no size; there `ReadAll` says what is delivered by the positions that reading comes to (`NextAt`).
- CBufParser.Reader.ConvertVector: a vector onto which nothing is pushed is rewritten as the vector that it is, where C++ leaves its memory alone.
- ConversionLaws.CompactCount: for structs and short strings the slots that fit keep bytes from before, so whether they hold a value depends on these.
- LogReader.Reader.ProcessMessage: handlers and callbacks are the returned message; the start time only filters handlers; of a type its file has not told, the name and schema are empty.
- LogMerge.Merge: matching a filter name against a type name is a parameter; inputs are complete files that agree on their types (MergePacket says what becomes of others); of a packet that was cut off the C++ copies the whole size, past the end of the file.
- SchemaText.Evaluate: 64-bit overflow, float arithmetic and division by zero in constant expressions.
- SchemaParser.Parser.ParseExpression: after an error the C++ goes on reading before it gives up; here it stops at once. Literals that start with a period are left out.
- SchemaReader.ParseInternal: imports and constants, which the printer does not print.
- SchemaRoundTrip.SameHashes: the hash is a function of the shape of the type, not spelled out as a 64-bit number.
- get_or_search_string_for_hash, which can miss metadata that its own skipping consumed.
- The lexer, comments and string escapes; the text of floats is kept as it is printed.
- The Python and JSON bindings, CSV and text output, and the windowed reader.
- Memory pools, string buffers, memory mapping, files, clocks and host names.
