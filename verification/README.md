# A verified model of the bee-php client driver

The driver talks to a database server over a binary protocol: requests and replies are MessagePack elements in
length-prefixed packets. This project models four layers of it, each on the one below, and proves what they promise.

1. **MessagePack over PHP values.** `ByteStrings`, `MsgPuck` and `Wire` are the byte primitives; `PhpValues`, `Codec`
   and `RoundTrip` say what a value is packed to, how large that is, and what comes back; `Unpacker`, `SmartStrings`,
   `ZendHeap`, `Packer` and `Sizer` are the code itself, on a heap of PHP tables that may be shared and cyclic. Tables
   carry the recursion counter that bounds the walk. A specification function `Unfold` gives the finite value the
   guarded walk sees; `HeapPaths` says, path by path through the heap, what that is. `UnpackLaws` and `Formats` say
   what unpacking makes of arbitrary bytes: the keys, the engine's rules, and each format in literal bytes.
2. **Packets.** `Proto`, `Encoders` and `Actions` are the requests with their size computed in advance, `Responses` the
   parser that points into a reply without allocating, `Network` the read loop that hides how a stream is chunked.
3. **Schema cache.** `PairTables` is a table that holds every record under its name and under the four bytes of its
   number, with the flush that deletes while it iterates; `Rows` and `Schema` fill and empty it; `Catalogue` states
   what runs of lookups, loads and flushes answer; `Coherence` ties the allocated cache to that.
4. **Connection.** `Receive` and `Exchanges` judge a reply and keep the history of syncs; `SchemaReplies` and
   `SchemaLoads` say what replies to schema requests bring and load it; `Connections` has the reply step, the two
   resolvers and the authentication batch; `Sessions` has whole commands and runs of them; `UpdateOps` checks update
   operations.

Cursors are modelled as the bytes from the cursor to the end of the allocation, so a parser that does not look at the
length of its packet reads on in the buffer as the C code does. Doubles are eight opaque bytes. Integers are unbounded
and cut to 32 or 64 bits where the code does. Results named `Fault` and `Crash` stand for what the C code leaves
undefined: a read past the allocation, a null pointer, a pointer freed before it is set, a number decoded from
something else.

Side conditions the code needs, and where they show:

- Table keys that are non-negative, and string keys that PHP does not read as integers: exactly the values for which
  the round trip keeps the meaning (`RoundTrip.SurvivesExactlyWhenClean`, `PhpValues.ListFormComplete`).
- No cached name is the four-byte image of a cached number: exactly when lookups are right
  (`Catalogue.RightExactlyWhenNoImage`). The number 2^32 - 1 reads as "not found".
- Fewer than 2^32 requests, because requests carry the sync cut to 32 bits (`Exchanges.NoStaleReply`).
- Request payloads shorter than 2^32 bytes (`Proto.FrameDelimits`), and reply bodies shorter than 2^31 bytes: the read
  loop returns its count as an `int`, so a longer body is taken off the stream and reported as not read
  (`Network.NextOfFrame`).
- A reply with a wrong sync closes the stream only if its body can be unpacked
  (`Receive.MismatchClosesExactlyWhenBodyUnpacks`, and `Receive.MismatchClosesExactly` for arbitrary bytes).
- The flush loses a record in some slot order exactly for the tables described in
  `PairTables.ReleasesAllExactlyWhenNotProne`; tables loaded from a catalogue are not among them. A record loaded
  again is overwritten and never released (`PairTables.HistoryReleases`, `PairTables.OverwrittenLeaks`).

A class whose methods change state has specification functions for its contents; `Abs` is the plain cache behind the
allocated one, `LineOf` a connection seen from the wire. A connection keeps two histories that only proofs see: the
syncs with the verdicts on their replies (`History`), and the events its cache has been through (`Tracked`). Every
operation extends them and keeps what they say, so what is proved about histories holds for every run of operations.

Parameters stand for the outside: how a write goes, what single reads will yield, the bytes of requests that a
third-party header writes, and the junk found in the integer slot of a value that is no integer.

## Model

| member | source | states |
|---|---|---|
| MsgPuck.ReadUint | src/third_party/msgpuck.h:1221-1309 | an unsigned number written in its smallest format is read back as itself, and the reader stops right after it, whatever follows |
| MsgPuck.ReadInt | src/third_party/msgpuck.h:1250-1278 | the same for negative numbers |
| MsgPuck.ReadStr | src/third_party/msgpuck.h:1493-1525 | the same for strings of every length below 2^32 |
| MsgPuck.ReadArray | src/third_party/msgpuck.h:1043-1105 | the same for array heads |
| MsgPuck.ReadMap | src/third_party/msgpuck.h:1119-1170 | the same for map heads |
| Wire.ScanIsParse | src/third_party/msgpuck.h:1841-1938 | counting down pending elements without building anything accepts exactly the element sequences that parse, and stops where they end |
| Wire.Check | src/third_party/msgpuck.h:1841-1938 | validation: a complete element is always accepted with the cursor after it; an incomplete one is refused, except that a scan stopped by a 16-bit map head without its count is accepted |
| Wire.ScanStops | src/third_party/msgpuck.h:1841-1938 | a scan that does not come to the end stops at a head that does not fit, and that head is let through if and only if its first byte is 0xde |
| Wire.Next | src/third_party/msgpuck.h:1745-1838 | skipping moves exactly past one complete element, and leaves the buffer when there is none |
| Wire.ParseMore | src/third_party/msgpuck.h:1745-1838 | a complete element is read the same way whatever bytes follow it |
| PhpValues.ListTestExact | src/bee_msgpack.c:95-112 | with non-negative integer keys the list/map test says list if and only if the next free index is the size and the keys are exactly 0..n-1 (pigeonhole) |
| PhpValues.ListFormComplete | src/bee_msgpack.c:95-137 | for a table classified as a list, no index is missing if and only if no key is negative |
| PhpValues.NegativeKeyPassesListTest | src/bee_msgpack.c:95-112 | the keys -5 and 1 pass the list test although index 0 is missing |
| PhpValues.CanonicalExactlyWhenPrinted | src/bee_msgpack.c:335-338 | a string key denotes an integer if and only if it is that integer as PHP prints it, with a minus sign before a negative one, no leading zero and "0" for 0, and the integer fits 64 bits |
| PhpValues.SymKeyExact | src/bee_msgpack.c:335-338 | an associative store uses the integer that a string is the print of, and every other string as it is |
| Codec.SizeofIsLength | src/bee_msgpack.c:526-553 | the size computed for a value is the number of bytes it is packed to, for every value |
| RoundTrip.ParseEncoded | src/bee_msgpack.c:185-213 | the packed form of every value is one complete element, so what follows it is left untouched |
| RoundTrip.PackUnpack | src/bee_msgpack.c:381-408 | unpacking a packed value followed by any bytes succeeds, yields the decoded value, and leaves the cursor at those bytes |
| RoundTrip.MapFormContent | src/bee_msgpack.c:315-364 | a map-form table keeps its meaning if and only if its keys are clean and each value keeps its meaning |
| RoundTrip.ListFormContent | src/bee_msgpack.c:366-379 | a list-form table keeps its meaning if and only if no key is negative and each value keeps its meaning |
| RoundTrip.SurvivesExactlyWhenClean | src/bee_msgpack.c:185-213 | a value keeps its key-to-value meaning through packing and unpacking if and only if at every depth it holds no object or resource, no string key PHP reads as an integer, and no negative key in a list-form table |
| RoundTrip.MapFormKeepsOrder | src/bee_msgpack.c:139-183 | a clean map-form table comes back with its keys in the order they had |
| Formats.OneByteFormats | src/bee_msgpack.c:217-224 | in literal bytes: what nil, the truth values and the one-byte integers are unpacked to |
| Formats.UintFormats | src/bee_msgpack.c:226-231 | in literal bytes: what the four unsigned formats are unpacked to; numbers of 2^63 and more become negative |
| Formats.IntFormats | src/bee_msgpack.c:233-238 | in literal bytes: what the four signed formats are unpacked to, positive numbers among them |
| Formats.StringFormats | src/bee_msgpack.c:240-257 | in literal bytes: strings and binary data of every head become strings |
| Formats.FloatFormats | src/bee_msgpack.c:269-281 | in literal bytes: the bits of both floating-point formats are kept |
| Formats.ExtFormats | src/bee_msgpack.c:404-407 | in literal bytes: all eight extension formats are refused |
| Formats.ArrayFormats | src/third_party/msgpuck.h:1091-1105 | in literal bytes: how many elements each array head announces |
| Formats.MapFormats | src/third_party/msgpuck.h:1156-1170 | in literal bytes: how many pairs each map head announces |
| Formats.ItemsInOrder | src/bee_msgpack.c:366-379 | an array is unpacked to its elements in order under 0, 1, 2 and so on |
| Formats.SmallestLong | src/bee_msgpack.c:53-58 | no head of an integer is shorter than the one the packer writes for it |
| Formats.SmallestRest | src/bee_msgpack.c:74-93 | the same for strings and for the heads of arrays and maps |
| UnpackLaws.PairsStored | src/bee_msgpack.c:315-364 | a map is unpacked to a table with exactly the keys its pairs store under, each with the value of the last pair that stores there: integers under themselves, strings under the integer they are the print of, if any, and else under themselves |
| UnpackLaws.LeadingZeroStays | src/bee_msgpack.c:335-338 | the bytes of {"01234": 1} are unpacked to a table with the string key "01234" |
| UnpackLaws.PrintedKeyTurns | src/bee_msgpack.c:335-338 | the bytes of {"1234": 1} are unpacked to a table with the integer key 1234 |
| UnpackLaws.UnpacksExactly | src/bee_msgpack.c:330-355 | an element is unpacked if and only if there is no extension value in it and every key of its maps is an integer, a string or binary data |
| UnpackLaws.UnpackKeepsRules | src/bee_msgpack.c:315-379 | whatever bytes are unpacked, every table in the value has each key once and a next free index that is one above its largest non-negative integer key or 0, so it can be packed again |
| Unpacker.UnpackAny | src/bee_msgpack.c:381-408 | the cursor-driven unpacker returns what the element at the cursor stands for with the cursor after it, or the first failure (a key that is no integer or string, an ext value), and leaves the buffer only if the element is incomplete |
| Unpacker.UnpackArray | src/bee_msgpack.c:366-379 | the same for the element loop of arrays |
| Unpacker.UnpackMap | src/bee_msgpack.c:315-364 | the same for the pair loop of maps; which keys they are stored under is UnpackLaws.PairsStored |
| SmartStrings.SmartString.Ensure | src/bee_msgpack.c:15-24 | after a reservation the contents are the same and the used length plus the reserved bytes is strictly below the capacity |
| SmartStrings.SmartString.Append | src/bee_msgpack.c:74-79 | appending adds the bytes after the contents and writes nothing past them |
| SmartStrings.SmartString.Reset | src/bee.c:148-149 | the length becomes 0 and the whole allocation is zeroed |
| ZendHeap.EnterSpends | src/bee_msgpack.c:125-134 | entering a nested table strictly lowers the sum over all tables of 2 minus the counter, which is what makes the walk end on cyclic heaps |
| ZendHeap.AcyclicSeesAll | src/bee_msgpack.c:125-134 | on an acyclic heap with all counters at zero the guard never bars a table |
| Packer.IsHashTable | src/bee_msgpack.c:95-112 | the loop over the keys decides the list/map test |
| Packer.PackLong | src/bee_msgpack.c:53-58 | appends the smallest format of an integer |
| Packer.PackString | src/bee_msgpack.c:74-79 | appends a string |
| Packer.Pack | src/bee_msgpack.c:185-213 | on every heap, cyclic ones included, packing ends, writes within the capacity and restores every counter; what it appends is one element and unpacks to a value that agrees with the heap at the end of every path: null exactly where the counter of a table, raised by the entries on the way, is above 1, and else the scalar there or a table with the keys of the table there |
| Packer.PackArrayRecursively | src/bee_msgpack.c:114-137 | the same for a list-form table: one element per index, nil where one is missing or barred |
| Packer.PackHashRecursively | src/bee_msgpack.c:139-183 | the same for a map-form table: its pairs in table order, nil for barred values |
| HeapPaths.WalkShows | src/bee_msgpack.c:125-134 | what the guarded walk sees agrees with the heap at the end of a path of entry positions, for every path no step of which before the last is cut |
| HeapPaths.WalkMirrors | src/bee_msgpack.c:169-180 | the same for all paths of a value at once |
| HeapPaths.LoopPacked | src/bee_msgpack.c:125-134 | the list [1, itself] is packed to 92 01 92 01 92 01 c0 |
| Sizer.SizeofAny | src/bee_msgpack.c:526-553 | on every heap sizing ends, returns the size of the value the guarded walk sees, and restores every counter |
| Sizer.SizeofArrayRecursively | src/bee_msgpack.c:449-474 | the same for list-form tables |
| Sizer.SizeofHashRecursively | src/bee_msgpack.c:476-523 | the same for map-form tables |
| Sizer.SizeMatchesPack | src/bee_msgpack.c:449-553 | for every value in every heap, cyclic ones included, the computed size is the number of bytes packing appends |
| Sizer.AcyclicRoundTrip | src/bee_msgpack.c:381-408 | on an acyclic heap the packed bytes, whatever follows them, unpack with the cursor after them to a value that means what the whole value means if and only if that is clean |
| Sizer.GuardedRoundTrip | src/bee_msgpack.c:381-408 | on any heap the packed bytes unpack to the decoded form of what the guarded walk saw |
| Proto.PackageSizeRoundTrip | src/bee_msgpack.c:561-571 | the five-byte prefix is read back as the number modulo 2^32 |
| Proto.FrameDelimits | src/bee_proto.c:14-22 | the prefix announces the payload if and only if the payload is shorter than 2^32 bytes, and exactly the payload follows it |
| Proto.FrameMeaning | src/bee_proto.c:64-273 | every request frame is self-delimiting: after the prefix, exactly the announced bytes follow, and they unpack to the header with type and sync and then to a body map holding exactly the request's fields in order |
| Encoders.SizeIsPayload | src/bee_proto.c:72-90 | the separately written size functions give the payload length of every request, for select even though the call passes limit and offset in each other's place |
| Encoders.PackHeader | src/bee_proto.c:14-22 | appends the size prefix and the header map |
| Encoders.EncodePing | src/bee_proto.c:64-70 | appends exactly the frame of a ping |
| Encoders.EncodeSelect | src/bee_proto.c:92-115 | appends exactly the frame of a select, for a key anywhere in the heap, and restores the counters |
| Encoders.EncodeInsertOrReplace | src/bee_proto.c:127-139 | the same for insert and replace |
| Encoders.EncodeDelete | src/bee_proto.c:154-168 | the same for delete |
| Encoders.EncodeCall | src/bee_proto.c:180-191 | the same for call |
| Encoders.EncodeEval | src/bee_proto.c:203-214 | the same for eval |
| Encoders.EncodeUpdate | src/bee_proto.c:231-247 | the same for update |
| Encoders.EncodeUpsert | src/bee_proto.c:261-273 | the same for upsert |
| Actions.EncodeAction | src/bee_proto.c:64-273 | whichever of the nine requests a command makes, exactly its frame is appended behind what the buffer held; in the numbers of the protocol it says the action's type, the sync, and the action's own space, index, limit, offset, iterator, key, tuple, operations, name or expression under their keys |
| Actions.FrameSays | src/bee_proto.h:24-60 | in the numbers of the protocol: the frame of each of the nine actions starts with 0xce and its length, its header unpacks to 0 for the type and 1 for the sync, and its body to exactly the keys of the action in order with its own numbers and strings, and values that agree with the heap |
| Responses.ParseHeader | src/bee_proto.c:281-302 | the header loop succeeds exactly when keys and values are complete unsigned numbers; the last duplicate of sync and of code counts; it refuses exactly where an element of another kind starts |
| Responses.ParseBody | src/bee_proto.c:303-329 | the body loop succeeds exactly when keys are unsigned numbers, an error is a string and data an array; the last duplicates count; it refuses exactly where a value of an error or of data is of another kind |
| Responses.ParseResponse | src/bee_proto.c:275-331 | the slice parser succeeds exactly on well-formed packets, its result is the length of header plus body, and sync, code (15 bits under an error), error text and data slice are those of the last such keys; it gives -1 exactly where an element of a wrong kind starts, and on anything else that is not well-formed it leaves defined behaviour |
| Responses.WellFormedMore | src/bee_proto.c:275-331 | the parser does not look at the length of the packet: a well-formed reply is read as the same two trees whatever lies behind it in the buffer |
| Responses.KeysAreCut | src/bee_proto.c:288-288 | keys that differ by a multiple of 2^32 count as the same |
| Responses.LookupIsLast | src/bee_proto.c:285-329 | looking a key up in the unpacked map finds the value of its last duplicate on the wire |
| Responses.SlicesAgree | src/bee_proto.c:275-331 | with small keys the slices agree with the fully unpacked header and body maps: sync under 0x01, code under 0x00 (15 bits under an error), error text under 0x31, and the data slice unpacks to the body's entry under 0x30 |
| Network.Stream.Read | src/bee_network.c:118-119 | one read yields at most the bytes asked for from the next chunk and loses none |
| Network.Stream.Send | src/bee_network.c:133-139 | a send is good only if all bytes were taken and the flush succeeded |
| Network.ReadExact | src/bee_network.c:112-126 | the read loop fills the buffer with the next bytes of the stream however they are chunked and takes fewer only when a read yields nothing; its result is the count cut to a signed 32-bit number |
| Network.ReadBlock | src/bee.c:178-181 | a block compared with its size: it counts as read if and only if the stream yields it in full and it is shorter than 2^31 bytes; a longer one is taken off the stream and yet reported as not read |
| Network.NextOfFrame | src/bee.c:355-372 | a framed packet of fewer than 2^32 bytes is read back if and only if it is shorter than 2^31 bytes; in either case the stream is right after it |
| Network.ReadPacket | src/bee.c:355-372 | reads the length and the body of one packet into the buffer and leaves the stream right after it; a body of 2^31 bytes or more is taken and refused; on every path exactly the bytes it took are gone from the stream |
| Network.NextPacketExact | src/bee.c:355-372 | the next packet in terms of the bytes of its length: fewer than five, no number that fits them, a body that is short, too long, or there |
| Network.PacketsOfFrames | src/bee_network.c:112-126 | reading packet by packet goes through any list of framed packets, whatever follows them, and recovers the list if and only if all its packets are shorter than 2^31 bytes |
| Network.ChunkedFrames | src/bee_network.c:112-126 | the same for any division of the bytes into non-empty chunks |
| Network.BoundaryAfter | src/bee_network.c:112-126 | taking some of the packets of a run of frames leaves the stream at the next frame, also behind packets too long to be received |
| PairTables.FlushSafe | src/bee_schema.c:156-183 | while the flush deletes under its own iteration, in any slot order: slots visited are empty, no record is released twice, and nothing released is still in the table |
| PairTables.FlushEmpties | src/bee_schema.c:156-183 | the flush leaves the table empty |
| PairTables.ReleasesAllExactlyWhenNotProne | src/bee_schema.c:156-183 | every record is released in every slot order if and only if no record has all its entries pointed at by entries of others |
| PairTables.StaleHalvesLeak | src/bee_schema.c:254-268 | three additions after which the flush can lose a record |
| PairTables.BijectiveReleasesAll | src/bee_schema.c:156-183 | with names and numbers in bijection the flush releases every record the table holds exactly once in every slot order |
| PairTables.AddBacked | src/bee_schema.c:254-268 | an addition keeps every name entry backed by a number entry, and its two entries are halves of one record |
| PairTables.AddAllBacked | src/bee_schema.c:254-268 | the same for every sequence of additions |
| PairTables.AddAllAppend | src/bee_schema.c:276-292 | loads one after another are one run of additions |
| PairTables.HeldExactlyWhenNewest | src/bee_schema.c:262-267 | over every history of additions with names and numbers in bijection, a record is still in the table if and only if its name was not added again |
| PairTables.HistoryReleases | src/bee_schema.c:156-183 | over every such history, in every slot order, the flush releases a record if and only if its name was not added again, and no record twice |
| PairTables.HistoryReleasesAllExactlyWithoutRepeats | src/bee_schema.c:156-183 | every record ever added is released exactly once if and only if no name was added twice |
| PairTables.OverwrittenLeaks | src/bee_schema.c:262-267 | one record loaded twice: the first copy is never released |
| Rows.ReadSpaceRow | src/bee_schema.c:185-258 | reads a space row: the first field, the third, and four more; it is refused exactly where an opened row has a first or third field of another kind, and everything else leaves defined behaviour, short rows included, for which the code frees a pointer that was never set |
| Rows.ReadIndexHead | src/bee_schema.c:298-304 | reads an index row up to its space number; every row that fails here makes the code free a pointer that was never set |
| Rows.ReadIndexTail | src/bee_schema.c:312-323 | reads number and name of an index row and skips three fields; it is refused exactly where the number or the name is of another kind, and otherwise read out of bounds |
| Rows.ShortRowsBreak | src/bee_schema.c:188-196 | a row that announces five fields or fewer is neither read nor refused but leads out of defined behaviour |
| Rows.SpaceTuplesRead | src/bee_schema.c:286-291 | any number of seven-field space tuples is read in order up to the end of the last |
| Rows.IndexTuplesRead | src/bee_schema.c:384-388 | the same for six-field index tuples |
| Rows.RowEndExactlyWhenSeven | src/bee_schema.c:192-212 | the cursor ends at the end of a complete space row if and only if the row has seven fields, though rows announcing six are let in |
| Rows.SixFieldsOverrun | src/bee_schema.c:192-212 | after a row of six fields the reader takes the next element of the data as the seventh field |
| Rows.SixFieldsRow | src/bee_schema.c:192-212 | such a row: it is followed by a nil, which is swallowed |
| Schema.FlushTable | src/bee_schema.c:71-98 | the flush loop of one table releases what the fold over the slots says and no record twice |
| Schema.SpaceArrayLoads | src/bee_schema.c:276-292 | a complete array of space tuples is taken in full and the cursor ends at the end of the data |
| Schema.IndexArrayLoads | src/bee_schema.c:374-390 | the same for index tuples |
| Schema.SchemaCache.GetSid | src/bee_schema.c:392-402 | the number stored under the name, read as a signed 32-bit number, or -1 |
| Schema.SchemaCache.GetIid | src/bee_schema.c:404-419 | the number stored under the name below the space number, or -1 |
| Schema.SchemaCache.AddSpace | src/bee_schema.c:185-274 | adds a fresh record with an empty index table under name and number, or changes nothing; tells exactly the rows that are refused from those on which the code leaves defined behaviour |
| Schema.SchemaCache.AddIndex | src/bee_schema.c:294-372 | adds a fresh record to the index table found under the space number and changes no other table, or changes nothing; tells exactly the rows that are refused, an unknown space among them, from those on which the code leaves defined behaviour |
| Schema.SchemaCache.AddSpaces | src/bee_schema.c:276-292 | the table becomes the fold of the rows onto the old one, each with its own fresh record; it stops before the first row that cannot be read, and whether that row is refused or leaves defined behaviour is told exactly |
| Schema.SchemaCache.AddIndexes | src/bee_schema.c:374-390 | every index table becomes the fold of the rows of its space; it stops before the first row that cannot be read or names an unknown space, and whether that row is refused or leaves defined behaviour is told exactly |
| Schema.SchemaCache.FlushSlot | src/bee_schema.c:160-182 | one step of the flush removes the two entries and empties the index table of the record it releases |
| Schema.SchemaCache.Flush | src/bee_schema.c:156-183 | leaves the cache empty and releases every name buffer and every index table at most once |
| Catalogue.RightExactlyWhenNoImage | src/bee_schema.c:392-402 | a cache in agreement with the catalogue answers -1 or the catalogue's number if and only if the query is not the four-byte image of a catalogued number it holds |
| Catalogue.ImageAnswered | src/bee_schema.c:392-402 | with the space "a" of number 1 cached, the query of the bytes 01 00 00 00 is answered 1 though no space has that name |
| Catalogue.RunAgrees | src/bee.c:793-912 | in every run of lookups, bulk loads and flushes the cache agrees with the fixed catalogue after every event |
| Catalogue.EveryAnswerIsRight | src/bee.c:793-912 | every lookup in every run returns -1 or exactly the catalogue's number, unless the query is the image of a catalogued number |
| Catalogue.SuccessfulAnswersAreEqual | src/bee.c:793-912 | successful lookups of one query return the same number, whatever loads and flushes lie between them |
| Catalogue.ResolvedAsksOnce | src/bee.c:799-801 | a space name that has resolved once causes no further request until the flush |
| Catalogue.ResolvedIndexAsksOnce | src/bee.c:861-863 | an index that has resolved once is found without a request until its space is added again or flushed |
| Catalogue.ServedAskResolves | src/bee.c:840-848 | a miss that the server answers with the name among its rows resolves to the catalogue's number |
| Catalogue.ServedAskIndexResolves | src/bee_schema.c:305-307 | an index miss that the server answers with the name among its rows resolves to the catalogue's number if the space is cached under its number, and to -1 otherwise, as after a flush |
| Catalogue.LoadedSpaces | src/bee_schema.c:276-292 | every space of a load is answered with its number afterwards |
| Catalogue.LoadedIndexes | src/bee_schema.c:302-308 | every index added through a space number is found by lookups below that space afterwards |
| Catalogue.LoadedSpaceFoundLater | src/bee_schema.c:254-268 | in every run, a space taken in by any load is found by every later lookup with its number and without a request, until the flush |
| Catalogue.LoadedIndexFoundLater | src/bee_schema.c:302-308 | in every run, an index added through the number key of its space is found by every later lookup on that space with its number and without a request, until the space is added again or flushed |
| Catalogue.ResolvedIsRight | src/bee.c:793-912 | what a resolver returns as the reply to its event is -1 or exactly the catalogue's number, unless the query is the image of a catalogued number |
| Coherence.SpacesLoaded | src/bee_schema.c:254-270 | the allocated cache after a load of catalogued spaces is the plain cache the event describes |
| Coherence.SpacesStayTidy | src/bee_schema.c:254-270 | a load of catalogued spaces keeps agreement with the catalogue and keeps names backed by numbers at both levels |
| Coherence.IndexesLoaded | src/bee_schema.c:354-368 | both of these for a load of catalogued indexes |
| Coherence.TidyFlushesAll | src/bee_schema.c:156-183 | the flush of a cache in agreement with a catalogue releases every space record and every index record it holds exactly once, in every slot order |
| Coherence.CataloguedHistoryReleases | src/bee_schema.c:156-183 | after any loads of catalogued records, into the table of spaces or that of the indexes of one space, the flush releases a record if and only if it is the newest one loaded under its name |
| SchemaReplies.ReplyParsed | src/bee.c:1215-1243 | the sync, the absence of an error and the data the slice parser reports are those of the two trees of the reply |
| SchemaReplies.SpaceAnswerRead | src/bee.c:1227-1234 | the rows of a full space answer are all spaces of the catalogue and nothing else |
| SchemaReplies.IndexAnswerRead | src/bee.c:1235-1242 | the rows of a full index answer are all indexes of the catalogue and nothing else |
| SchemaReplies.OrderlyLoads | src/bee.c:1227-1242 | data made of well-formed tuples never leads a load out of defined behaviour |
| SchemaReplies.ReplyInWindow | src/bee.c:1214-1215 | the reply is parsed in the buffer it was read into, past the end of the packet if need be; what a complete reply says is the same there |
| SchemaReplies.TameLoads | src/bee.c:840-843 | a reply with tuples of the right kind never leads the load that follows a lookup out of defined behaviour |
| SchemaReplies.PassesExactlyWithoutError | src/bee.c:1220-1224 | a packet that is itself a well-formed reply goes through as good exactly when it reports no error |
| Receive.CompleteReplyJudged | src/bee.c:374-420 | a reply with a complete header and body is judged by these two elements alone, whatever else lies in the buffer, although the second validation uses the whole packet size |
| Receive.AcceptedSync | src/bee.c:393-409 | whatever bytes arrive, a delivered reply has the code 0 under 0x00 and under 0x01 no sync but the expected one |
| Receive.MismatchClosesExactlyWhenBodyUnpacks | src/bee.c:384-402 | a complete reply with a wrong sync is never delivered, and it closes the stream if and only if its body can be unpacked |
| Receive.MismatchClosesExactly | src/bee.c:384-402 | whatever bytes arrive: once the header is unpacked with a wrong sync the reply is not delivered, and it closes the stream if and only if the body unpacks, or fails to validate with enough bytes left in the buffer to look at |
| Receive.IncompleteReplyJudged | src/bee.c:377-416 | a complete reply whose header is no table, or whose body holds what cannot be unpacked, is refused and the stream kept; one without a code closes the stream; an error without a text is read where there is nothing |
| Receive.CutReplyJudged | src/bee.c:374-387 | bytes that do not hold a whole header leave the stream open, and bytes that do not hold a whole body behind it close it |
| Receive.StaleReplyKept | src/bee.c:388-402 | a stale reply with an ext body is refused with the stream kept |
| Exchanges.NoStaleReply | src/bee.c:1298-1304 | while fewer than 2^32 syncs were issued, a delivered reply with an integer sync bears the number its own request went out with, and no other request that drew a sync from the counter, lookups, batches and other connections included, went out with that number |
| Exchanges.Counter.Take | src/bee.c:1298-1298 | hands out every number once and records it |
| Exchanges.JudgeBuffer | src/bee.c:374-420 | validates, unpacks and compares in the source's order; its verdict is the judgement of the buffer |
| Exchanges.PackedReplyDelivered | src/bee.c:374-409 | end to end: a reply packed from code OK, the request's sync and any body is delivered with the body as packing and unpacking leave it |
| Exchanges.PackedErrorReported | src/bee.c:411-419 | a reply packed from the code 0x8024, the request's sync and a text is reported with the code 36 and the text |
| Exchanges.JudgedWithheld | src/bee.c:355-372 | a reply that does not arrive: fewer than five bytes close the stream, a body that is short or of 2^31 bytes or more is refused with the stream kept |
| Exchanges.AnswerJudged | src/bee.c:374-420 | the answer to a request is delivered if and only if its code is 0; with any other code it is reported as an error with the code cut to 15 bits and the text under 0x31; it is refused only for a bad key or an ext value, and never closes the stream |
| SchemaLoads.TakeSpaces | src/bee.c:840-843 | a bulk load of spaces takes the longest readable prefix of rows, and on catalogued rows does what the event says; it leaves defined behaviour exactly when the row after them is neither read nor refused |
| SchemaLoads.TakeIndexes | src/bee.c:903-906 | the same for indexes of known spaces |
| SchemaLoads.TakeBatchReply | src/bee.c:1214-1247 | one reply of the batch is loaded according to its sync; the three kinds of good reply have their full effect; success implies a well-formed reply without an error |
| Connections.Connection.SendBuffer | src/bee.c:143-151 | a request that went out, with all its bytes and the flush, empties the buffer; after a failed send its bytes stay |
| Connections.Connection.StepRecv | src/bee.c:351-431 | reads one packet behind what the buffer holds, judges the buffer from its start, closes the stream exactly on the verdicts that call for it, a missing length among them and a missing body not, and empties the buffer |
| Connections.Connection.Finish | src/bee.c:1299-1305 | the verdict is that on the next packet of the stream, and for an answer it is delivery exactly with code 0 and else the error the answer reports; keeps the history of syncs and replies in order on every path; after an answer from the server the stream is at the next packet and the buffer is empty |
| Connections.Connection.PutRequest | src/bee.c:1349-1351 | draws a fresh sync and appends exactly the frame of the action's request to the buffer |
| Connections.Connection.Submit | src/bee.c:1298-1308 | the exchange of every command: what the buffer held and the frame of the request go out; the verdict is that on the next packet and is logged with the fresh sync; after an answer the stream is at the packet after it and the buffer is empty |
| Connections.Connection.SendRequest | src/bee.c:803-813 | the request replaces the buffer from its start and goes out |
| Connections.Connection.AskServer | src/bee.c:803-838 | one exchange of a resolver: the reply is what the parser makes of the buffer the next packet was read into, after which the stream is at the packet after it with the buffer empty; it leaves defined behaviour exactly where the length or the parser does |
| Connections.Connection.LookUpSpace | src/bee.c:793-849 | a cached name causes no exchange and no change; a missing one exactly one; seen from the catalogue the lookup does what its event says and returns the reply to it |
| Connections.Connection.LookUpIndex | src/bee.c:851-912 | the same for index names |
| Connections.Connection.GetSpaceNo | src/bee.c:793-849 | the lookup becomes the next event of the run the cache has been through, the contents of the cache stay those the run leads to, and the number returned is the reply to that event in that run |
| Connections.Connection.GetIndexNo | src/bee.c:851-912 | the same for index names |
| Connections.Connection.FlushSchema | src/bee.c:1278-1284 | empties the cache, which is one event of the run |
| Connections.Connection.BatchTurn | src/bee.c:1201-1247 | one reply of the batch is read, and handled unless an earlier one failed; the rows it brings are loaded by its sync |
| Connections.Connection.RememberedTurn | src/bee.c:1201-1247 | the same as an event of the run the cache has been through |
| Connections.Connection.Drain | src/bee.c:1201-1250 | unless the code leaves defined behaviour, exactly three packets are taken off the stream, also after one of them failed; three good replies with the spaces before the indexes load the full catalogue |
| Connections.Connection.Authenticate | src/bee.c:1174-1251 | flushes the cache, sends three requests with three fresh syncs in one write, and drains three replies unless the code leaves defined behaviour; with good replies the cache holds the full catalogue wherever the authentication reply falls; success implies three replies without an error; for the run of the cache it is a flush and the loads that came |
| Sessions.SpaceFor | src/bee.c:1331-1332 | the space lookup of a command: a cached name costs nothing and keeps what the buffer held; a missing one costs one request and one packet, behind which the stream is at a packet and the buffer empty, also when the server answered with an error or without the name; the number is the catalogue's |
| Sessions.IndexFor | src/bee.c:1333-1337 | the same for the index of a command |
| Sessions.NumbersFor | src/bee.c:1331-1337 | both lookups of a command in a row: at most two packets, and the same boundary however they end |
| Sessions.SpaceOnWire | src/bee.c:1350-1351 | a name that resolved goes into the request as exactly the catalogue's number |
| Sessions.Perform | src/bee.c:1312-1362 | a whole command with its lookups, any of the nine requests and any failing write: the requests that went out, the sync and verdict logged, the numbers used, delivery exactly with code 0 and else the error the answer reports, and the packet boundary with an empty buffer, whether it ends with a reply, a query error, a failed lookup or a refused argument |
| Sessions.Take | src/bee.c:1174-1310 | one step of a session, a command, a schema flush or an authentication: served in order, it leaves the stream behind exactly the packets of its requests and the buffer empty, unless the code leaves defined behaviour in a load |
| Sessions.Session | src/bee.c:1174-1551 | every run of commands, flushes and authentications against a stream that holds one framed answer, shorter than 2^31 bytes, for each request in order: at its end the stream is at a packet boundary, the buffer is empty and one sync was drawn per packet; it breaks off only if a load leaves defined behaviour, with a read outside the buffer or on a row too short for a record, which tuples of the right kind never cause |
| UpdateOps.VerifyOp | src/bee.c:652-756 | accepts an operation exactly when its keys are "op", "field", "arg" with one of + - & ^ # and the vertical bar and an integer argument or = ! and an argument that can be packed, or "op", "field", "offset", "length", "list" with a colon, integers and a string; the result is literally the list of these values in this order |
| UpdateOps.VerifyArgs | src/bee.c:758-791 | accepts a list exactly when it is one by its keys and next free index with an operation of one of the two forms under every index; output i is literally the list of the values of operation i |
| UpdateOps.AcceptsExactly | src/bee.c:652-756 | what is accepted are exactly the two forms, and the positional form is the list of their parts |
| UpdateOps.AcceptsAllExactly | src/bee.c:758-791 | the same for lists of operations |
| UpdateOps.AcceptedKeys | src/bee.c:675-750 | an accepted operation has exactly the keys op, field, arg or op, field, offset, length, list |
| UpdateOps.PositionalRebuilds | src/bee.c:701-746 | the operation can be rebuilt from its positional form |
| UpdateOps.PositionalInjective | src/bee.c:701-746 | operations with equal positional forms are equal as maps |
| UpdateOps.OutputDeterminesOps | src/bee.c:758-791 | lists with equal outputs have equal operations place by place |
| UpdateOps.PositionalIsList | src/bee.c:701-746 | a positional form passes the list test, so it is packed as an array |
| UpdateOps.UpdateCarriesPositionalForms | src/bee.c:1509-1518 | the frame of an update with accepted clean operations unpacks to a body whose tuple field means exactly the positional forms, one for each operation in order |

## Left out

- mhash.h: slot positions, probing and incremental resizing. A table is a map, and iteration order is arbitrary. The code does not free the two nodes of an overwritten record either; nodes are not modelled apart from their records.
- PMurHash.h, sha1.h and the password scramble: not part of this model.
- tp.h: requests of the resolvers and of authentication are parameters; their bytes are not modelled.
- php_tp_encode_auth: not modelled. Its flag for a missing password is inverted, and the driver does not use it.
- mp_check counts pending elements in an `int`; counts of 2^31 and more are not modelled, and neither are tables of as many keys, whose number the list test keeps in an `int`.
- The parser hints of msgpuck are modelled as one function from first bytes to formats, not as tables.
- A missing element and `data == &val`: the comparison of a slot address with the address of a parameter never holds and is left out.
- Capacity slack of the engine's reallocation: only the room the code relies on is promised. Failing allocations are left out.
- Floats of four bytes keep their bits; widening them to doubles is left out.
- The bitmap of keys that php_tp_response fills is never read and is left out; shifting by keys of 64 and more is undefined in C.
- Reply headers whose sync or code is no integer: what is read from the integer slot is a parameter.
- The text of exceptions beyond the error text of the server.
- Reference counts, interned strings and object handlers of the engine; the terminator byte counted in the length of a string key.
- Connecting, reconnecting, persistent streams, the greeting, retries, timeouts and sleeping.
- PHP methods: parsing of parameters and returned values. `Sessions.Perform` is what each of the nine commands does on the wire; a bad iterator name or a bad list of operations is its field `refused`, and a limit of a wrong type is refused before anything is done.
- pack_key and convert_iterator: they wrap one value and match a finite set of spellings.
- A sync counter of 2^63 and more.
- Network.Stream.Read: chunks are fixed in advance, so a server that answers depending on what it was sent is a choice of chunks; a read that times out is an empty chunk.
- Connections.Connection.Authenticate: once the code has left defined behaviour nothing further is claimed; replies made of well-formed tuples never lead there.
- Sessions.Session: reconnecting on demand is not part of a run; a run ends when a reply has closed the stream, which answers in order never do.
- Exchanges.JudgeBuffer: a buffer validated only thanks to a 16-bit map head without its count is refused or crashes; which of the two is not said.
