# Verified model of socket-serializer

The repository sends JavaScript values over a socket as self-delimiting packets and takes them out of the
byte stream at the other end, however the network cuts it. This project models that path in Dafny and
proves that it loses, changes and reorders nothing, except for the bytes inside ArrayBuffers and typed arrays
that a reader over several chunks takes from the wrong place.

- `ByteStrings.dfy`, `Codec.dfy`: bytes, chunk lists, little-endian numbers; the text and JSON codecs as
  parameters (`Codec`), about which nothing is assumed: what arrives of a value is said in their terms (`Arrival`),
  and it is the value itself if and only if they bring back its texts and objects (`Faithful`).
- `BufferListReader.dfy`: the cursor over a mutable list of chunks, with its three coordinates, in-place
  merging, time-stamped contexts and `reduce`. The chunk array is an object of its own (`ChunkList`), so that
  a packet and the reader that parses it can share it as they do in the source.
- `BufferReader.dfy`, `Reader.dfy`: the flat cursor, and the `Reader` interface as the sum of the two.
- `Refinement.dfy`: both readers as one abstract cursor over a flat byte string, over whole runs, up to the first
  operation that has no answer or on which the list reader departs from the cursor (`Departs`).
- `PacketHeader.dfy`, `PacketFormat.dfy`: the wire format as functions on flat byte strings: what a value is
  written as, and what any bytes, also malformed ones, are read as. `WireBytes.dfy` says both in literal bytes;
  `RoundTrip.dfy` and `ArrayAccess.dfy` prove what these functions promise.
- `PacketReader.dfy`, `Writers.dfy`, `PacketWriter.dfy`, `Packet.dfy`: the methods of the source, proved against
  those functions. `ListWriter` is the hierarchy of `BufferListWriter`, `SocketWriter`, `DelayedSocketWriter` and
  `BufferedSocketWriter`, told apart by a `Strategy`.
- `Framing.dfy`, `SocketDecoder.dfy`, `EndToEnd.dfy`: the stream decoder, and values in at one end, values out at
  the other.
- `Utf8.dfy`: the UTF-8 codec of the benchmarks, which also shows that a codec keeping every text exists.

Reading stops (`None`, `Stopped`) where the source throws; `Unmodelled` is what a list reader makes of an
ArrayBuffer content of size 0, which no writer writes. A value read by a list reader is the value of the flat
bytes up to the bytes inside ArrayBuffers and typed arrays (`Alike`), and equal to it when there are none.
A `hide` statement in a body only keeps a definition out of that proof.

Where the code departs from what a caller would expect, the code is kept and the exact condition is proved:

- `setContext` restores a good context if and only if its indices are not stale, or its byte exists and is not
  the last byte of a list that ends in an empty chunk (`SetContext`, `Restorable`; `PopdMisses` is a run that
  throws nothing and does not come back). The decoder always meets the condition, also when empty buffers arrive.
- `seek` throws if and only if it is asked, from past the last chunk, for a different offset in range (`Seek`;
  `SeekThrows` is such a run). These two are the only departures of the list reader from a plain cursor (`Perform`,
  `Run`), and they happen at the end of the data only (`DepartsAtEnd`).
- `BufferListReader.readArrayBuffer` ignores the cursor's offset in its chunk and returns bytes from the start of
  that chunk (`ReadArrayBuffer`). The payload of an ArrayBuffer is therefore taken from its own place if and only if
  its short code is the last byte of a chunk (`PayloadPlace`, `ReadContentAnyArrayBuffer`; `MisreadPayload` is a
  packet whose payload is misread). Its kind, its length, the exceptions and everything around it are right.
- `bytelength` measures with the default JSON codec even when the packet has another one; it is exact if and only if
  the texts take as many bytes as `Buffer.byteLength` announces for those of the default codec (`ByteLength`).
- A count that an array announces is believed: an array that announces more elements than it holds is filled up with
  undefined, and a slice of it that starts behind its elements is undefined instead of an array (`SliceOfEncoded`).
- The last `skip` of a packet that ends the data is refused: the cursor stays on the footer (`RoundTrip`).
- `parseArraySlice` throws if and only if start < end < -length (`SliceOfEncoded`, `SliceThrows`).
- `parseArrayAt` with a negative index gives the first element (`ElementOfEncoded`, `ElementIsIndexing`,
  `NegativeIndexIsFirst`).
- The decoder emits `error` on every arrival, because an incomplete header and an invalid one are the same
  record (`HandleData`).
- The documentation says that `BufferedSocketWriter` writes when a size is reached. The code also flushes
  whenever the outermost context closes, so after every packet written outside a context (`PopContext`,
  `Transmit`).

## Model

| member | source | states |
|---|---|---|
| `ListReading.AdjustEnd` | src/buffer/reader.ts:5-20 | the end of a read: of the data for a missing or too large length, the cursor for a negative one, and otherwise as far as asked for |
| `ListReading.BufferListReader.constructor` | src/buffer/bufferListReader.ts:23-36 | the length is counted and the cursor consistent; a start out of range is refused and leaves offset 0 |
| `ListReading.BufferListReader.Reset` | src/buffer/bufferListReader.ts:38-47 | empties the reader into a new chunk array, contexts included, and keeps the timestamp |
| `ListReading.BufferListReader.AppendBuffer` | src/buffer/bufferListReader.ts:49-52 | the byte string grows at its end and the cursor stays, also when it stood past the last chunk |
| `ListReading.BufferListReader.GetContext` | src/buffer/bufferListReader.ts:58-65 | the saved context is good in the state it is saved in |
| `ListReading.GoodSurvives` | src/buffer/bufferListReader.ts:58-86 | a saved context stays good through any merges and appends |
| `ListReading.BufferListReader.SetContext` | src/buffer/bufferListReader.ts:67-86 | exactly which good contexts are restored, by restarting from the front or from the back, and where the others leave the cursor |
| `ListReading.PopdMisses` | src/buffer/bufferListReader.ts:67-97 | a run without exceptions, ending in a popd that does not come back |
| `ListReading.BufferListReader.Pushd` | src/buffer/bufferListReader.ts:88-90 | pushes the present context; all saved contexts stay good |
| `ListReading.BufferListReader.Popd` | src/buffer/bufferListReader.ts:92-97 | pops one context and is back at its offset exactly when that context can be restored |
| `ListReading.BufferListReader.Seek` | src/buffer/bufferListReader.ts:99-122 | reaches every offset in range with consistent coordinates, refuses the others, throws exactly from past the last chunk |
| `ListReading.BufferListReader.Skip` | src/buffer/reader.ts:103-105 | moves exactly when the target is in range, for negative steps too; throws exactly where seek does, and never forwards |
| `ListReading.BufferListReader.Reduce` | src/buffer/bufferListReader.ts:124-150 | the unread bytes and their number stay; exactly which chunks are dropped and when the first one is trimmed; the consumed bytes still held are at most 100000 or half the first chunk |
| `ListReading.ReadAcross` | src/buffer/bufferListReader.ts:156-178 | merging the straddled chunks keeps the byte string, keeps the cursor consistent and exposes the bytes read |
| `ListReading.MergeIsTight` | src/buffer/bufferListReader.ts:157-168 | a merge takes the chunks that are needed and no other |
| `ListReading.BufferListReader.Consolidate` | src/buffer/bufferListReader.ts:152-184 | the chunk returned holds the next bytes at the old chunk offset; the byte string is untouched; where the cursor lands and when the timestamp advances; out-of-range reads leave the bytes as they were |
| `ListReading.SeekThrows` | src/buffer/bufferListReader.ts:99-122 | a run after which seeking back throws |
| `ListReading.BufferListReader.ReadNumber` | src/buffer/bufferListReader.ts:186-208 | the next bytes of the byte string, or an exception exactly when they are missing |
| `ListReading.BufferListReader.ReadByte` | src/buffer/bufferListReader.ts:192-196 | the next byte, or nothing exactly at the end |
| `ListReading.BufferListReader.ReadString` | src/buffer/bufferListReader.ts:210-221 | decodes exactly the bytes up to the adjusted end |
| `ListReading.BufferListReader.ReadBuffer` | src/buffer/bufferListReader.ts:223-240 | exactly the bytes up to the adjusted end |
| `ListReading.BufferListReader.ReadBufferList` | src/buffer/bufferListReader.ts:242-273 | pieces that concatenate to exactly those bytes, one for each chunk touched, without changing the chunks; the cursor is behind the last byte |
| `ListReading.BufferListReader.ReadArrayBuffer` | src/buffer/bufferListReader.ts:275-279 | as many bytes as asked for, from the start of the chunk instead of from the cursor; the cursor advances as it should |
| `FlatReading.BufferReader.Seek` | src/buffer/bufferReader.ts:35-44 | moves exactly to offsets in range |
| `FlatReading.BufferReader.ReadNumber` | src/buffer/bufferReader.ts:46-66 | the next bytes, or an exception exactly when they are missing |
| `FlatReading.BufferReader.ReadBuffer` | src/buffer/bufferReader.ts:101-104 | exactly the bytes up to the adjusted end |
| `FlatReading.BufferReader.ReadArrayBuffer` | src/buffer/bufferReader.ts:122-126 | exactly the bytes up to the adjusted end, none for length -1 |
| `Refinement.PerformRead` | src/buffer/bufferListReader.ts:186-297 | each read answers and moves like the cursor over the flat byte string |
| `Refinement.PerformList` | src/buffer/bufferListReader.ts:49-122 | append, seek, skip, pushd and popd on the list reader do what the cursor does if and only if they do not depart |
| `Refinement.PerformFlat` | src/buffer/bufferReader.ts:26-44 | seek, skip, pushd and popd on the flat reader always do |
| `Refinement.Perform` | src/buffer/bufferListReader.ts:11-298 | one operation of either reader: the cursor is followed if and only if it does not depart |
| `Refinement.DepartsAtEnd` | src/buffer/bufferListReader.ts:67-122 | a departure needs the cursor at the end of the data, or a saved offset there or at the last byte |
| `Refinement.Run` | src/buffer/bufferListReader.ts:11-298 | refinement over every run of operations from every state, through merges, exact fits and empty chunks, until an operation has no answer or departs |
| `Refinement.RunOnBoth` | src/buffer/bufferReader.ts:4-104 | over any chunks and any run without appends, the flat reader gives every answer, and the list reader the same ones up to its first departure |
| `Refinement.PopUndoes` | src/buffer/bufferListReader.ts:88-97 | after any reads, seeks, appends and nested saves, popd is back at the offset of its pushd if and only if the context saved there is restorable; the other levels are untouched |
| `Headers.HeaderAt` | src/packet/ipcPacketHeader.ts:261-328 | a header is complete only when the whole packet is there; otherwise it is the one invalid record |
| `Headers.ReadHeader` | src/packet/ipcPacketHeader.ts:305-328 | over either reader, finds the header of the flat bytes and leaves the cursor where the flat reading does |
| `Headers.HeaderIsLocal` | src/packet/ipcPacketHeader.ts:305-328 | a complete packet is decided by its own bytes, wherever they stand and whatever follows |
| `WireBytes.ImageOfEveryValue` | src/packet/ipcPacketHeader.ts:27-58 | the exact bytes of the packet of every value, letter by letter, and the header announced for it |
| `WireBytes.LowByteFirst` | src/packet/ipcPacketWriter.ts:81 | numbers are stored with the low byte first |
| `WireBytes.FitsExactly` | src/packet/ipcPacketWriter.ts:182-202 | exactly which values fit the format, in numbers |
| `WireBytes.BinaryExactly` | src/packet/ipcPacketHeader.ts:73-126 | the table of typed arrays: for each short code, the lengths that are read, those that throw, and the codes that are unknown |
| `WireBytes.HeaderExactly` | src/packet/ipcPacketHeader.ts:261-328 | exactly which bytes are accepted as a packet, with which sizes, and where the cursor is left when they are not |
| `WireBytes.ContentExactly` | src/packet/ipcPacketReader.ts:39-83 | what the content of a packet is read as, letter by letter, also when it throws |
| `WireBytes.ReadExactly` | src/packet/ipcPacketReader.ts:28-37 | what any bytes are read as, and where the cursor ends |
| `RoundTrips.ArrayImage` | src/packet/ipcPacketWriter.ts:226-233 | the exact bytes of an array packet with one element |
| `RoundTrips.FaithfulArrives` | src/packet/ipcPacketReader.ts:85-94 | a value arrives as it was if and only if the foreign codecs bring back its texts and objects |
| `RoundTrips.HeaderOfEncoded` | src/packet/ipcPacketWriter.ts:37-123 | the type and sizes given to the callback are those read back at any place, nested or not, and measure the packet exactly |
| `RoundTrips.ContentOfEncoded` | src/packet/ipcPacketReader.ts:39-119 | the content of any nested value is read back as what arrives of it, ending exactly at the footer, or throws where the JSON codec does |
| `RoundTrips.ReadEncoded` | src/packet/ipcPacketReader.ts:28-37 | so is a written packet, wherever it stands in the data |
| `RoundTrips.ElementsOfEncoded` | src/packet/ipcPacketReader.ts:110-119 | so are written packets in a row |
| `RoundTrips.RoundTrip` | src/packet/ipcPacketReader.ts:15-26 | the value comes back if and only if the foreign codecs keep its texts and objects; the cursor is at the trailing data exactly when there is some |
| `RoundTrips.StrictPrefixIncomplete` | src/packet/ipcPacketHeader.ts:305-328 | every strict prefix of a written packet is reported incomplete |
| `RoundTrips.SamePlaceSamePacket` | src/packet/ipcPacketHeader.ts:305-328 | two written packets at the same place are the same bytes |
| `RoundTrips.PrefixFree` | src/packet/ipcPacketHeader.ts:305-328 | no written packet is a proper prefix of another |
| `RoundTrips.UniqueDecoding` | src/packet/ipcPacketWriter.ts:136-233 | concatenated packets belong to one list of values only |
| `RoundTrips.FlatReadsAlike` | src/packet/ipcPacketReader.ts:28-37 | on arbitrary bytes, exceptions included, the readings of both readers are the same, except for an ArrayBuffer content of size 0 |
| `Format.ReadAt` | src/packet/ipcPacketReader.ts:28-37 | reading ends on any bytes and never moves backwards or past the data |
| `Format.AlikeIsSameBlank` | src/packet/ipcPacketReader.ts:96-107 | alike values differ in the bytes inside ArrayBuffers and typed arrays only |
| `Format.NoPayloadExactly` | src/packet/ipcPacketReader.ts:96-107 | exactly the values without such bytes have no other value alike |
| `Format.ElementsAt` | src/packet/ipcPacketReader.ts:110-119 | so does reading any announced number of elements |
| `PacketReading.Read` | src/packet/ipcPacketReader.ts:15-37 | over either reader and on any bytes, reads what the function of the flat bytes says, exceptions included; the bytes stay |
| `PacketReading.ReadContent` | src/packet/ipcPacketReader.ts:39-83 | so does every kind of content |
| `PacketReading.ReadScalar` | src/packet/ipcPacketReader.ts:39-94 | the cases of the content without elements |
| `PacketReading.ReadContentAnyArrayBuffer` | src/packet/ipcPacketReader.ts:96-107 | the ArrayBuffer or typed array, or an exception when its length does not fit the element size; over a list reader, where exactly the payload is taken from |
| `PacketReading.MisreadPayload` | src/packet/ipcPacketReader.ts:96-107 | a packet whose payload a list reader takes from the wrong place |
| `PacketReading.ReadElements` | src/packet/ipcPacketReader.ts:110-119 | the element loop reads what the recursive reading says and ends on any bytes |
| `PacketReading.ByPass` | src/packet/ipcPacketReader.ts:126-134 | skips what the header announces, or reports that there is no packet |
| `PacketReading.ReadContentArrayAt` | src/packet/ipcPacketReader.ts:137-151 | over either reader, the element the flat bytes hold there |
| `PacketReading.ReadContentArraySlice` | src/packet/ipcPacketReader.ts:154-194 | over either reader, the slice of the flat bytes |
| `PacketReading.AdjustBounds` | src/packet/ipcPacketReader.ts:156-176 | the adjusted bounds of a slice |
| `ArrayAccess.BoundsOfSlice` | src/packet/ipcPacketReader.ts:156-176 | the bounds are those of Array.prototype.slice, except that a start before the first element stays negative |
| `ArrayAccess.BypassExactly` | src/packet/ipcPacketReader.ts:126-134 | on any bytes, skips the packet that stands there, except at the end of the data, or reports that there is none |
| `ArrayAccess.BypassEncoded` | src/packet/ipcPacketReader.ts:126-134 | skipping agrees with decoding: k skips end where the k-th packet starts |
| `ArrayAccess.BypassAll` | src/packet/ipcPacketReader.ts:126-134 | skipping more packets than there are stops at the footer and reports it |
| `ArrayAccess.PaddedOfEncoded` | src/packet/ipcPacketReader.ts:110-119 | an announced count is believed: elements that are not there read as undefined |
| `ArrayAccess.ElementOfEncoded` | src/packet/ipcPacketReader.ts:137-151 | the element taken from an array, for every index and every announced count, without decoding another |
| `ArrayAccess.CountOnly` | src/packet/ipcPacketReader.ts:137-177 | without a count an element or a slice throws; an index behind the count or an empty slice reads nothing but the count |
| `ArrayAccess.ElementIsIndexing` | src/packet/ipcPacketBufferCore.ts:45-48 | exactly when that is JavaScript indexing of the full parse |
| `ArrayAccess.SliceOfEncoded` | src/packet/ipcPacketReader.ts:154-194 | the slice of an array, for every start, end and announced count, without decoding another element: Array.prototype.slice, exactly outside start < end < -count and starts behind the elements held |
| `ArrayAccess.SliceThrows` | src/packet/ipcPacketReader.ts:154-194 | a slice that throws where JavaScript gives an empty array |
| `ArrayAccess.NegativeIndexIsFirst` | src/packet/ipcPacketReader.ts:137-151 | a negative index that gives the first element |
| `Writing.ListWriter.AppendBuffer` | src/buffer/bufferListWriter.ts:121-125 | the immediate writer hands the buffer to the socket; the others keep it and send nothing |
| `Writing.ListWriter.AppendBuffers` | src/socket/socketWriter.ts:66-94 | the same for a list of buffers, one by one and in order |
| `Writing.ListWriter.Buffer` | src/buffer/bufferListWriter.ts:107-115 | collapsing the list returns and keeps the pending bytes |
| `Writing.ListWriter.PopContext` | src/socket/socketBufferWriter.ts:49-56 | a buffered writer flushes if and only if the outermost context closes or its size is reached; nothing is lost |
| `Writing.ListWriter.FlushBuffer` | src/socket/socketBufferWriter.ts:26-32 | every pending buffer is sent, one by one and in order |
| `Writing.RunWrites` | src/socket/socketBufferWriter.ts:7-57 | over every balanced run all four writers produce the bytes written, in order, and track the pending length; inside an open context a buffered writer sends nothing before its size is reached |
| `Writing.PerformWrite` | src/socket/socketBufferWriter.ts:45-56 | one step of such a run: exactly when it flushes, and the bound on pending bytes after each closing |
| `Writing.BufferWriter.WriteBytes` | src/buffer/bufferWriter.ts:47-65 | stores the bytes at the cursor in place and touches nothing else |
| `PacketWriting.AllInOne` | src/packet/ipcPacketWriter.ts:76-96 | the one-block packet filled in place is header, number and footer |
| `PacketWriting.WriteNumber` | src/packet/ipcPacketWriter.ts:182-202 | an integer of at most 32 bits and a sign is written as such, with its sign in the letter, every other number as a double |
| `PacketWriting.WriteFixedContent` | src/packet/ipcPacketWriter.ts:73-123 | writes exactly one fixed-size packet, in its own context |
| `PacketWriting.WriteDynamicBuffer` | src/packet/ipcPacketWriter.ts:37-52 | writes exactly one sized packet around a buffer |
| `PacketWriting.WriteDynamicContent` | src/packet/ipcPacketWriter.ts:54-69 | writes exactly one sized packet around another writer's bytes |
| `PacketWriting.WriteArray` | src/packet/ipcPacketWriter.ts:226-233 | the count and the elements' packets, measured exactly |
| `PacketWriting.Write` | src/packet/ipcPacketWriter.ts:136-233 | for every value and strategy, exactly the encoding, and the callback's header; inside an open context a buffered writer holds it back until its size is reached |
| `PacketWriting.WriteSize` | src/packet/ipcPacketWriterSize.ts:20-148 | the counter grows by the length of the encoding, with what Buffer.byteLength announces for the texts in the place of their bytes |
| `PacketWriting.SameOutsideTexts` | src/packet/ipcPacketWriterSize.ts:20-148 | outside its texts, a value takes the same bytes whatever the codec |
| `PacketWriting.ByteLength` | src/packet/ipcPacketBufferCore.ts:28-33 | bytelength, measured with the default JSON codec, is the length of the bytes written and the packetSize reported if and only if the texts take as many bytes as announced |
| `PacketWriting.AnnouncedIsWritten` | src/buffer/bufferWriterSize.ts:65-71 | with one codec, and a Buffer.byteLength that measures what encodeText writes, they always do |
| `Packets.PeekHeader` | src/packet/ipcPacketBufferList.ts:88-92 | looking at a header leaves the offset and every byte, though chunks may have been merged |
| `Packets.IpcPacketBufferList.DecodeFromReader` | src/packet/ipcPacketBufferList.ts:88-101 | takes exactly the next packet when it is complete; otherwise leaves no trace |
| `Packets.IpcPacketBuffer.DecodeFromReader` | src/packet/ipcPacketBuffer.ts:64-77 | the same for the flat packet |
| `Packets.IpcPacketBuffer.DecodeFromBuffer` | src/packet/ipcPacketBuffer.ts:80-90 | accepts a buffer exactly when a complete packet is at its front |
| `Packets.IpcPacketBufferList.ParseReader` | src/packet/ipcPacketBufferList.ts:116-120 | a reader over the packet's bytes, at its content, aliasing its chunk array when there are several chunks |
| `Packets.IpcPacketBufferList.Ask` | src/packet/ipcPacketBufferCore.ts:35-53 | parsing splices the packet's own chunks but never changes its bytes, and answers like a flat packet, exceptions included, up to the payloads of ArrayBuffers |
| `Packets.IpcPacketBufferList.Buffer` | src/packet/ipcPacketBufferList.ts:40-47 | the buffer getter returns and keeps the bytes, in one chunk |
| `Packets.IpcPacketBufferList.Serialize` | src/packet/ipcPacketBufferList.ts:122-126 | the packet holds the encoding of the value and its header |
| `Packets.IpcPacketBuffer.Ask` | src/packet/ipcPacketBuffer.ts:92-95 | the flat packet answers from its bytes |
| `Packets.IpcPacketBuffer.Serialize` | src/packet/ipcPacketBuffer.ts:97-101 | the flat packet holds the encoding of the value and its header |
| `Packets.AskBoth` | src/packet/ipcPacketBufferList.ts:116-120 | any sequence of questions, throwing ones included: a list packet and a flat packet with the same bytes agree on each |
| `Packets.RepliesAlike` | src/packet/ipcPacketBufferList.ts:116-120 | the same reply, exceptions included, by either reader, except for an ArrayBuffer content of size 0 |
| `Packets.ReplyExactly` | src/packet/ipcPacketBufferCore.ts:35-43 | what any accepted packet answers to parse and parseArrayLength, in literal bytes |
| `Packets.LengthReplyOfEncoded` | src/packet/ipcPacketBufferCore.ts:40-43 | parseArrayLength of a written array is its length |
| `Packets.ReplyOfEncoded` | src/packet/ipcPacketBufferCore.ts:35-37 | a packet of a written value parses to what arrives of it |
| `Packets.SliceReplyOfEncoded` | src/packet/ipcPacketBufferCore.ts:50-53 | its slices are slices of the value, when the codecs keep the elements of the slice, or exceptions exactly before the first element |
| `Packets.ElementReplyOfEncoded` | src/packet/ipcPacketBufferCore.ts:45-48 | its elements are those of the value, exactly when the index is not negative or nothing can differ |
| `Framing.FramesContinue` | src/socket/ipcPacketSocketDecoder.ts:26-36 | dividing what was left together with new bytes continues the division of all the bytes |
| `Framing.FramesPartition` | src/socket/ipcPacketSocketDecoder.ts:30-36 | the packets and the rest are all the bytes, and the rest starts with no complete packet |
| `Framing.FramesArePackets` | src/socket/ipcPacketSocketDecoder.ts:30-36 | each piece is exactly one packet |
| `Framing.FramesUnique` | src/socket/ipcPacketSocketDecoder.ts:30-36 | there is no other such division |
| `Framing.FramesOfEncoded` | src/socket/ipcPacketSocketDecoder.ts:30-36 | a stream of written values divides into one packet per value |
| `Decoding.IpcPacketSocketDecoder.TakePacket` | src/socket/ipcPacketSocketDecoder.ts:30-34 | one turn takes the first packet of the unread bytes, or shows there is none |
| `Decoding.IpcPacketSocketDecoder.TakePackets` | src/socket/ipcPacketSocketDecoder.ts:30-36 | the loop ends, emits every complete packet once and in order, and leaves the rest unread |
| `Decoding.IpcPacketSocketDecoder.HandleData` | src/socket/ipcPacketSocketDecoder.ts:26-45 | after every arrival: packets emitted so far are the division of all bytes received, unread bytes are its rest, events in order, consumed bytes held bounded |
| `EndToEnd.Transmit` | src/socket/socketBufferWriter.ts:7-57 | each socket writer puts exactly the encodings of the values on the wire and keeps nothing |
| `EndToEnd.Receive` | src/socket/ipcPacketSocketDecoder.ts:26-45 | whatever the pieces, the values parsed are those of the packets in all the bytes |
| `EndToEnd.SentIsParsed` | src/packet/ipcPacketBufferCore.ts:35-37 | the packets of a sent list parse to what arrives of it, up to the payloads of ArrayBuffers |
| `EndToEnd.SendAndReceive` | src/socket/ipcPacketSocketDecoder.ts:26-45 | end to end: any values, any codecs, any writer and buffer size, any cut of the bytes; every value arrives, in order, as the codecs bring it back, up to the payloads of ArrayBuffers and typed arrays |
| `Utf8.WriteUtf8` | test/perf/encode-decode.test.ts:7-31 | writes the encoding in place, touches nothing else, at most three bytes per code unit |
| `Utf8.ReadUtf8` | test/perf/encode-decode.test.ts:33-57 | the loop reads what the recursive reading says |
| `Utf8.DecodedOfEncoded` | test/perf/encode-decode.test.ts:7-57 | reading undoes writing for every sequence of code units, lone surrogates included |
| `Utf8.WriteThenRead` | test/perf/encode-decode.test.ts:7-57 | writing into a large enough buffer and reading it back gives the text |
| `Utf8.EncodedIsStandard` | test/perf/encode-decode.test.ts:7-31 | on well-formed text the bytes are those of section 3 of RFC 3629, with the surrogates of section 2.1 of RFC 2781 |
| `Utf8.LoneSurrogate` | test/perf/encode-decode.test.ts:26-30 | a surrogate without its partner takes three bytes |
| `Utf8.StrayByte` | test/perf/encode-decode.test.ts:39-54 | a continuation byte on its own is dropped |
| `Utf8.CutShort` | test/perf/encode-decode.test.ts:39-54 | a sequence cut off behind its first byte reads as if zeros followed |
| `Utf8.KeepsEveryText` | test/perf/encode-decode.test.ts:7-57 | a codec made of these two functions keeps every text |

## Left out

- `net.Socket`, `EventEmitter`, connecting and reconnecting: the socket is the sequence of buffers written to it, an event an entry of a log; event handlers do not call back into the decoder.
- `noAssert = false`: `seek` then throws instead of refusing; readers start with `noAssert` true.
- PacketReading.ReadContentAnyArrayBuffer: over a list reader, a content of size 0 is not modelled, because the reader is then asked for -1 bytes and what it returns is not determined by the bytes read; neither is a read of an ArrayBuffer whose bytes are missing.
- RoundTrips.FlatReadsAlike: the functions of the flat bytes give the payload of an ArrayBuffer as a flat reader returns it; what a list reader returns depends on the division into chunks and is stated in `ReadContentAnyArrayBuffer` alone.
- Refinement.Run: a run ends at an operation that throws or finds its bytes missing, and at a departure; what seek returns is not an answer of the run, because the list reader accepts its own offset at the end of the data and the flat reader refuses it.
- Typed-array views narrower than their buffer, writing a `Float32Array` (for which the writer emits nothing), functions, symbols, bigints and negative zero: not values of the model.
- Numbers: doubles and dates are eight opaque bytes; whether a number is an integer, and which, is a parameter of `WriteNumber`.
- The JSON codec, `TextEncoder` and `Buffer.byteLength`: parameters; plain objects are opaque.
- ListReading.BufferListReader.Reduce: contexts open across it are not adjusted by the source, so nothing is promised about restoring one.
- Buffers as views: a slice and the buffer it shares memory with are separate byte sequences.
- `BufferWriter.writeBytes`, range arguments of `writeBuffer` and `writeString`, `getRawData`, `setRawData`, deprecated aliases: not used on the modelled path.
- A missing length on `BufferReader.readBuffer` and `slice`: the flat reader then returns nothing; callers here always give one.
- The callbacks of the size-only writer: `bytelength` passes none.
- Checking the footer byte: the source does not.
- PacketWriting.Write: sizes and counts of 2^32 and more, on which the little-endian write throws, are excluded by `Fits`.
- Utf8.WriteUtf8: a buffer too small for the text, into which writes are silently dropped, is excluded.
- PacketReading.ReadContent: the date constructor's clipping of fractional or out-of-range times is not modelled, because the eight bytes are opaque.
