# A verified model of the RPC stack

The repository is a small RPC framework built in layers: a chunked byte buffer with varint and
fixed-width codecs, a type-directed serializer, a framed protocol over a stream socket, a client and a
server that correlate calls by sequence id, a service registry, and address arithmetic and printing.
This project models those layers in Dafny and proves what they keep, across whole runs where the code is
a protocol and for every input where it is an algorithm.

Where the code departs from what it is evidently meant to do, the model follows the code, and the
project states exactly when the intended property holds, with a lemma showing that it fails otherwise.

| file | models |
|---|---|
| `Bytes`, `Bits`, `Chunks` | outcomes, splices, powers of two, bitwise operators, equally long chunks laid end to end |
| `Iovec` | the scatter/gather list of a buffer, as written and with the missing subtraction |
| `BufferModel`, `BufferRuns`, `ByteArray` | the buffer: its flat value, its runs, and the linked chunk list that implements it |
| `Codec`, `BufferCodec` | endianness, zigzag, LEB128 varints and strings, on byte strings and on the buffer |
| `SerialModel`, `SetOrder`, `WireFormat` | types, values and their encoding; the order of sets; what each type looks like on the wire |
| `Serializer`, `Crossing` | the serializer class, and reading back across chunks |
| `ProtocolModel`, `Protocol` | messages, 20-byte headers and frames, and the message class |
| `StreamModel`, `Stream`, `Session` | fixed-size reads and writes over a socket with short transfers, and the session on top |
| `Wire` | many senders under one mutex |
| `Calls`, `Heartbeat` | interleavings of client, server and network |
| `Server`, `Registry`, `RegistryRace` | request dispatch; the registry's two multimaps, its session loop, and what its locking allows |
| `AddressBlock`, `AddressText` | IPv6 prefix blocks (section 2.3 of RFC 4291) and address text (section 2.2) |

## Modelling choices

* A call returns `Ok`, throws (`OutOfRange`) or touches memory it does not own (`BadAccess`): a null
  chunk pointer, or a copy past the end of a string.  Faults are results, not preconditions.  For a copy
  whose length wrapped around, the code first asks for more chunks than any memory holds; the model does
  not tell the two ends apart.
* `View` is the buffer's observable state.  Its `lag` says how many chunks the cached cursor trails the
  position.  The code assumes 0; the cursor `read` can break that, because it compares the chunk size with
  the bytes left rather than with the offset it ends at.
* The host is little-endian and the buffer big-endian unless switched, as on the platforms the code targets.
* The socket is a script: how many bytes the kernel takes or yields in each call, negative and zero
  included, is arbitrary.
* Protocol machines are transition systems; a property of "every run" is about every sequence of states
  in which each follows from the one before by an enabled step.

## Model

| member | source | states |
|---|---|---|
| `ByteBuffer.ByteArray.constructor` | utils/byte_array.cpp:28-35 | a new buffer is one chunk, empty, at position 0, cursor on that chunk |
| `ByteBuffer.ByteArray.Write` | utils/byte_array.cpp:310-344 | across any number of chunks the linked list ends up holding the flat splice of the data at the cursor, with position, size and capacity as `AfterWrite` says and the list invariant kept |
| `ByteBuffer.ByteArray.WriteLoop` | utils/byte_array.cpp:316-343 | the copy loop lays exactly the buffer over the flat contents and changes no other byte |
| `ByteBuffer.ByteArray.AddCapacity` | utils/byte_array.cpp:473-499 | appends the computed number of chunks at the end of the chain, keeps every existing byte, and repairs a null cursor |
| `ByteBuffer.ByteArray.Read` | utils/byte_array.cpp:346-374 | returns the bytes at the cursor's real place, throws when too few are left, faults on a null cursor; the cursor afterwards lags exactly as the model says |
| `ByteBuffer.ByteArray.ReadAt` | utils/byte_array.cpp:376-406 | the walk from the root returns the flat slice at any position asked for, throws when too few bytes are left, faults when it runs off the chain; a position beyond the size passes the unsigned check, as in the code |
| `ByteBuffer.ByteArray.ToString` | utils/byte_array.cpp:501-506 | the unread bytes, or the fault of reading at the very end of the capacity |
| `ByteBuffer.ByteArray.SetPosition` | utils/byte_array.cpp:408-425 | moves and may extend the size, rejects positions past the capacity, and looks the cursor up afresh |
| `ByteBuffer.ByteArray.Clear` | utils/byte_array.cpp:297-308 | drops all chunks but the first and restarts at position 0 with an aligned cursor |
| `ByteBuffer.ByteArray.GetReadBuffers` | utils/byte_array.cpp:508-535 | the list points into the chunks and gathers exactly what `ReadOffer` says, or walks off the chain |
| `ByteBuffer.ByteArray.GetReadBuffersAt` | utils/byte_array.cpp:537-570 | the list of the walk from any position given by the caller, whatever the cursor, or the fault of running off the chain |
| `ByteBuffer.ByteArray.GetWriteBuffers` | utils/byte_array.cpp:572-598 | room is made and the list covers adjacent flat offsets from the cursor on, of the total length offered |
| `BufferModel.GrowthSuffices` | utils/byte_array.cpp:473-484 | after growing, the bytes asked for fit |
| `BufferModel.GrowthIsLeast` | utils/byte_array.cpp:473-484 | and no smaller number of chunks would do |
| `BufferModel.ReadBeyondSize` | utils/byte_array.cpp:376-379 | a positional read beyond the size but inside the chunks is let through by the unsigned check and returns the bytes that lie there |
| `BufferRuns.LagStep` | utils/byte_array.cpp:310-425 | how each operation changes the cursor's lag: one kind of read adds one, the operations that look the cursor up reset it, nothing else touches it |
| `BufferRuns.AlignedIffResynced` | utils/byte_array.cpp:310-425 | in every run from an aligned buffer the cursor is on the chunk of the position if and only if each slipping read was followed by an operation that looks the cursor up |
| `BufferRuns.ReadFreeRunsStayAligned` | utils/byte_array.cpp:297-344 | runs of write, setPosition and clear never misplace the cursor |
| `BufferRuns.CursorReadIsPositional` | utils/byte_array.cpp:346-406 | in every aligned state both reads agree on every length, failures included |
| `BufferRuns.LaggingReadIsShifted` | utils/byte_array.cpp:346-374 | with a lagging cursor a read returns what lies that many chunks earlier |
| `BufferRuns.ReadAfterSlip` | utils/byte_array.cpp:355-366 | after a read from inside a chunk to its end the next read returns the start of the chunk just left |
| `BufferRuns.SlippedReadRepeatsAChunk` | utils/byte_array.cpp:355-366 | a concrete buffer in which three one-byte reads repeat the first byte instead of reaching the third |
| `BufferRuns.WriteIsSplice` | utils/byte_array.cpp:310-344 | byte by byte: the written range holds the data, every other byte is unchanged, the size is the larger of old size and end of write |
| `BufferRuns.WriteThenRead` | utils/byte_array.cpp:310-425 | data written and returned to is read back by both reads |
| `Iovec.SegmentsOffer` | utils/byte_array.cpp:516-533 | the walk as written gathers one contiguous slice, of a length that is not the one asked for once it crosses a chunk |
| `Iovec.TooLongRunsOff` | utils/byte_array.cpp:519-532 | a length above the chunk size never ends inside the chain |
| `Iovec.ExactIffOneChunk` | utils/byte_array.cpp:508-598 | the list gathers exactly the slice asked for if and only if the slice lies in one chunk |
| `Iovec.SubtractingIsExact` | utils/byte_array.cpp:508-598 | with each segment subtracted from the length the list is exact for every slice, each segment inside its chunk |
| `Codec.ByteSwapTwice` | utils/endian_cast.h:14-25 | swapping twice is the identity and a swapped integer still fits its width |
| `Codec.LoadStored` | utils/endian_cast.h:27-35 | what is stored in either byte order loads back |
| `Codec.StoredBigEndian` | utils/endian_cast.h:27-35 | in network order the most significant byte comes first |
| `Codec.StoredValue` | utils/endian_cast.h:27-35 | read as a number in network order the stored bytes are the value |
| `Codec.FixedRoundTrip` | utils/byte_array.cpp:46-215 | fixed-width integers read back before any tail, in either order |
| `Codec.ZigzagValue` | utils/byte_array.cpp:84-98 | the wrapped arithmetic of the encoder computes 2v or -2v-1 |
| `Codec.ZigzagRoundTrip` | utils/byte_array.cpp:84-105 | decoding by shift, mask and exclusive or inverts encoding on every signed value of the width |
| `Codec.ZigzagRoundTripBack` | utils/byte_array.cpp:84-105 | and encoding inverts decoding on every unsigned value, so both are bijections |
| `Codec.VarintLength` | utils/byte_array.cpp:111-137 | an encoding has at most k bytes if and only if the value is below 2^(7k) |
| `Codec.VarintGroups` | utils/byte_array.cpp:111-137 | byte i of a varint holds the seven bits of the value from 7i on, and its top bit is set if and only if another byte follows |
| `Codec.SignedVarintLength` | utils/byte_array.cpp:107-125 | a signed varint has at most k bytes if and only if the value fits 7k bits in two's complement |
| `Codec.VarintFitsScratch` | utils/byte_array.cpp:111-137 | the scratch arrays of 5 and 10 bytes never overflow |
| `Codec.VarintRoundTrip` | utils/byte_array.cpp:111-249 | for every width, value and tail the reader returns the value and leaves exactly the tail |
| `Codec.StringVintRoundTrip` | utils/byte_array.cpp:165-295 | a varint-prefixed string is self-delimiting |
| `Codec.StringFixedRoundTrip` | utils/byte_array.cpp:151-279 | a string with a fixed-width prefix reads back if and only if its length fits the prefix |
| `Codec.StringF64NeverRoundTrips` | utils/byte_array.cpp:281-287 | the 64-bit string reader, which sign-extends a 16-bit length, never reads back what the 64-bit writer wrote, in either byte order |
| `Codec.StringF64Misread` | utils/byte_array.cpp:281-287 | in network order, for strings below 2^48 bytes, it returns the empty string and leaves six length bytes and the string |
| `BufferCodec.PutFixed` | utils/byte_array.cpp:46-82 | one write of the stored bytes wherever the cursor is, which appends them to an aligned buffer |
| `BufferCodec.VarintScratch` | utils/byte_array.cpp:111-137 | the loop over the scratch array stays inside it and produces the varint |
| `BufferCodec.PutVarint` | utils/byte_array.cpp:111-137 | one write of the varint wherever the cursor is, which appends it to an aligned buffer |
| `BufferCodec.PutStringVint` | utils/byte_array.cpp:165-168 | one write of the length and one of the bytes, which append them to an aligned buffer |
| `BufferCodec.TakeFixed` | utils/byte_array.cpp:169-215 | a read through the cached cursor, lag included |
| `BufferCodec.TakeVarint` | utils/byte_array.cpp:219-249 | the loop of one-byte cursor reads, lag included |
| `BufferCodec.TakeStringVint` | utils/byte_array.cpp:289-295 | length and bytes through the cursor, lag included |
| `BufferCodec.FixedAgrees` | utils/byte_array.cpp:169-215 | when the unread bytes stay inside one chunk the buffer reader does what the flat decoder does |
| `BufferCodec.VarintAgrees` | utils/byte_array.cpp:219-249 | likewise for varints, every intermediate read included |
| `BufferCodec.StringVintAgrees` | utils/byte_array.cpp:289-295 | likewise for strings |
| `SerialModel.RoundTrip` | rpc/serializer.h:47-190 | for every type built from scalars, strings, vectors, lists, sets and tuples to any depth, every value and every tail: decoding the encoding gives the value and leaves exactly the tail |
| `SerialModel.AllRoundTrip` | rpc/serializer.h:129-190 | the element loop rebuilds a container in order; for sets each insertion of the next larger element lands at the end |
| `SerialModel.ItemsRoundTrip` | rpc/serializer.h:271-289 | the folds over a tuple's items invert each other |
| `SerialModel.LessAsymmetric` | rpc/serializer.h:171-190 | the order sets are kept in is asymmetric on every ordered type, nested containers included |
| `SetOrder.ScalarOrder` | rpc/serializer.h:180-190 | numbers are ordered by value and false comes before true |
| `SetOrder.BytesOrder` | rpc/serializer.h:180-190 | one string is below another if and only if it is a proper prefix of it or smaller at the first byte that differs |
| `SetOrder.ContainerOrder` | rpc/serializer.h:180-190 | containers likewise, by their elements |
| `SetOrder.Trichotomy` | rpc/serializer.h:180-190 | of two values of an ordered type, nested to any depth, exactly one is less than the other, or they are the same |
| `SetOrder.LessTransitive` | rpc/serializer.h:180-190 | the order is transitive |
| `SetOrder.InsertKeeps` | rpc/serializer.h:187-187 | insertion keeps a set increasing and makes it hold exactly its elements and the new one |
| `SetOrder.DecodeShaped` | rpc/serializer.h:85-190 | whatever bytes a type is decoded from, the result has the shape of the type |
| `SetOrder.DecodedSet` | rpc/serializer.h:180-190 | decoding a set gives, in increasing order and each once, exactly the values the elements on the wire decode to, in whatever order and however often they come |
| `SetOrder.AnyValuesMakeASet` | rpc/serializer.h:180-190 | any typed values, inserted in any order and however often, make a value of the set's type that holds exactly them |
| `SetOrder.OneArrangement` | rpc/serializer.h:171-178 | and in only one way, so equal sets are written as the same bytes |
| `WireFormat.ByteFormat` | rpc/serializer.h:55-58 | 8-bit numbers are one byte, negative ones in two's complement |
| `WireFormat.WordFormat` | rpc/serializer.h:59-62 | 16-bit numbers are two bytes, most significant first, in two's complement |
| `WireFormat.FloatFormat` | rpc/serializer.h:51-54 | floating-point numbers are the four or eight bytes of their pattern, most significant first |
| `WireFormat.SignedFormat` | rpc/serializer.h:65-70 | signed 32- and 64-bit numbers are the varint of 2v or -2v-1 |
| `WireFormat.FixedDecoded` | rpc/serializer.h:85-100 | what any bytes decode to as a value of a fixed-width type: any byte but 0 is true, signed numbers are in two's complement, too few bytes throw |
| `WireFormat.SmallRanges` | rpc/serializer.h:55-62 | the values of the 8- and 16-bit types are exactly the numbers C++ gives them |
| `WireFormat.WideRanges` | rpc/serializer.h:63-70 | and so are those of the 32- and 64-bit types |
| `Serializers.DecodeAgrees` | rpc/serializer.h:85-190 | inside one chunk, decoding through the buffer's cursor is the flat decoder, for every type |
| `Crossing.BufferRoundTrip` | rpc/serializer.h:21-40 | put, reset, get: for every type a value written to a buffer is read back whole, over any number of chunks, and the buffer left as written, if and only if none of the reads that decode it slips |
| `Crossing.OnlyValue` | rpc/serializer.h:85-190 | a decoding that ends with the cursor in place made no slipping read and yielded the value |
| `Crossing.SlippedTuple` | rpc/serializer.h:281-289 | a tuple of three bytes in chunks of two comes back with the first byte in place of the third |
| `Crossing.SteadyValue` | rpc/serializer.h:85-190 | the same from any aligned position, with anything behind the value, leaving exactly that |
| `Serializers.Serializer.FromData` | rpc/serializer.h:23-27 | the buffer holds the given bytes unread |
| `Serializers.Serializer.Put` | rpc/serializer.h:47-83 | appends exactly the encoding of the value |
| `Serializers.Serializer.PutScalar` | rpc/serializer.h:47-83 | the dispatch picks the codec of the scalar type |
| `Serializers.Serializer.PutAll` | rpc/serializer.h:129-136 | the loop appends the elements in order |
| `Serializers.Serializer.PutItems` | rpc/serializer.h:271-279 | the fold appends a tuple's items in order |
| `Serializers.Serializer.Get` | rpc/serializer.h:85-112 | the result and the cursor after decoding are those of the view reader, throws and faults included |
| `Serializers.Serializer.GetAll` | rpc/serializer.h:138-190 | the loop decodes the announced number of elements, pushing or inserting each |
| `Serializers.Serializer.GetItems` | rpc/serializer.h:281-289 | the fold decodes a tuple's items in order and stops at the first failure |
| `ProtocolModel.HeaderRoundTrip` | rpc/protocol.cpp:48-67 | decoding an encoded header recovers every field |
| `ProtocolModel.HeaderLayout` | rpc/protocol.cpp:59-67 | the twenty bytes: magic, version, type, twice the code plus the text flag, then id and length in network order |
| `ProtocolModel.CreatedIs` | rpc/protocol.cpp:26-36 | a created message has exactly the type, code, id and content it was created with, the flag if and only if there is a text, and that text |
| `ProtocolModel.CreatedLayout` | rpc/protocol.cpp:26-82 | byte by byte, the frame of any created message that has one, with or without a text: type, code and flag, id, length, and what follows |
| `ProtocolModel.ParsedIsCreated` | rpc/protocol.cpp:26-82 | for every type, code below 128, content and 64-bit id, the frame without text parses to a message of exactly these four, without text or flag |
| `ProtocolModel.HeartbeatFrame` | rpc/protocol.cpp:42-46 | a heartbeat is twenty bytes, type 7, code 1, all the rest zero, and parses back whatever follows |
| `ProtocolModel.OtherVersionIsNoMessage` | rpc/rpc_session.cpp:34-43 | a header of another magic or version is no message |
| `ProtocolModel.FrameIff` | rpc/protocol.cpp:69-82 | any message whose text is within its length has a frame if and only if its payload string and the zero behind it cover the rest |
| `ProtocolModel.CreatedFrame` | rpc/protocol.cpp:69-82 | a created message has a frame if and only if its text is no longer than its content, and the frame is header, text and the content cut short by the text's length |
| `ProtocolModel.DeclaredLengthIffNoMessage` | rpc/protocol.h:79-97 | the declared length is the number of bytes behind the header if and only if there is no text; otherwise it is off by the text's length prefix |
| `ProtocolModel.FrameRoundTrip` | rpc/protocol.cpp:48-82 | a frame without text followed by any tail parses to the message and leaves the tail |
| `ProtocolModel.MessageFrameDesyncs` | rpc/protocol.cpp:69-82 | a frame with text whose content covers text and length prefix leaves as many bytes of its own content before the next frame as that prefix has |
| `ProtocolModel.CutMessageThrows` | rpc/protocol.cpp:69-82 | one whose content covers the text but not the prefix makes the receiver throw |
| `ProtocolModel.FrameParsesBackIff` | rpc/rpc_session.cpp:45-58 | a created message has a frame if and only if its text is no longer than its content, and the frame, whatever follows, parses back to the message and leaves what follows if and only if there is no text |
| `ProtocolModel.PartialFrame` | rpc/rpc_session.cpp:15-59 | a proper prefix of a frame is no message |
| `ProtocolModel.ParseFrames` | rpc/rpc_session.cpp:15-59 | frames in a row and an unfinished one parse to exactly those messages and the unfinished rest |
| `Protocols.Protocol.SetErrMsg` | rpc/protocol.h:79-86 | a non-empty text sets the flag and the text and appends its length, as one character, to the payload instead of adding it to the length field |
| `ProtocolModel.CreatedPayloadLength` | rpc/protocol.h:79-97 | the length a created message reports is its content less its text, and a text longer than the content wraps it to a number beyond any payload |
| `Protocols.Protocol.Create` | rpc/protocol.cpp:26-36 | the message built from a type, a context, a content and an id |
| `Protocols.Protocol.EncodeHeader` | rpc/protocol.cpp:59-67 | appends the twenty header bytes |
| `Protocols.Protocol.Encode` | rpc/protocol.cpp:69-82 | a fresh rewound buffer that holds the frame, or a fault when the payload is shorter than the copy |
| `Protocols.Protocol.DecodeHeader` | rpc/protocol.cpp:48-57 | the fields are those the six cursor reads yield, lag, throw and fault included |
| `Protocols.HeaderInChunk` | rpc/protocol.cpp:48-57 | inside one chunk the six reads take the header the twenty bytes encode, or throw when there are fewer |
| `StreamModel.ReadExactIff` | net/stream.cpp:19-29 | a fixed-size read takes exactly what it was asked for if and only if the kernel's pieces reach the length exactly, or the first one covers it, or nothing waits behind; and then which pieces are left |
| `StreamModel.ShortReadOvershoots` | net/stream.cpp:19-29 | a first receive of n bytes is followed by a request for the full length again, so n bytes of what follows are taken too |
| `StreamModel.KernelEndsRead` | net/stream.cpp:19-29 | zero or an error from the kernel is what the read returns, with nothing taken |
| `StreamModel.TakenBelow` | net/stream.cpp:19-29 | the overshoot is below the length asked for |
| `StreamModel.WriteAllOneChunk` | net/stream.cpp:43-53 | however the kernel splits the transfer and wherever an error stops it, a prefix of a one-chunk buffer's data goes out, once and in order, all of it exactly when the result is positive |
| `StreamModel.WriteAllOversized` | net/stream.cpp:43-53 | data longer than a chunk faults before anything is sent, from any position and with any cursor; a length that is no positive `int` sends nothing |
| `Streams.SocketStream.Read` | net/socketstream.cpp:27-38 | what one receive yields is stored where the cursor really is, through the scatter list, and the position advances over it; closed sockets and lists that run off included |
| `Streams.SocketStream.ReadFixedSize` | net/stream.cpp:19-29 | for every script and every buffer, result, bytes taken and position are those of the loop on the script; into an aligned buffer the bytes are appended |
| `Streams.SocketStream.Write` | net/socketstream.cpp:47-58 | the gathered bytes go out as far as the kernel takes them and the position advances by that, or past the capacity throws |
| `Streams.SocketStream.WriteFixedSize` | net/stream.cpp:43-53 | for every socket, buffer and length, result, socket and buffer are those of the loop of single writes on the model |
| `Sessions.RecvIsParseIff` | rpc/rpc_session.cpp:15-59 | with a whole frame waiting, the session returns its message and leaves exactly what follows if and only if the socket is open, the kernel cuts header and body so that neither read overshoots, and no text fills a chunk-sized body delivered at once |
| `Sessions.RecvIsParse` | rpc/rpc_session.cpp:15-59 | when the kernel serves each read in one piece the session returns the message, or faults exactly for such a text |
| `Sessions.FullTextFaults` | rpc/rpc_session.cpp:52-56 | any text of 4094 bytes under a header that announces a body of 4096 makes a frame that parses and a session that faults |
| `Sessions.NoHeaderIsNull` | rpc/rpc_session.cpp:19-30 | a session that is closed, ends or fails at the header gives the null pointer |
| `Sessions.NoBodyIsNull` | rpc/rpc_session.cpp:45-51 | and so does one that ends or fails in front of an announced body |
| `Sessions.OtherHeaderIsNull` | rpc/rpc_session.cpp:34-43 | and one whose header has another magic or version, however it is delivered |
| `Sessions.RpcSession.RecvHeader` | rpc/rpc_session.cpp:15-43 | the header read from the socket, or null when the stream ends or magic or version differ |
| `Sessions.RpcSession.RecvBody` | rpc/rpc_session.cpp:45-57 | the payload read, the text decoded from it if announced, the rest kept as payload, over any number of chunks, with the fault behind a text that ends with the last chunk |
| `Sessions.RpcSession.RecvProtocol` | rpc/rpc_session.cpp:15-59 | the whole call on the heap for every socket: message, null, throw or fault, and what is left on the socket |
| `Sessions.RpcSession.SendProtocol` | rpc/rpc_session.cpp:61-66 | a prefix of the frame goes out, the whole frame exactly when the call succeeds; a message without a frame faults, and so does a frame above a chunk unless its length is no positive `int`, with nothing sent in either case |
| `Wire.RunInv` | rpc/rpc_session.cpp:61-66 | in every run of concurrent senders with arbitrary short writes, of any messages whose frames fit a chunk, the wire is the frames in lock order, each as far as its sender got, then the part of the holder's frame that is out |
| `Wire.WriteStep` | net/socketstream.cpp:47-58 | one short write extends the holder's prefix by exactly the bytes taken |
| `Wire.WithoutFailuresWhole` | net/stream.cpp:43-53 | while no write fails every released frame is whole |
| `Wire.WireIsFrames` | rpc/rpc_session.cpp:61-66 | the wire is then whole frames in lock order followed by a part of one, error texts or not |
| `Wire.ReceiverGetsMessages` | rpc/rpc_session.cpp:15-66 | end to end: when no message carries a text a receiver parsing the wire gets exactly the messages sent, whole and in lock order |
| `Wire.HolderGoesOn` | net/stream.cpp:43-53 | in every reachable state the lock holder can go on: as long as something is left the kernel may take any part of it or fail, and exactly then; otherwise the holder releases |
| `Wire.UnlockLetsOthersIn` | rpc/rpc_session.cpp:64-65 | finishing and failing both free the session for whoever waits, and leave the wire as it is |
| `Wire.SendIsReachable` | rpc/rpc_session.cpp:61-66 | a run in which any message whose frame fits a chunk gets through whole |
| `Calls.RunInv` | rpc/rpc_client.h:59-110 | ids, channels, requests, responses and results stay consistent in every interleaving of calls, timeouts, losses, late and duplicated responses, erasures and close |
| `Calls.IdsDistinctIff` | rpc/rpc_client.h:66-78 | the ids issued are distinct if and only if the 64-bit counter has not come round |
| `Calls.CallGetsItsOwnResponse` | rpc/rpc_client.cpp:101-109 | a call completes only with a response that carries its id and, before the counter comes round, only with the answer to its own request |
| `Calls.DeliveredIsResult` | rpc/rpc_client.h:86-128 | in every run a call that is delivered a response holds it from then on and, once it finishes, has exactly that response for its result, whatever comes after |
| `Calls.CompletedCallHasResponse` | rpc/rpc_client.h:86-128 | so when a delivery at step i is followed by the call's finish, its result is the very response the receiver was pushing at step i |
| `Calls.TimedOutHasNone` | rpc/rpc_client.h:91-103 | and a call that times out has none |
| `Calls.ResultIffDelivered` | rpc/rpc_client.h:86-128 | in every run a finished call has a result if and only if a response was delivered to it |
| `Calls.CompletionIsReachable` | rpc/rpc_client.h:59-128 | a run in which a call is sent, dispatched and answered, and returns the answer |
| `Calls.DispatchedOnce` | rpc/rpc_server.cpp:149-178 | a request is dispatched at most once, and exactly once when its call got a response |
| `Calls.OneAnswerPerCall` | rpc/rpc_server.cpp:162-177 | in every run two response frames for one request are copies of each other |
| `Calls.AnswerIsSent` | rpc/rpc_server.cpp:206-207 | what the server answers carries its code and the call's id, and stays on its way |
| `Calls.LostIsNeverAnswered` | rpc/rpc_client.cpp:65-73 | in every run a request lost on the wire or in front of the queue is never dispatched and never answered |
| `Calls.QueueIsFifo` | rpc/rpc_client.cpp:65-73 | in every run requests leave the queue in the order in which calls queued them while the client was open |
| `Calls.CloseIsFinal` | rpc/rpc_client.cpp:111-124 | after a close no call begins in the rest of the run |
| `Calls.EntryIffUnfinished` | rpc/rpc_client.h:66-103 | in every run, before the counter comes round and unless the receive loop hangs, the map holds exactly the calls that have not finished, each with its own channel |
| `Calls.ResponseIsRouted` | rpc/rpc_client.cpp:101-109 | so a response is taken up if and only if the call it answers has not finished, and a late one is dropped |
| `Calls.EntryKeepsChannel` | rpc/rpc_client.h:66-78 | an entry keeps its channel until its own call erases it, also when the id is inserted again |
| `Calls.HungForever` | rpc/rpc_client.cpp:101-109 | in every run a receive loop pushing into a channel nobody pops is still there in every later state |
| `Calls.HangsIffErased` | rpc/rpc_client.cpp:101-109 | in every run the push goes astray if and only if the entry was erased between the unlocked lookup and the indexing |
| `Calls.HangIsReachable` | rpc/rpc_client.h:86-103 | and a run with one timed-out call gets there |
| `Calls.CallReleasesPush` | rpc/rpc_client.h:86-103 | a push to the channel of any call is released by steps of that call alone, wherever the call is |
| `Heartbeat.RunInv` | rpc/rpc_client.cpp:46-61 | flag, outstanding heartbeats and handled replies stay consistent in every run |
| `Heartbeat.AtMostOneOutstanding` | rpc/rpc_client.cpp:95-99 | outside the callback at most one heartbeat is queued, on the wire, handled or in reply, and none while the flag is set |
| `Heartbeat.WrongCloseIffRaced` | rpc/rpc_client.cpp:46-61 | a tick closes although the last heartbeat was answered if and only if the answer was handled between queueing and clearing the flag |
| `Heartbeat.NoRaceInOneStep` | rpc/rpc_client.cpp:46-61 | with the callback as one step that never happens |
| `Heartbeat.CloseOnlyUnanswered` | rpc/rpc_client.cpp:46-61 | so a tick then closes only when the previous reply has not been handled |
| `Heartbeat.LossKills` | rpc/rpc_client.cpp:46-61 | a heartbeat or reply lost outside the callback leaves nothing outstanding and the flag clear |
| `Heartbeat.DeadStays` | rpc/rpc_client.cpp:46-61 | and from such a state, in every run, the one step left is the tick that closes |
| `Heartbeat.WrongCloseIsReachable` | rpc/rpc_client.cpp:46-61 | with the callback as two steps a live connection can be closed |
| `Server.ServerRecoversCall` | rpc/rpc_server.cpp:186-203 | from the client's payload the server calls the named function on exactly the arguments serialized |
| `Server.ReplyAnswersRequest` | rpc/rpc_server.cpp:186-208 | every request whose name can be read is answered, and no other: by a message of type 1 under the request's id, with the request's payload |
| `Server.ReplyCode` | rpc/rpc_server.h:43-91 | code and text: 2 for an unknown name, 3 for arguments that cannot be decoded, 4 with its text for a function that throws, 1 without a text for one that returns |
| `Server.HandledByType` | rpc/rpc_server.cpp:162-176 | a message of type 0 is answered as a call, one of type 7 by a heartbeat, any other not at all |
| `Server.CallReturnsItsRequest` | rpc/rpc_server.cpp:186-208 | end to end for every return type and every function that returns: request and response frames are sent without a fault and parse back whole, the response a method response with code 1 under the call's id, and the client gets what its own request decodes to as a value of that type, whatever the function computed |
| `Server.UnsignedCallReturnsNameLength` | rpc/rpc_client.h:105-128 | which for an unsigned integer is the length of the function's name |
| `Server.SignedCallReturnsZigzag` | rpc/rpc_client.h:105-128 | for a signed integer that length read as a zigzag number |
| `Server.StringCallReturnsName` | rpc/rpc_client.h:105-128 | and for a string the name |
| `Server.TakeResult` | rpc/rpc_client.h:105-128 | the client's end of a call: the server's refusal, a value, or a payload that is no value of the type |
| `Server.UnknownMethodReplyEncodes` | rpc/rpc_server.cpp:197-207 | the reply for an unknown function has a frame if and only if the payload is long enough to cover its text |
| `Server.RegisteringChangesOneAnswer` | rpc/rpc_server.h:32-39 | registering a function changes the answers to calls of its name, the latest registration winning, and to no other call |
| `Server.RpcServer.DecodeArgs` | rpc/rpc_server.h:48-60 | the argument tuple decoded from a fresh buffer is that of the flat decoder |
| `Server.RpcServer.Invoke` | rpc/rpc_server.h:43-91 | error code and text for success, undecodable arguments and a throwing function |
| `Server.RpcServer.SplitRequest` | rpc/rpc_server.cpp:186-196 | the name, and everything behind it as the argument string |
| `Server.RpcServer.HandleMethodCall` | rpc/rpc_server.cpp:186-208 | the response on the heap is the reply of the model for payloads below a chunk |
| `Server.RpcServer.HandleMessage` | rpc/rpc_server.cpp:162-176 | the dispatch answers a received message on the heap as the model says, for payloads below a chunk |
| `Registry.LiveRegister` | rpc/rpc_service_registry.cpp:115-122 | a registration is appended to the standing ones |
| `Registry.LiveDisconnect` | rpc/rpc_service_registry.cpp:71-95 | a disconnect removes exactly the entries of its address |
| `Registry.TwiceIffDuplicated` | rpc/rpc_service_registry.cpp:77-92 | an iterator is collected and erased twice if and only if some service is registered twice for the address |
| `Registry.CollectedCount` | rpc/rpc_service_registry.cpp:77-85 | each entry of the address is collected as often as its service is listed |
| `Registry.DisconnectedNotDiscovered` | rpc/rpc_service_registry.cpp:71-95 | after a disconnect the address is found under no name |
| `Registry.DiscoveredAfterRegister` | rpc/rpc_service_registry.cpp:115-165 | a registration puts its address behind those found under its name and changes no other name |
| `Registry.DiscoveredAfterDisconnect` | rpc/rpc_service_registry.cpp:71-165 | a disconnect takes its address out of what is found under every name and keeps all others in order |
| `Registry.DiscoverReplyIs` | rpc/rpc_service_registry.cpp:138-174 | type 3, the asker's id, code 2 with the text about the name when nothing stands under it and 1 otherwise, and a payload that decodes to the standing addresses; an unreadable name stands for the empty one |
| `Registry.RegisterReplyIs` | rpc/rpc_service_registry.cpp:97-132 | type 6, no content, code 9 with its text if and only if there is a payload that cannot be read, and the asker's id unless there is no payload |
| `Registry.DiscoverRoundTrip` | rpc/rpc_service_registry.cpp:138-174 | end to end: the reply is sent in one frame that, whatever follows on the wire, parses back to it, and so to exactly the standing addresses in registration order, if and only if the request's name is readable, has a standing address, and header and addresses fit a chunk |
| `Registry.UnregisteredHasNoFrame` | rpc/rpc_service_registry.cpp:154-159 | the reply for a name without a standing address has no frame |
| `Registry.UnreadableRegistrationHasNoFrame` | rpc/rpc_service_registry.cpp:104-131 | nor has the reply to a registration that cannot be read |
| `Registry.UnregisteredDiscoveryFaults` | rpc/rpc_service_registry.cpp:51-53 | so the round that answers such a discovery faults |
| `Registry.OversizedDiscoveryFaults` | rpc/rpc_service_registry.cpp:51-53 | and for a readable name with standing addresses the round faults if and only if they do not fit a chunk and the frame's length is a positive `int` |
| `Registry.ProviderKeysDistinct` | rpc/rpc_service_registry.cpp:58-69 | two providers get the same key only when they share address and 16-bit port |
| `Registry.AnnouncedAddress` | rpc/rpc_service_registry.cpp:58-69 | whatever port is announced, the key reads back as the peer's address and the low sixteen bits of that port |
| `Registry.RpcServiceRegistry.Emplace` | rpc/rpc_service_registry.cpp:115-122 | both multimaps gain mirrored entries and stay the standing registrations of the history |
| `Registry.RpcServiceRegistry.Collect` | rpc/rpc_service_registry.cpp:77-85 | the nested loops collect the positions of the address, service by service |
| `Registry.RpcServiceRegistry.Erase` | rpc/rpc_service_registry.cpp:87-92 | the erase loop succeeds if and only if no position repeats |
| `Registry.RpcServiceRegistry.Unregister` | rpc/rpc_service_registry.cpp:71-95 | faults exactly for a provider that registered a service twice; otherwise both multimaps forget the address and nothing else and stay mirrors |
| `Registry.RpcServiceRegistry.Lookup` | rpc/rpc_service_registry.cpp:152-165 | exactly the addresses registered under the name and not disconnected since, in registration order |
| `Registry.RpcServiceRegistry.HandleRegister` | rpc/rpc_service_registry.cpp:97-132 | reply and history for empty, unreadable and readable payloads |
| `Registry.RpcServiceRegistry.HandleDiscover` | rpc/rpc_service_registry.cpp:138-174 | the reply computed from the history alone |
| `Registry.RpcServiceRegistry.Serve` | rpc/rpc_service_registry.cpp:22-55 | one round of a session: its reply, what it adds to the history, the exceptions and faults of receiving and of the provider's port, the fault on a null request from anyone but a provider, and the fault of sending a reply that has no frame or too long a one |
| `Registry.RpcServiceRegistry.ServeMessage` | rpc/rpc_service_registry.cpp:31-54 | a round by the number of the message's type: 2 changes nothing and is answered with the standing addresses, 5 adds exactly its registration, 4 sets the session's key, 7 is answered by a heartbeat, anything else changes nothing and gets no reply |
| `Registry.RpcServiceRegistry.HandleClientRound` | rpc/rpc_service_registry.cpp:21-55 | the same from the socket: what is received is served so, a throw or fault of receiving passes through, and a null pointer unregisters a provider and faults for anyone else |
| `Registry.RpcServiceRegistry.HandleProvider` | rpc/rpc_service_registry.cpp:58-69 | the session becomes a provider's under the peer's IPv4 text with the decoded port, throws on an unreadable port and faults on a peer of another family |
| `RegistryRace.ExclusiveRunsAreExact` | rpc/rpc_service_registry.cpp:152-165 | with unregistering and discovery excluding each other, in every run no discovery holds a dead iterator, and one that ends has exactly the standing addresses |
| `RegistryRace.RunStands` | rpc/rpc_service_registry.cpp:71-122 | in every run, exclusive or not, the nodes not about to be erased are the registrations that stand after the registrations and disconnects of the run |
| `RegistryRace.UnregisterEnds` | rpc/rpc_service_registry.cpp:87-94 | each erasure of an unregistering leaves one less to do, and after the last the nodes are what stands after the disconnect |
| `RegistryRace.ExclusiveDiscoveryIsLookup` | rpc/rpc_service_registry.cpp:152-165 | so under exclusion a discovery that ends, whatever it interleaved with, has found what the sequential lookup finds in the history of the run |
| `RegistryRace.OnlyErasureDangles` | rpc/rpc_service_registry.cpp:87-92 | nothing but the erasure of the node a discovery stands at leaves its iterator dead |
| `RegistryRace.DanglingIsReachable` | rpc/rpc_service_registry.cpp:71-95 | and under the reader lock, as the code takes it, a run gets there |
| `AddressBlock.CreateMask8` | net/address.cpp:16-19 | ones in the bits below the prefix |
| `AddressBlock.NetworkAddress` | net/address.cpp:342-351 | the loop clears everything below the prefix; prefixes from 128 on index past the address |
| `AddressBlock.BroadcastAddress` | net/address.cpp:331-340 | the loop sets everything below the prefix |
| `AddressBlock.SubnetMaskAddress` | net/address.cpp:353-364 | the loop sets the prefix and nothing else |
| `AddressBlock.NetworkBound` | net/address.cpp:342-351 | as a number the network address is the first p bits followed by zeros |
| `AddressBlock.BroadcastBound` | net/address.cpp:331-340 | and the broadcast address is 2^(128-p) - 1 above it |
| `AddressBlock.BlockIsPrefix` | net/address.cpp:331-351 | an address lies between network and broadcast if and only if it shares the first p bits |
| `AddressBlock.MemberInBlock` | net/address.cpp:331-351 | each number below 2^(128-p) numbers a different address that shares them |
| `AddressBlock.MemberOfBlock` | net/address.cpp:331-351 | and each address that shares them has a number, so the block has 2^(128-p) members |
| `AddressBlock.NetworkIsMasked` | net/address.cpp:342-364 | the network address is the address and-ed with the subnet mask, byte by byte |
| `AddressText.Insert6` | net/address.cpp:302-329 | the loop with its flag prints the groups in hexadecimal with the first run of zeros elided, in brackets, then the port |
| `AddressText.PrintStep` | net/address.cpp:306-323 | what one printed group adds, the closing of the elision included |
| `AddressText.NumeralDigits` | net/address.cpp:302-329 | numbers print as decimal or lower-case hexadecimal digits without leading zeros |
| `AddressText.ElidedIffZero` | net/address.cpp:302-329 | the text has two colons in a row if and only if some group is zero |
| `AddressText.BodyRoundTrip` | net/address.cpp:302-329 | a reader that follows section 2.2 of RFC 4291 recovers all eight groups from the compressed text |
| `AddressText.Text6RoundTrip` | net/address.cpp:302-329 | and address and port from the whole text |
| `AddressText.Text4RoundTrip` | net/address.cpp:252-259 | the IPv4 text determines address and port |
| `AddressText.TextInjective` | net/address.cpp:136-140 | two addresses of either family print alike only when they are the same, so the text is a sound registry key |

## Left out

- `ByteArray` sizes: arithmetic on positions and sizes is unbounded; `size_t` overflow and the rounding of the `double` division in `addCapacity` for sizes above 2^53 are not modelled.
- Streams.SocketStream.ReadFixedSize: what a buffer with a lagging cursor holds afterwards is stated for single reads only; the buffers the session reads into are fresh or cleared, hence aligned.
- Serializers.Serializer.Put: what is appended is stated for an aligned cursor, which every buffer that has only been written to has.
- Serializers.Serializer.PutScalar: likewise.
- Serializers.Serializer.PutAll: likewise.
- Serializers.Serializer.PutItems: likewise.
- Server.RpcServer.HandleMethodCall: stated for payloads below a chunk; a longer request cannot be sent in one frame.
- Server.TakeResult: likewise; the text of the exception behind a type mismatch is left out.
- Server.RpcServer.DecodeArgs: likewise.
- Server.RpcServer.Invoke: likewise.
- Server.RpcServer.SplitRequest: likewise.
- Server.RpcServer.HandleMessage: likewise.
- Registry.RpcServiceRegistry.HandleDiscover: counts and lengths are taken to fit 64 bits.
- Registry.RpcServiceRegistry.Serve: likewise; whether the session is still connected is a parameter.
- Registry.RpcServiceRegistry.ServeMessage: likewise.
- Registry.RpcServiceRegistry.HandleClientRound: likewise, with the session still connected while the socket is open.
- Registry.DiscoverRoundTrip: lengths are those of strings in memory.
- Floating point values are 32- and 64-bit patterns; sets of them are left out, since their order is not that of the patterns.
- Serializer operators for map, unordered_map and pair, whose writers apply the operator to the `this` pointer, and for unordered_set, whose iteration order is unspecified.
- The raw-buffer overloads of the fixed-size read and write, which never advance their buffer.
- Sockets, timers, coroutine scheduling and the call channel's blocking: replaced by scripts and nondeterministic steps; a call's channel is taken as unbuffered, so a push waits for a pop or a close.
- The registry class takes each handler as one step; the interleaving of discovery with unregistering is in `RegistryRace`, on one multimap and one discovery at a time.
- The result a server function serializes: the code drops it, and so does the model.
- IPv4 masks, Unix and unknown addresses, lookup by name and the address order.
- File input and output of the buffer, configuration, logging, command line and the empty connection pool.
- The server's own registry client (send order, registry heartbeat) and the liveness timer of its sessions.
