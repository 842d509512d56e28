# JustServer in Dafny

A model of the protocol engines, the cache, the allocators and the admission logic of JustServer, a C++20 web
server, with proofs of what they promise. Each engine is modelled twice where the source works by changing
state: as functions on values, on which the theorems are stated, and as a class or a method with loops in the
source's own form, proved to compute those functions.

Check everything with `dafny verify dfyconfig.toml`.

| files | what they model |
|---|---|
| `WebSocket*.dfy` | the WebSocket connection of src/websocket.cpp: framing, masking, fragmentation, close |
| `Bits.dfy`, `Huffman*.dfy` | the Huffman lookup of src/http2.cpp, the bit trie it replaces, and the source's code table |
| `Hpack*.dfy` | header compression of src/http2.cpp: integers, strings, the evicting dynamic table |
| `Http2*.dfy` | the HTTP/2 connection of src/http2.cpp: preface, frames, settings, streams, responses |
| `Http1*.dfy` | the HTTP/1.1 request parser of src/http_parser.cpp: head, sized bodies, chunked bodies |
| `HttpText.dfy` | what targets, names and numbers in HTTP texts mean, apart from any parser |
| `Json*.dfy` | the claim reader of src/jwt_validator.cpp |
| `Cache*.dfy` | the response cache of src/cache.cpp |
| `Arena*.dfy`, `Slab.dfy` | the allocators of include/arena_allocator.hpp |
| `Admission*.dfy` | connection admission of src/ddos_guard.cpp as interleaved steps |
| `HashRing.dfy`, `Balancing.dfy`, `LoadBalancers.dfy` | the balancers of src/load_balancer.cpp |
| `TokenBucket*.dfy` | the token bucket limiter of src/anti_bot.cpp |
| `Utf8*.dfy` | UTF-8 decoding, validation and normalisation of src/unicode.cpp |
| `Common.dfy` | bytes, big-endian integers, exclusive or |

Modelling decisions: bytes are integers from 0 to 255; doubles are reals; the clock, what `malloc` returns, the
memory estimate of a cache entry and the parsed Cache-Control header are inputs; the request handler is a function
of the calls made so far and the request; callbacks are recorded in a trace; the mutex-protected sections of the
admission guard are atomic steps.

Where the code departs from what one would expect, the model follows the code and a pair of lemmas says exactly how:

- The HTTP/2 split theorem fails once the connection has ended: `Http2Split.SplitIff` gives the exact condition,
  `Http2Split.SplitShows` an input.
- The Huffman decoder does not decode every valid encoding: `HuffmanRuns.DecodeExact` says which it does,
  `HuffmanRuns.MisalignedReading` what it makes of the others. Some are refused (`HuffmanTable.DecoderIncomplete`, the
  string "033"), some come back cut short as a success (`HuffmanTable.DecoderTruncates`, "03&" as "03"). Row 123 of the
  source's table (the brace) is not the one of appendix B of RFC 7541, and `HuffmanTable.TableNotPrefixFree` shows the consequence.
  Of the examples in appendix C of that RFC, the plain ones are decoded as printed (`HpackExamples.FirstRequest` and the two
  after it), and the Huffman-coded "www.example.com" of section C.4.1 is refused (`HpackExamples.ExampleStringRefused`).
- Header block integers are read modulo 2^64: `HpackIntegers.IntegerDenotedIff` and `HpackIntegers.IntegerWraps`. Size
  updates are taken beyond the announced size: `Http2Table.WithinAnnouncedIff`, `Http2Table.ConnectionWithinIff` and
  `Http2Delivery.SizeUpdateTaken`.
- A chunked HTTP/1.1 body resumes correctly only at some cut points: `Http1Split.ResumableIff` gives the exact
  condition for every parser state and `Http1Chunks.CutResumableIff` the cut points of a well-formed body. A
  request line without any header field is refused (`Http1Render.NoFieldsRefused`).
- Cleaning up idle token buckets changes answers exactly when a bucket can be erased before it has refilled:
  `TokenBucketCleanup.CleanupTransparentIff`. The rate bound survives cleanup under exactly that condition:
  `TokenBucketCleanup.RateBoundCleanupIff`. A new rate counts from the last refill on (`TokenBucketRates.SetRateLevel`); the
  bound still holds with the largest rate and burst the key ever had (`TokenBucketRates.RateBoundAnyRates`).
- A memory limit lets a smaller cache hit where a larger one misses: `CacheMemory.InclusionIff` gives the exact
  condition on the two configurations, `CacheMemory.MemoryBreaksInclusion` the trace.
- A JSON string whose escapes form a surrogate pair is not read as the character it denotes:
  `JsonEscapes.StringDenotedIff` says that nothing else goes wrong, `JsonEscapes.PairMisread` shows U+1F600, and
  `JsonEscapes.LookupPassesPairs` says what that does to a lookup in any object. The reader also accepts texts that are
  not JSON, for it only looks for the end of a value it does not want: `JsonAccept.LookupIff` says exactly which.
- Text the Unicode checks accept or produce can lie beyond U+10FFFF: `Utf8.NormalizedValidIff` and
  `Utf8.BeyondUnicode`.
- Removing a backend from the hash ring can move other backends' keys exactly when two of them share a virtual
  node hash: `HashRing.RebuildIsMarkingIff` and `HashRing.TiesMatter`.
- With more than one accepting thread the connection limit is exceeded by up to the extra threads:
  `Admission.AdmissionSafe` and `Admission.BoundAttained`. While the per-address limit is at least one, the guard's cleanup
  never finds anything to erase: `AdmissionEntries.TrackedIsOpen`.

## Model

| member | source | states |
|---|---|---|
| `WebSocketSplit.ParseMonotone` | src/websocket.cpp:90-164 | a frame or a violation found in the buffer is found again, unchanged, when more bytes follow |
| `WebSocketSplit.SplitInvariance` | src/websocket.cpp:76-164 | from any state, one read of two byte strings and two reads of one each give the same state, the same bytes sent and the same callbacks |
| `WebSocketSplit.ChunkingInvariance` | src/websocket.cpp:76-164 | any chunking of the input equals a single read of all of it |
| `WebSocketDelivery.MaskedTwice` | src/websocket.cpp:264-268 | masking twice with the same key gives the payload back |
| `WebSocketDelivery.ParseRendered` | src/websocket.cpp:90-164 | a masked client frame of up to 16 MB, with any of the three length encodings, is read back exactly and the rest of the buffer kept |
| `WebSocketDelivery.DrainRendered` | src/websocket.cpp:76-88 | reading a rendered frame list is handling its frames in order, as long as the connection stays open |
| `WebSocketDelivery.EndToEnd` | src/websocket.cpp:76-262 | any message list, fragmented in any way, with pings and pongs interleaved, masked and chunked in any way, is delivered as exactly that list, each ping is answered by its pong in order, and the connection stays open |
| `WebSocketDelivery.HandleCourteous` | src/websocket.cpp:166-262 | one frame makes the server send a pong for a ping and otherwise nothing but a closing frame, whose code is 1002, 1009 or the one just reported to the callback |
| `WebSocketDelivery.RunCourteous` | src/websocket.cpp:76-262 | on any input whatsoever the bytes sent are pong frames for the pings received, followed by at most one close frame, which comes last and has the code 1002, 1009 or that of the close received |
| `WebSocketDelivery.BuildFrameRoundTrip` | src/websocket.cpp:270-296 | a server frame of any opcode and length is read back by an unmasked-frame reader |
| `WebSocketClose.ParsedIff` | src/websocket.cpp:90-164 | read off the header bytes: a buffer is refused if and only if a reserved bit is set, or its length is there and over 16 MB or the mask bit is not set; a frame is taken if and only if it is whole; and then its opcode, final bit, length and unmasked payload are those |
| `WebSocketClose.ViolationAnswered` | src/websocket.cpp:166-262 | a frame that the state does not allow ends the connection with the close code of section 7.4.1 of RFC 6455: 1002 for a data frame inside a fragment, a continuation outside one, a ping over 125 bytes or an unknown opcode, 1009 for a message over 64 MB |
| `WebSocketClose.NoViolation` | src/websocket.cpp:166-262 | without a violation only a close frame ends the connection |
| `WebSocketClose.RefusedSilently` | src/websocket.cpp:76-88 | a refused frame ends the connection with nothing sent and no callback |
| `WebSocketClose.CloseHandled` | src/websocket.cpp:217-236 | a close frame is reported once with its code and reason, 1005 where it has none, and echoed unless a close was sent before |
| `WebSocketClose.SamePayload` | src/websocket.cpp:217-236 | where a close carries a code, that echo has the payload received |
| `WebSocketClose.CloseHandshake` | src/websocket.cpp:76-236 | on the wire: any close frame with any code and reason makes exactly one callback, is answered by a close frame with the same code and reason, and nothing after it is handled |
| `WebSocketClose.EndToEndClosed` | src/websocket.cpp:76-262 | a whole conversation that ends in a close, chunked in any way: its messages, a pong for each ping, and then the handshake |
| `WebSocketConnection.WsConnection.constructor` | src/websocket.cpp:74 | a new connection is open, with nothing buffered |
| `WebSocketConnection.WsConnection.ProcessInput` | src/websocket.cpp:76-88 | the loop leaves the state, output and callback trace that Process gives |
| `WebSocketConnection.ReadFrame` | src/websocket.cpp:90-164 | the checks in source order, the length loops and the in-place unmasking compute ParseFrame |
| `WebSocketConnection.WsConnection.ParseFrame` | src/websocket.cpp:90-164 | takes one complete frame off the buffer, closes on a violation, or changes nothing when bytes are missing |
| `WebSocketConnection.WsConnection.OnData` | src/websocket.cpp:170-193 | a text or binary frame: delivered, kept as the first fragment, or refused |
| `WebSocketConnection.WsConnection.OnContinuation` | src/websocket.cpp:195-215 | a continuation: appended, delivered with what came before, or refused |
| `WebSocketConnection.WsConnection.Handle` | src/websocket.cpp:166-262 | updates fragment, close and trace fields as HandleFrame says and leaves the buffer alone |
| `WebSocketConnection.WsConnection.Unmask` | src/websocket.cpp:264-268 | the in-place loop exclusive-ors byte i with key byte i mod 4 |
| `Huffman.FastSymbol` | src/http2.cpp:353-365 | the symbol left in a slot of the fast table is the last one whose code covers that slot |
| `HuffmanCorrect.LookupFacts` | src/http2.cpp:344-379 | the long codes are those of the table, in order of length and then code |
| `HuffmanCorrect.LookSound` | src/http2.cpp:400-431 | a match, fast or slow, is a symbol whose code starts the pending bits |
| `HuffmanCorrect.LookComplete` | src/http2.cpp:400-431 | when a whole code is pending, its symbol is the match |
| `HuffmanRuns.DecodeSound` | src/http2.cpp:387-455 | for any table: a decoded string spells the input bits read so far, the unread bits are at most seven ones, and no decoded code is longer than 12 bits |
| `HuffmanRuns.FeedExact` | src/http2.cpp:395-444 | from a partial byte, what the loop makes of the encoding of any string: its symbols as long as their codes are complete at the byte boundary, then a refusal or a premature end |
| `HuffmanRuns.DecodeExact` | src/http2.cpp:387-455 | the padded encoding of a string decodes to it if and only if no code straddles a byte with five or more bits pending |
| `HuffmanRuns.DecodeReads` | src/http2.cpp:387-455 | the same for the whole decoder and any string |
| `HuffmanRuns.MisalignedReading` | src/http2.cpp:387-455 | on a string with an incomplete code the result is the symbols before it, as a success, if the bits of that code that are pending are at most seven ones, and a refusal if not |
| `HuffmanTrie.BuildTrie` | src/http2.cpp:289-311 | for any table: the node vector is a tree in which every code has its node, labelled with its symbol unless a later symbol has the same code, and indices fit 16 bits |
| `HuffmanTrie.CodeLeadsToSymbol` | src/http2.cpp:289-311 | following the child links along a code of any length ends at the node with its symbol, unless a later symbol has the same code |
| `HuffmanTrie.WalkCodes` | src/http2.cpp:289-311 | walking the trie along the codes of a string gives the string back |
| `HuffmanTrie.LookupRefinesTrie` | src/http2.cpp:289-455 | whatever the lookup decoder returns is what the trie walk reads off the bits it consumed |
| `HuffmanTable.TableWellFormed` | src/http2.cpp:18-276 | every row of the source table is a code of its stated length |
| `HuffmanTable.TableShortPrefixFree` | src/http2.cpp:18-276 | no code of up to 12 bits starts another code of the table |
| `HuffmanTable.TableSuitable` | src/http2.cpp:18-276 | the source table meets the hypotheses of the exactness theorem, so it applies to it |
| `HuffmanTable.TableNotPrefixFree` | src/http2.cpp:18-276 | as a whole the table is not prefix-free: the code of symbol 123 starts that of symbol 147 |
| `HuffmanTable.DecoderIncomplete` | src/http2.cpp:387-455 | the valid encoding of "033" is refused |
| `HuffmanTable.DecoderTruncates` | src/http2.cpp:387-455 | the valid encoding of "03&" is decoded to "03" |
| `HuffmanTable.SourceDecodeCutShort` | src/http2.cpp:18-455 | with the source table, an encoding that is not decoded back is cut short before its first incomplete code or refused, as the pending bits say |
| `HuffmanTable.SourceDecodeIff` | src/http2.cpp:18-455 | with the source table, an encoding padded with up to seven ones is decoded back if and only if no code straddles a byte with five or more bits pending |
| `HuffmanDecoder.BuildLookup` | src/http2.cpp:344-379 | the table-filling loops and the sort build the lookup structure |
| `HuffmanDecoder.HuffmanDecode` | src/http2.cpp:387-455 | the accumulator loop computes Decode, whose soundness and exactness are proved |
| `HuffmanDecoder.Find` | src/http2.cpp:400-431 | table access and linear scan compute Look |
| `Hpack.Evict` | src/http2.cpp:562-567 | eviction keeps the size counter equal to the sum of entry sizes and ends with room for the entry or nothing left |
| `Hpack.Add` | src/http2.cpp:546-560 | insertion keeps the size counter equal to the sum and within the maximum |
| `Hpack.SetMax` | src/http2.cpp:541-544 | a size update keeps the size counter equal to the sum and within the new maximum |
| `Hpack.Decode` | src/http2.cpp:631-702 | whatever the block, and also when it is refused, the table's counter stays the exact sum and within the maximum |
| `Hpack.FindNameFacts` | src/http2.cpp:733-748 | the encoder uses the first static entry with the name, and none exactly when there is none |
| `HpackCorrect.IntegerRoundTrip` | src/http2.cpp:586-608 | every 64-bit value, at every prefix size and under any pattern bits, is decoded back with the rest untouched |
| `HpackCorrect.StringRoundTrip` | src/http2.cpp:722-726 | an encoded string is decoded back with the rest untouched |
| `HpackCorrect.HeaderRoundTrip` | src/http2.cpp:728-759 | each of the three representations the encoder chooses decodes to the header without touching the table |
| `HpackCorrect.RoundTrip` | src/http2.cpp:631-759 | from any decoder state an encoded header list decodes to exactly that list and leaves the dynamic table unchanged |
| `HpackCorrect.HuffmanStringRead` | src/http2.cpp:610-629 | what any Huffman-coded string is read as: the whole of it, the part before an incomplete code, or a refusal |
| `HpackCorrect.HuffmanStringIff` | src/http2.cpp:610-629 | a Huffman-coded string is decoded back, with the rest untouched, if and only if none of its codes straddles a byte with five or more bits pending |
| `HpackIntegers.IntegerReads` | src/http2.cpp:586-608 | on any bytes: the number that section 5.1 of RFC 7541 says they denote, modulo 2^64, if it takes at most eleven bytes, and a refusal if it does not or the input ends |
| `HpackIntegers.IntegerDenotedIff` | src/http2.cpp:586-608 | the number read is the one denoted if and only if that is below 2^64 and takes at most eleven bytes |
| `HpackIntegers.IntegerWraps` | src/http2.cpp:586-608 | 2^64 + 127 is read as 127 |
| `HpackBlocks.TextDecoded` | src/http2.cpp:610-629 | a string literal, plain or Huffman-coded, is read as its text |
| `HpackBlocks.RepDecoded` | src/http2.cpp:631-702 | one turn of the loop on any representation of section 6 of RFC 7541: its header is added and its operation done, or the block is refused because a reference does not resolve |
| `HpackBlocks.BlockDecoded` | src/http2.cpp:631-702 | from any table, any list of representations, indexed in either table, literal with or without indexing, or size updates, is decoded to the headers they stand for and leaves the table their operations leave, up to a reference that does not resolve |
| `HpackBlocks.DecodedTable` | src/http2.cpp:631-702 | decoding any bytes, accepted or refused, does to the table exactly the insertions and size updates that the loop meets in them, in order |
| `HpackBlocks.LoopOpsOfBlock` | src/http2.cpp:631-702 | on representations those are the insertions and size updates written down |
| `HpackExamples.StaticTable` | src/http2.cpp:460-524 | the static table of appendix A of RFC 7541: the pseudo-headers and their values, then the other names in alphabetical order, a shorter one after those it starts, with no value but one |
| `HpackExamples.FirstRequest` | src/http2.cpp:631-702 | the bytes of section C.3.1 of RFC 7541 are decoded to the headers and leave the table printed there |
| `HpackExamples.SecondRequest` | src/http2.cpp:631-702 | those of section C.3.2 after them, which use the dynamic table |
| `HpackExamples.ThirdRequest` | src/http2.cpp:631-702 | those of section C.3.3 after those |
| `HpackExamples.ExampleRefused` | src/http2.cpp:387-455 | the Huffman coding of "www.example.com", the string of section C.4.1, is not decodable |
| `HpackExamples.ExampleStringRefused` | src/http2.cpp:610-629 | so the string is refused wherever it is sent, however padded |
| `HpackAccept.StringIff` | src/http2.cpp:610-629 | on any bytes: a string is read exactly when a length and that many bytes are there, plain or Huffman-coded by the first bit |
| `HpackAccept.LiteralIff` | src/http2.cpp:646-666 | on any bytes: a literal is read exactly when a name, by the number of an entry of either table or spelled out after 0, and a value are there |
| `HpackAccept.DecodeIff` | src/http2.cpp:631-702 | on any bytes and from any table: a block is accepted with these headers and this table after it if and only if the representations of section 6 of RFC 7541 that its first bits announce, one after the other to the end, add these headers and make those changes |
| `HpackTable.FitIff` | src/http2.cpp:546-567 | an entry is in the longest fitting prefix exactly when it and everything newer fit |
| `HpackTable.EvictKeepsFit` | src/http2.cpp:562-567 | the eviction loop keeps the longest prefix that leaves room |
| `HpackTable.AddKeepsFit` | src/http2.cpp:546-560 | after an insertion the table is the longest fitting prefix of new entry plus old table, also for an oversized entry |
| `HpackTable.SetMaxKeepsFit` | src/http2.cpp:541-544 | after a size update the table is the longest prefix that fits the new maximum |
| `HpackTable.FixedMaximum` | src/http2.cpp:541-567 | at a fixed maximum the table is, after any insertions, the longest prefix of the newest-first history that fits |
| `HpackTable.SizeWithinMaximum` | src/http2.cpp:541-567 | in any run of insertions and size updates the counter is the exact sum and within the current maximum |
| `HpackTable.SurvivesIff` | src/http2.cpp:541-567 | in any such run an inserted entry is still there if and only if it fitted, with everything newer, at every moment since |
| `HpackCodec.HpackDecoder.constructor` | src/http2.cpp:528 | a new decoder has an empty table |
| `HpackCodec.HpackDecoder.SetMaxTableSize` | src/http2.cpp:541-544 | sets the maximum and evicts to it |
| `HpackCodec.HpackDecoder.EvictDynamicTable` | src/http2.cpp:562-567 | the loop drops oldest entries and keeps the counter exact |
| `HpackCodec.HpackDecoder.AddToDynamicTable` | src/http2.cpp:546-560 | evicts, then inserts if the entry fits |
| `HpackCodec.HpackDecoder.DecodeInteger` | src/http2.cpp:586-608 | the loop with shift and overflow guard computes DecodeInteger |
| `HpackCodec.HpackDecoder.DecodeString` | src/http2.cpp:610-629 | plain and Huffman strings, advancing past them |
| `HpackCodec.HpackDecoder.DecodeLiteral` | src/http2.cpp:646-666 | indexed or literal name, then value |
| `HpackCodec.HpackDecoder.Decode` | src/http2.cpp:631-702 | the loop returns the headers and leaves the table that Decode gives |
| `HpackCodec.AppendInteger` | src/http2.cpp:706-720 | the loop appends the encoding that the decoder inverts |
| `HpackCodec.AppendHeader` | src/http2.cpp:731-756 | the static-table search and the three branches append the encoding of one header |
| `HpackCodec.EncodeHeaders` | src/http2.cpp:728-759 | the loop appends the encodings of all headers in order |
| `HpackCodec.EncodeText` | src/http2.cpp:722-726 | length prefix and raw bytes |
| `Http2.ApplySettings` | src/http2.cpp:868-899 | settings keep the frame size limit between 16384 and 16777215 and the header table valid |
| `Http2.HandleFrame` | src/http2.cpp:841-855 | every frame of any kind keeps the connection invariant, including the frame size bounds |
| `Http2.Frames` | src/http2.cpp:791-799 | the frame loop keeps the connection invariant |
| `Http2.Process` | src/http2.cpp:766-802 | in every reachable state the frame size limit is between 16384 and 16777215 and the decoder table counts its entries exactly and within its maximum |
| `Http2Table.FrameLeads` | src/http2.cpp:841-993 | a frame changes the table and the announced size by what its parameters or its header block say, and by nothing else |
| `Http2Table.ConnectionTable` | src/http2.cpp:766-993 | in every reachable state of a connection the header table and the announced size are what the insertions and size changes read off the input, in order, leave of the initial ones |
| `Http2Table.ConnectionEntry` | src/http2.cpp:541-993 | the input's j-th newest insertion is still in the table if and only if, at every moment since, it and everything inserted later fitted in the size then in force |
| `Http2Table.WithinAnnouncedIff` | src/http2.cpp:541-903 | the table's maximum is within the announced size at every moment of a run if and only if every size update in a block is, as section 6.3 of RFC 7541 demands |
| `Http2Table.ConnectionWithinIff` | src/http2.cpp:541-993 | after any input the maximum is within the announced size if and only if the last size change was announced or is within what was |
| `Http2Split.ParseMonotone` | src/http2.cpp:804-839 | a complete frame stays the same frame when more bytes follow |
| `Http2Split.SplitWhileAlive` | src/http2.cpp:766-802 | if the connection is alive after the first part, two reads equal one: output, streams, header table, settings and handler calls |
| `Http2Split.SplitAfterDeath` | src/http2.cpp:766-802 | after a frame has ended the connection, two reads equal one exactly when no further frame is complete |
| `Http2Split.NoSplitAfterBadPreface` | src/http2.cpp:766-802 | after a bad preface two reads never equal one |
| `Http2Split.SplitIff` | src/http2.cpp:766-802 | the exact condition under which two reads equal one, checkable on the connection after the first |
| `Http2Split.SplitShows` | src/http2.cpp:766-802 | a concrete input on which they differ |
| `Http2Split.ChunkingInvariance` | src/http2.cpp:766-802 | any chunking equals one read, as long as no piece but the last ends the connection |
| `Http2Split.LiveChunking` | src/http2.cpp:766-802 | input that leaves the connection alive when read at once is read alike in any chunking |
| `Http2Response.FrameRoundTrip` | src/http2.cpp:804-839 | a built frame is read back exactly when its payload is within the reader's limit |
| `Http2Response.DataFramesRoundTrip` | src/http2.cpp:1159-1170 | the DATA frames of a body are within the limit, concatenate to the body, and only the last ends the stream |
| `Http2Response.ResponseFraming` | src/http2.cpp:1124-1173 | when the header block fits one frame, the response is one HEADERS frame and then DATA frames within the limit that concatenate to the body, with END_STREAM on the last frame only |
| `Http2Response.OversizedHeaders` | src/http2.cpp:1124-1173 | a header block over the limit is not split, so a reader with that limit reads no frame |
| `Http2Response.ResponseHeadersSurvive` | src/http2.cpp:1124-1155 | a peer decompresses, in any table state: first ":status" with the status in decimal, then each header of the response with its name in lower case and its value, then "content-length" with the length of the body in decimal exactly if there is a body and no such header, then the server name, and nothing else |
| `Http2Response.HeadersAnnounce` | src/http2.cpp:1124-1155 | the header list of any response is that |
| `Http2Response.RequestDelivered` | src/http2.cpp:905-996 | a compressed header list sent after the preface reaches the handler as one request, the one the headers spell, and its framed response is the output |
| `Http2Requests.BuiltSpelled` | src/http2.cpp:935-981 | for every header list, the request built is the one it spells: method text and verb of the last ":method", target, path and query of ":path" split at its first question mark, each ordinary header with its last value, "Host" also from ":authority", and the body |
| `Http2Requests.SpelledUnique` | src/http2.cpp:935-981 | a header list and a body spell only one request |
| `Http2Errors.FaultAnswered` | src/http2.cpp:841-1071 | a frame is answered with GOAWAY, naming the highest stream and the error code of section 7 of RFC 7540, if and only if it has a fault: 1 for DATA on no stream, HEADERS on stream 0 or with padding beyond the payload, a frame size out of range or an increment of 0; 3 for a window over 2^31 - 1; 6 for a wrong length; 9 for a block that is not decoded; and then no handler is called |
| `Http2Errors.FaultEndsReading` | src/http2.cpp:791-799 | the GOAWAY is then the last thing sent, and what follows the frame is not looked at |
| `Http2Errors.PrefaceAnswered` | src/http2.cpp:766-790 | the first 24 bytes decide: fewer wait, other bytes than the preface of section 3.5 of RFC 7540 get GOAWAY with code 1, the preface gets the SETTINGS |
| `Http2Errors.IgnoredSilently` | src/http2.cpp:841-855 | acknowledgements and frames of other types change nothing and are answered with nothing; GOAWAY ends the connection |
| `Http2Delivery.PartStep` | src/http2.cpp:841-1060 | each frame of an orderly conversation leaves header table, every setting, every window, the highest stream, requests under way and handler calls as the conversation so far says, and is answered as it says |
| `Http2Delivery.CompletedCalled` | src/http2.cpp:935-1034 | one call for each finished stream, in order of completion, with the request that the headers and the data sent on it spell |
| `Http2Delivery.EndToEnd` | src/http2.cpp:766-1173 | any requests on fresh streams, compressed in any way, HEADERS and DATA interleaved in any way, with SETTINGS, PING and WINDOW_UPDATE between, split into reads in any way: the handler is called once for each finished stream, in order of completion, with the request that its headers and its data spell; settings, windows, streams and header table are those of the conversation; and the output is the server's SETTINGS and then the answer to each frame in turn |
| `Http2Delivery.AnswersReadBack` | src/http2.cpp:1124-1173 | a client reads those bytes back as exactly those frames, as long as the header blocks of the responses fit a frame |
| `Http2Delivery.ResponseText` | src/http2.cpp:1124-1173 | a response is one HEADERS frame and the body in DATA frames, the last frame ending the stream |
| `Http2Delivery.SizeUpdateTaken` | src/http2.cpp:669-675 | a size update of 4097 is taken although 4096 was announced |
| `Http2Connection.Connection.constructor` | src/http2.cpp:763-764 | a new connection expects the preface and has default settings |
| `Http2Connection.Connection.ProcessInput` | src/http2.cpp:766-802 | leaves the connection and output that Process gives |
| `Http2Connection.Connection.ProcessFrames` | src/http2.cpp:791-799 | the loop stops at an incomplete frame or a goaway |
| `Http2Connection.Connection.ParseFrame` | src/http2.cpp:804-839 | takes one complete frame within the limit off the buffer |
| `Http2Connection.Connection.Goaway` | src/http2.cpp:1175-1190 | marks the connection as ended and reports the last stream |
| `Http2Connection.Connection.Handle` | src/http2.cpp:841-855 | dispatches by type and leaves buffer and preface flag alone |
| `Http2Connection.Connection.Apply` | src/http2.cpp:876-898 | one parameter, checked and stored |
| `Http2Connection.Connection.OnSettings` | src/http2.cpp:857-903 | the loop over six-byte parameters, with an acknowledgement or a goaway |
| `Http2Connection.Connection.OnHeaders` | src/http2.cpp:905-933 | padding and priority are stripped and the block fragment collected |
| `Http2Connection.Connection.Finish` | src/http2.cpp:935-993 | the block is decompressed, the request that its headers spell is built and, at the end of the stream, answered |
| `Http2Connection.Connection.Answer` | src/http2.cpp:983-989 | the handler is called once and its response framed |
| `Http2Connection.Connection.CreateStream` | src/http2.cpp:1192-1205 | a stream is created once, and the last stream number never goes back |
| `Http2Connection.Connection.StripPadding` | src/http2.cpp:914-931 | the fragment without padding and priority, or a violation |
| `Http2Connection.Connection.OnData` | src/http2.cpp:998-1034 | the body grows by the payload; a finished request is answered, otherwise both windows are replenished |
| `Http2Connection.Connection.OnWindowUpdate` | src/http2.cpp:1036-1060 | a zero or malformed increment ends the connection |
| `Http2Connection.Connection.OnPing` | src/http2.cpp:1062-1071 | a ping is echoed with the acknowledgement flag |
| `Http2Connection.Connection.BuildHeadersResponse` | src/http2.cpp:1124-1173 | the header list and the body loop produce BuildResponse, whose headers and frames a peer reads as above |
| `Http1Head.OneFraming` | src/http_parser.cpp:312-393 | an accepted head frames its body one way: chunked with no length, or by at most one Content-Length |
| `Http1Split.SplitUnchunked` | src/http_parser.cpp:110-248 | without chunking, feeding in two parts leaves the same parser, request and answer as feeding both at once |
| `Http1Split.LoopResumes` | src/http_parser.cpp:173-229 | from the position it had truly reached, the chunk loop continues over a longer buffer as if it had had it from the start |
| `Http1Split.LoopAdvances` | src/http_parser.cpp:173-229 | the chunk loop only moves forward and only adds to the body |
| `Http1Split.ResumeCorrect` | src/http_parser.cpp:110-248 | after a feed that saved its position or had not moved, feeding the rest gives the answer, request and body of feeding everything at once |
| `Http1Split.StuckAtLine` | src/http_parser.cpp:178-183 | after stopping inside a later size line that does not read the same from the old position, some continuation is read differently |
| `Http1Split.StuckAtCrlf` | src/http_parser.cpp:215-219 | after stopping inside the CRLF behind chunk data, some continuation is read differently |
| `Http1Split.EarlyComplete` | src/http_parser.cpp:197-204 | after stopping behind the size line of the last chunk, the next feed completes even if nothing arrived |
| `Http1Split.EchoResumes` | src/http_parser.cpp:173-229 | where the size line reads the same from the old position, restarting there goes on as if the position had been kept |
| `Http1Split.ResumableIff` | src/http_parser.cpp:110-248 | from any parser state, feeding in two parts agrees with feeding both at once, for every continuation, if and only if the loop saved its position, had not moved, saw the whole last chunk, or stopped in a line that reads the same from where it started |
| `Http1Split.PiecesAsOne` | src/http_parser.cpp:110-248 | any number of pieces that end at saved positions is read as one |
| `Http1Chunks.SizeRead` | src/http_parser.cpp:184-196 | a size in hexadecimal digits of either case with leading zeros and an optional extension is read as its value |
| `Http1Chunks.BodyDecoded` | src/http_parser.cpp:173-229 | any list of nonempty chunks is decoded in one pass to the concatenation of its data |
| `Http1Chunks.CutEnds` | src/http_parser.cpp:173-229 | how the loop ends for a body cut after any number of bytes |
| `Http1Chunks.RequestDecoded` | src/http_parser.cpp:110-248 | a chunked request fed at once is complete and its body is the data of its chunks |
| `Http1Chunks.RequestDecodedInPieces` | src/http_parser.cpp:110-248 | the same when it is fed in pieces that end inside the head, after a size line, strictly inside chunk data or after the CRLF of a chunk |
| `Http1Chunks.CutResumableIff` | src/http_parser.cpp:173-229 | a cut of a well-formed body can be resumed, whatever follows, exactly at those points, inside the first size line, or at the end |
| `Http1Render.HeadRoundTrip` | src/http_parser.cpp:125-169 | a written head is read back as its request line and its fields, taken in order |
| `Http1Render.NoFieldsRefused` | src/http_parser.cpp:128-132 | a request line with no field after it is refused as an invalid request line |
| `Http1Heads.RequestLineIff` | src/http_parser.cpp:267-310 | a request line is accepted if and only if it has no null byte, two spaces that cut it into three, and HTTP/1.0 or HTTP/1.1 behind the second; and then method text, verb and target are the parts |
| `Http1Heads.LineIff` | src/http_parser.cpp:312-376 | a header line is accepted if and only if it has no null byte, a colon, no blank in the name, and is not a second or unreadable length; and then it stores the stripped value under the name and does the length and encoding bookkeeping |
| `Http1Heads.LinesIff` | src/http_parser.cpp:139-157 | any list of lines is accepted if and only if each is good and at most one gives a length; and then each name has the value of its last line |
| `Http1Heads.HeadIff` | src/http_parser.cpp:125-169 | every head of at least two lines is accepted if and only if its request line and its header lines are good, and then method, verb, path and query split at the first question mark, version, fields and framing are what the lines spell |
| `Http1Answers.HeadRefused` | src/http_parser.cpp:125-376 | a refused head is refused for its request line, or else for the first header line with which the lines are no longer good, with the complaint that line deserves |
| `Http1Answers.HeadAwaited` | src/http_parser.cpp:113-124 | without an empty line the parser waits up to 16384 bytes and fails beyond them |
| `Http1Answers.FeedIff` | src/http_parser.cpp:110-248 | on every head of at least two lines and whatever follows it: it fails with its complaint, or the request is what the lines spell and, unless chunked, is complete if and only if the length it gives is there, with exactly those bytes as body; a chunked body can only fail for a chunk size |
| `Http1Render.FieldsStored` | src/http_parser.cpp:312-376 | accepted fields with distinct names are all stored, and a chunked transfer encoding is noticed |
| `Http1Render.HeadEnds` | src/http_parser.cpp:113-126 | the end of a written head is found where it is |
| `Http1Render.ChunkedRequestReadBack` | src/http_parser.cpp:110-248 | a written chunked request, fed in pieces with good ends, comes back complete: method, verb, path, query, version, every field, and the chunk data as body |
| `Http1Render.SizedRequestReadBack` | src/http_parser.cpp:110-248 | a written request whose Content-Length is the length of the body in decimal comes back complete: method, verb, path, query, version, every field and exactly that body, whatever follows |
| `Http1Parser.HttpParser.constructor` | src/http_parser.cpp:250-265 | a new parser is in the reset state |
| `Http1Parser.HttpParser.Reset` | src/http_parser.cpp:250-265 | no field keeps anything of the last request |
| `Http1Parser.HttpParser.Feed` | src/http_parser.cpp:110-248 | leaves the parser state and answer that Feed gives |
| `Http1Parser.HttpParser.ReadHead` | src/http_parser.cpp:125-169 | request line, header lines, validation and path, or the error met first |
| `Http1Parser.HttpParser.HeaderLines` | src/http_parser.cpp:139-157 | the loop over lines, skipping empty ones |
| `Http1Parser.HttpParser.ParseRequestLine` | src/http_parser.cpp:267-310 | method, target and a supported version, or the error met first |
| `Http1Parser.HttpParser.ParseHeaderLine` | src/http_parser.cpp:312-376 | name without blanks, trimmed value, and the length and encoding bookkeeping |
| `Http1Parser.HttpParser.LengthHeader` | src/http_parser.cpp:349-362 | a second or unreadable Content-Length is refused |
| `Http1Parser.HttpParser.ValidateHeaders` | src/http_parser.cpp:378-393 | chunked encoding overrides a length |
| `Http1Parser.HttpParser.ParseUri` | src/http_parser.cpp:395-403 | path and query split at the first question mark |
| `Http1Parser.HttpParser.ReadBody` | src/http_parser.cpp:172-245 | chunked or by length |
| `Http1Parser.HttpParser.ReadChunks` | src/http_parser.cpp:173-229 | the loop refines Loop, saving its position only at the end of input |
| `Http1Parser.HttpParser.ReadSize` | src/http_parser.cpp:178-207 | one size line: error, last chunk, or the number of bytes to read |
| `Http1Parser.HttpParser.ReadData` | src/http_parser.cpp:208-223 | data at hand goes to the body; the CRLF is skipped once the chunk is whole |
| `JsonGrammar.StringParsed` | src/jwt_validator.cpp:78-140 | every string text in the grammar of section 7 of RFC 8259 is read to its closing quote: a one-letter escape as the character of section 7, four hexadecimal digits as the UTF-8 of their number, each escape by itself |
| `JsonGrammar.NumberSkipped` | src/jwt_validator.cpp:184-198 | every number text is skipped exactly |
| `JsonGrammar.ValueSkipped` | src/jwt_validator.cpp:154-183 | counting one kind of bracket, a whole value of any depth is passed over with the depth unchanged |
| `JsonGrammar.ValueTextSkipped` | src/jwt_validator.cpp:143-207 | for every value tree in any concrete spelling, skipping stops exactly behind the value |
| `JsonGrammar.MembersFound` | src/jwt_validator.cpp:228-268 | the member loop finds the first member whose key reads as the given one, however often the key recurs inside nested values or strings |
| `JsonGrammar.GetStringCorrect` | src/jwt_validator.cpp:220-269 | looking up a key in any object text gives the first top-level member whose key reads as it: its reading if a string, else the raw text, and nothing if absent |
| `JsonReader.ParseJsonString` | src/jwt_validator.cpp:78-140 | reads and unescapes a string and stops behind its closing quote |
| `JsonReader.ReadEscape` | src/jwt_validator.cpp:91-131 | one escape, as the bytes it stands for |
| `JsonReader.HexDigits` | src/jwt_validator.cpp:107-115 | four hexadecimal digits |
| `JsonReader.SkipWs` | src/jwt_validator.cpp:210-213 | stops at the first byte that is not whitespace |
| `JsonReader.SkipRun` | src/jwt_validator.cpp:188-196 | stops behind the digits |
| `JsonReader.SkipBrackets` | src/jwt_validator.cpp:154-183 | counts one kind of bracket outside strings |
| `JsonReader.SkipJsonNumber` | src/jwt_validator.cpp:184-198 | sign, digits, fraction and exponent |
| `JsonReader.SkipJsonValue` | src/jwt_validator.cpp:143-207 | any value |
| `JsonReader.ReadClaim` | src/jwt_validator.cpp:244-255 | the value of the member that was found |
| `JsonReader.JsonGetString` | src/jwt_validator.cpp:220-269 | the member loop computes GetString |
| `JsonWriter.WrittenRead` | src/jwt_validator.cpp:78-140 | any byte string, written with the escapes of section 7 of RFC 8259, is read back exactly |
| `JsonWriter.WrittenFound` | src/jwt_validator.cpp:220-269 | any list of names and string values, written as an object: looking up a name gives the first value written for it, and nothing if there is none |
| `JsonAccept.StringReadIff` | src/jwt_validator.cpp:78-140 | on any bytes: a string is read, as this value and with this rest, if and only if a quoted string of section 7 of RFC 8259 that reads so stands there |
| `JsonAccept.ValueSkippedIff` | src/jwt_validator.cpp:143-207 | on any bytes: a value is skipped up to this rest if and only if whitespace stands there and then a quoted string, brackets of one kind that balance outside strings, a number as far as it goes, or one of three words |
| `JsonAccept.LookupIff` | src/jwt_validator.cpp:220-269 | on any bytes: a lookup gives this claim if and only if the text is an opening brace, members of other names each with a value and a comma, and a member of that name with this string or this text as its value, with whitespace between |
| `JsonEscapes.EscapeValidIff` | src/jwt_validator.cpp:117-127 | an escape is written out as valid UTF-8 exactly when it is not half of a surrogate pair |
| `JsonEscapes.PairDenotes` | src/jwt_validator.cpp:117-127 | every character outside the basic plane is denoted by the pair of escapes that section 7 of RFC 8259 gives for it |
| `JsonEscapes.StringDenotedIff` | src/jwt_validator.cpp:78-140 | a quoted string is read as what section 7 of RFC 8259 says it denotes if and only if no two adjacent escapes form a surrogate pair |
| `JsonEscapes.PairMisread` | src/jwt_validator.cpp:117-127 | the escapes of U+1F600 are read as six bytes where the text denotes four |
| `JsonEscapes.NameReadIff` | src/jwt_validator.cpp:238-244 | a text is read as a given name in valid UTF-8 if and only if it denotes that name and has no pair |
| `JsonEscapes.LookupPassesPairs` | src/jwt_validator.cpp:220-269 | in any object text the lookup gives the first member that denotes the name with no pair in its key, so it passes over keys written with one |
| `JsonEscapes.LookupDenotedIff` | src/jwt_validator.cpp:220-269 | a name that occurs at most once is looked up as section 7 of RFC 8259 means it if and only if its key and its value have no pair |
| `CacheInvariants.EvictFacts` | src/cache.cpp:103-108 | eviction stops as soon as one more entry of the new size fits both limits, or with nothing left |
| `CacheInvariants.StepWithin` | src/cache.cpp:13-138 | each operation keeps one entry per key, the entry limit, and the memory limit except for a single entry |
| `CacheInvariants.RunWithin` | src/cache.cpp:13-138 | the same in every run from an empty cache |
| `CacheInvariants.RunGenuine` | src/cache.cpp:13-138 | in every run each entry has the content of the last put of its key that stored, not invalidated since |
| `CacheInvariants.AnswerGenuine` | src/cache.cpp:13-117 | any response returned is the one last stored for that key, inside its stale window |
| `CacheAges.PutThenGet` | src/cache.cpp:13-117 | a storing put at time t and then a get at any time: the response, if and only if the time is before t plus the lifetime or before that plus the stale window; the lifetime is s-maxage unless negative, else max-age unless negative, else the given one, with 0 standing for the default |
| `CacheAges.RunMade` | src/cache.cpp:13-138 | in every run each entry is what the last put of its key that stored and the gets since have made it: response, times, size, hits and whether a revalidation was started |
| `CacheAges.AnswerStored` | src/cache.cpp:13-138 | in every run a hit comes from a put of that key that stored and was not undone since |
| `CacheAges.AnswerIff` | src/cache.cpp:13-138 | in every run a get answers, with the response of the last put of the key that stored, if and only if its entry is still held and the time is before that put plus its lifetime or before that plus the stale window |
| `CacheAges.RevalidatesIff` | src/cache.cpp:36-54 | in every run a get starts a revalidation if and only if it answers, is past the lifetime, there is a callback, and no earlier get since the put started one |
| `CacheAges.EvictKeepsIff` | src/cache.cpp:101-108 | eviction keeps an entry if and only if it and everything used more recently leave room for the new one under both limits |
| `CacheAges.RunByUse` | src/cache.cpp:13-138 | in every run the list is in order of last use, most recent first |
| `CacheInclusion.StepIncluded` | src/cache.cpp:13-138 | the same operation keeps the smaller cache's list a subsequence of the larger one's with equal entries |
| `CacheInclusion.RunIncluded` | src/cache.cpp:13-138 | after any common trace with no binding memory limit the smaller list is a subsequence of the larger |
| `CacheInclusion.LargerNeverWorse` | src/cache.cpp:13-138 | so a hit in the smaller cache is the same hit in the larger |
| `CacheMemory.InclusionIff` | src/cache.cpp:13-138 | two enabled caches that allow n and m >= n entries of at least some size under the same memory limit keep the smaller's list in the larger's in every trace, and the larger never misses where the smaller hits, if and only if n is 1, n is m, or n + 1 entries of that size exceed the limit |
| `CacheMemory.MemoryBreaksInclusion` | src/cache.cpp:101-108 | otherwise a trace of puts of at least that size exists after which the smaller cache hits and the larger misses |
| `CacheStore.HttpCache.constructor` | src/cache.cpp:9-11 | an empty cache |
| `CacheStore.HttpCache.Get` | src/cache.cpp:13-65 | the list, the answer and whether a revalidation starts are as specified, and index, list and byte counter still agree |
| `CacheStore.HttpCache.Put` | src/cache.cpp:67-117 | the list is that of AfterPut, with the lifetimes proved of it, and index, list and byte counter still agree |
| `CacheStore.HttpCache.MakeRoom` | src/cache.cpp:103-108 | the loop on index size and byte counter evicts exactly as specified |
| `CacheStore.HttpCache.EvictLru` | src/cache.cpp:233-242 | drops the last node from list, index and counter |
| `CacheStore.HttpCache.MoveToFront` | src/cache.cpp:33-34 | splicing a node keeps the index pointing at it |
| `CacheStore.HttpCache.PushFront` | src/cache.cpp:110-113 | a new node in front, indexed and counted |
| `CacheStore.HttpCache.Erase` | src/cache.cpp:56-58 | a node leaves list, index and counter; the subtraction does not underflow |
| `CacheStore.HttpCache.Invalidate` | src/cache.cpp:119-129 | only the key's entry goes |
| `CacheStore.HttpCache.Clear` | src/cache.cpp:131-138 | nothing is left |
| `Arena.AlignUpCorrect` | include/arena_allocator.hpp:49-50 | the 64-bit mask expression rounds up to the next multiple of a power of two |
| `Arena.AllocateSafe` | include/arena_allocator.hpp:47-63 | an allocation is aligned, inside the current block, and overlaps nothing that is live |
| `Arena.ResetSafe` | include/arena_allocator.hpp:87-100 | reset leaves exactly the first block, as new |
| `Arena.LiveNeverOverlap` | include/arena_allocator.hpp:47-125 | in every run the allocations since the last reset lie inside the blocks and no two overlap |
| `Arena.RequestsServed` | include/arena_allocator.hpp:47-63 | in every run each request since the last reset got memory of its size and alignment |
| `Arena.PlaceTight` | include/arena_allocator.hpp:47-63 | a request is placed at the next multiple of its alignment, and a block, of the default size or as large as needed, is taken if and only if it does not fit there |
| `Arena.UsedExact` | include/arena_allocator.hpp:104-115 | while all blocks have the default size the estimate is what was taken less what is free in the last one |
| `Arena.UsedWithinTotal` | include/arena_allocator.hpp:104-115 | the estimate of used bytes never exceeds what was taken from malloc |
| `ArenaAllocator.Allocator.constructor` | include/arena_allocator.hpp:21-24 | one block of the default size |
| `ArenaAllocator.Allocator.AllocateBlock` | include/arena_allocator.hpp:118-125 | a new block becomes the current one and is added to the total |
| `ArenaAllocator.Allocator.Allocate` | include/arena_allocator.hpp:47-63 | the result is aligned and apart from every live allocation, which stay held |
| `ArenaAllocator.Allocator.Reset` | include/arena_allocator.hpp:87-100 | no allocation is live and the first block is current |
| `ArenaAllocator.Allocator.Used` | include/arena_allocator.hpp:104-115 | the loop computes the estimate, within the total |
| `Slab.ChainUnique` | include/arena_allocator.hpp:194-213 | the links determine the free chain: it is the only list of nodes from the head to null, so it has no cycle |
| `Slab.PartitionGrow` | include/arena_allocator.hpp:200-213 | a new slab keeps free and live nodes a partition of the capacity |
| `Slab.SlabAllocator.Capacity` | include/arena_allocator.hpp:190-191 | free length plus allocated count equals the capacity |
| `Slab.SlabAllocator.constructor` | include/arena_allocator.hpp:140-142 | one slab, all free |
| `Slab.SlabAllocator.Grow` | include/arena_allocator.hpp:200-213 | the new slab is chained in front of the free list, and nothing live changes |
| `Slab.SlabAllocator.Chain` | include/arena_allocator.hpp:207-211 | the loop links each node to the next and the last to the old head |
| `Slab.SlabAllocator.Allocate` | include/arena_allocator.hpp:155-164 | returns a slot that was not live: the head of the free list, or a fresh one when there was none |
| `Slab.SlabAllocator.Deallocate` | include/arena_allocator.hpp:167-174 | the slot goes to the front of the free list, so the next allocation returns it |
| `Slab.SlabAllocator.Store` | include/arena_allocator.hpp:194-197 | writing into a live slot leaves the free list intact |
| `Admission.SumIsOpen` | src/ddos_guard.cpp:32-86 | the per-address counters add up to the number of unreleased connections |
| `Admission.StepKeeps` | src/ddos_guard.cpp:24-107 | each step of any thread keeps total, per-address counters and unreleased connections in agreement and the bound |
| `Admission.AdmissionSafe` | src/ddos_guard.cpp:24-107 | in every interleaving the total equals the unreleased connections and the sum of the per-address counts, and with one accepting thread never exceeds the limit |
| `Admission.PerIpLimit` | src/ddos_guard.cpp:37-41 | no address exceeds the per-address limit as long as that limit is not lowered |
| `AdmissionEntries.TrackedIsOpen` | src/ddos_guard.cpp:24-107 | in every interleaving in which the per-address limit stays at least one, the addresses with an entry are exactly those with an unreleased connection, and cleanup changes nothing |
| `AdmissionEntries.CleanupKeepsIff` | src/ddos_guard.cpp:94-107 | in every reachable state, whatever the limit, cleanup keeps an entry if and only if the address has an unreleased connection or asked in the last 300 seconds |
| `AdmissionEntries.ReleaseErasesIff` | src/ddos_guard.cpp:76-86 | in every reachable state a release takes one connection off the address, erases the entry exactly with the last one, and leaves every other address alone |
| `Admission.BoundAttained` | src/ddos_guard.cpp:24-54 | with k accepting threads some interleaving reaches the limit plus k - 1 |
| `AdmissionGuard.DDoSGuard.constructor` | src/ddos_guard.cpp:8-15 | no connections |
| `AdmissionGuard.DDoSGuard.Admit` | src/ddos_guard.cpp:32-53 | under the lock: the entry is touched, and counted unless the address is at its limit |
| `AdmissionGuard.DDoSGuard.AllowConnection` | src/ddos_guard.cpp:24-54 | run alone: allowed exactly under both limits, counting the address and the total and nothing else |
| `AdmissionGuard.DDoSGuard.ReleaseConnection` | src/ddos_guard.cpp:76-86 | the address and the total go down by one, and an empty entry is erased |
| `AdmissionGuard.DDoSGuard.Cleanup` | src/ddos_guard.cpp:94-107 | the erasing loop removes exactly the idle empty entries, so no count changes |
| `HashRing.LowerBound` | src/load_balancer.cpp:188-193 | everything before the result is below the hash, and the result is not |
| `HashRing.SelectNearest` | src/load_balancer.cpp:182-207 | the choice is a healthy node nearest clockwise, and null exactly when no node is healthy |
| `HashRing.NearestUnique` | src/load_balancer.cpp:164-177 | where healthy nodes have distinct hashes that node is unique |
| `HashRing.OnlyOwnKeysMove` | src/load_balancer.cpp:182-207 | a backend going down moves only the keys it served; coming back it takes keys only for itself |
| `HashRing.SelectBySet` | src/load_balancer.cpp:182-207 | where healthy nodes have distinct hashes the choice depends only on which healthy nodes exist |
| `HashRing.SortRing` | src/load_balancer.cpp:173-176 | the ring is sorted and holds the same nodes |
| `HashRing.RebuildIsMarking` | src/load_balancer.cpp:160-207 | rebuilding the ring without a backend maps every key as marking it unhealthy does, if no two remaining backends share a hash |
| `HashRing.TiesMatter` | src/load_balancer.cpp:160-207 | where two remaining backends share a hash, the sort may leave a rebuilt ring that hands the key of that hash to the other one |
| `HashRing.RebuildIsMarkingIff` | src/load_balancer.cpp:160-207 | for all arrangements the two sorts may leave, all keys and all healthy sets, rebuilding without a backend and marking it unhealthy agree if and only if no two remaining backends share a virtual node hash |
| `Balancing.SelectionsVisit` | src/load_balancer.cpp:43-56 | successive round-robin picks are exactly the healthy backends in ticket order |
| `Balancing.SpinFinds` | src/load_balancer.cpp:48-55 | a selection fails only when no backend is healthy |
| `Balancing.RoundRobinFair` | src/load_balancer.cpp:43-56 | over any number of selections every healthy backend is picked equally often, up to one |
| `Balancing.LeastCounts` | src/load_balancer.cpp:73-90 | any number of least-connections selections adds as many connections and changes no health |
| `Balancing.LeastStaysBalanced` | src/load_balancer.cpp:73-90 | any number of least-connections selections keeps balanced loads within one of each other |
| `LoadBalancers.HashVectors` | src/load_balancer.cpp:217-225 | the hash has the published FNV-1a values of the empty string and of "a" |
| `LoadBalancers.LabelsDiffer` | src/load_balancer.cpp:164-171 | no two virtual nodes are placed by the same label, whatever the addresses contain |
| `LoadBalancers.HashLoop` | src/load_balancer.cpp:217-225 | the FNV-1a loop on 64 bits |
| `LoadBalancers.BinarySearch` | src/load_balancer.cpp:188-193 | finds the lower bound in a sorted ring |
| `LoadBalancers.ConsistentHashLB.constructor` | src/load_balancer.cpp:160-180 | the ring is a sorted arrangement of all virtual nodes |
| `LoadBalancers.ConsistentHashLB.Select` | src/load_balancer.cpp:182-207 | returns the backend that Select gives and counts one connection on it and on no other |
| `LoadBalancers.ConsistentHashLB.Scan` | src/load_balancer.cpp:195-204 | one turn round the ring finds the first healthy backend or none |
| `LoadBalancers.RoundRobinLB.constructor` | src/load_balancer.cpp:38-41 | starts at ticket zero |
| `LoadBalancers.RoundRobinLB.Select` | src/load_balancer.cpp:43-56 | takes tickets until a healthy backend is met and counts one connection on it |
| `LoadBalancers.LeastConnectionsLB.constructor` | src/load_balancer.cpp:68-71 | keeps the backends in order |
| `LoadBalancers.LeastConnectionsLB.Select` | src/load_balancer.cpp:73-90 | returns the first least loaded healthy backend, or null when there is none below the largest int |
| `TokenBucket.AllowLevel` | src/anti_bot.cpp:162-189 | a request is allowed exactly when a token is there, and takes one |
| `TokenBucket.RefinesIdeal` | src/anti_bot.cpp:155-189 | the answers of one key are those of an ideal capped bucket, whatever happens to other keys |
| `TokenBucket.RateBound` | src/anti_bot.cpp:155-189 | from any reachable state, requests allowed to a key in an interval are at most burst + rate * length |
| `TokenBucket.RateBoundInRuns` | src/anti_bot.cpp:155-233 | the same over every interval of every run from an empty limiter |
| `TokenBucket.RateBoundIff` | src/anti_bot.cpp:155-189 | without cleanup the bound holds in all runs exactly for burst at least one and rate not negative |
| `TokenBucket.CleanupTransparent` | src/anti_bot.cpp:220-233 | cleanup anywhere changes no answer if an idle bucket is full before it can be erased |
| `TokenBucketCleanup.CleanupShows` | src/anti_bot.cpp:220-233 | otherwise a run exists in which a cleanup changes an answer |
| `TokenBucketCleanup.CleanupTransparentIff` | src/anti_bot.cpp:220-233 | cleanup is invisible in all runs if and only if rate * (window + 1) reaches the burst |
| `TokenBucketCleanup.RateBoundCleanupIff` | src/anti_bot.cpp:155-233 | with cleanup anywhere the bound burst + rate * length holds in all runs if and only if it does without cleanup and rate * (window + 1) reaches the burst |
| `TokenBucketRates.RateBoundAnyRates` | src/anti_bot.cpp:155-233 | in every run, with any changes of rate in it and harmless cleanups, the requests allowed to a key in any interval are at most burst + rate * length, for any rate and burst that its own never exceed |
| `TokenBucketRates.SetRateLevel` | src/anti_bot.cpp:201-218 | a new rate and burst count from the last refill on, only for a key that has a bucket, and change no other |
| `TokenBucketLimiter.Limiter.constructor` | src/anti_bot.cpp:152-153 | no buckets |
| `TokenBucketLimiter.Limiter.Allow` | src/anti_bot.cpp:162-189 | answer, bucket map and counters as specified |
| `TokenBucketLimiter.Limiter.Check` | src/anti_bot.cpp:191-199 | answers what Allow would answer at that instant and changes nothing |
| `TokenBucketLimiter.Limiter.Remaining` | src/anti_bot.cpp:201-209 | the level that decides the next answer |
| `TokenBucketLimiter.Limiter.SetRate` | src/anti_bot.cpp:211-218 | only an existing bucket of that key changes |
| `TokenBucketLimiter.Limiter.Cleanup` | src/anti_bot.cpp:220-233 | the erasing loop removes exactly the expired buckets |
| `Utf8.DecodeEncode` | src/unicode.cpp:7-45 | decoding the encoding of section 3 of RFC 3629 gives the code point back, not overlong |
| `Utf8.EncodeDecode` | src/unicode.cpp:7-54 | a unit that is not overlong is the encoding of its code point |
| `Utf8.ValidIff` | src/unicode.cpp:93-112 | validation accepts exactly the concatenations of encodings of Unicode scalar values |
| `Utf8.NormalizeMeaning` | src/unicode.cpp:114-162 | the output spells exactly the harmless code points of the input, in order, each in shortest form |
| `Utf8.IdentityIff` | src/unicode.cpp:114-162 | normalisation changes nothing exactly on input whose units all decode, in shortest form, to harmless code points |
| `Utf8.NormalizeIdempotent` | src/unicode.cpp:114-162 | normalising twice is normalising once |
| `Utf8.SuspiciousIff` | src/unicode.cpp:164-208 | the detector fires exactly on input that is not clean or spells a fullwidth special character |
| `Utf8.AcceptedUnchanged` | src/unicode.cpp:114-226 | normalisation leaves what the detector accepts unchanged, and its output has no overlong form |
| `Utf8.DangerousIff` | src/unicode.cpp:56-91 | the code points dropped are exactly null, the zero-width characters, the bidirectional controls, the surrogates, the noncharacters and the byte order mark, by a list of ranges |
| `Utf8.FullwidthIff` | src/unicode.cpp:185-199 | the fullwidth forms looked for are those of eight special characters |
| `Utf8.OverlongIff` | src/unicode.cpp:210-226 | an overlong form is found if and only if C0 or C1, E0 and less than A0, or F0 and less than 90, with their continuation bytes, stand anywhere |
| `Utf8.NormalizedValidIff` | src/unicode.cpp:93-208 | normalised text is valid if and only if no harmless code point of the input is beyond U+10FFFF, and so is text the detector accepts |
| `Utf8.BeyondUnicode` | src/unicode.cpp:93-208 | F4 90 80 80 passes the detector and normalisation unchanged and is not valid |
| `Utf8Scanner.DecodeCodepoint` | src/unicode.cpp:7-45 | the continuation loop computes Decode |
| `Utf8Scanner.IsValidUtf8` | src/unicode.cpp:93-112 | the scan decides validity |
| `Utf8Scanner.NormalizeUtf8` | src/unicode.cpp:114-162 | the scan builds the normal form |
| `Utf8Scanner.DetectMultibyteBypass` | src/unicode.cpp:164-208 | the scan decides suspicion |
| `Utf8Scanner.HasOverlongEncoding` | src/unicode.cpp:210-226 | the scan finds an overlong unit if there is one |

## Left out

- Sockets, event loops, TLS, sendfile, seccomp, the server and worker loops, HTTP/3, compression, ACME, WASM, the WAF, gRPC, FastCGI, tracing, configuration and metrics: input and output, wrappers over libraries, or easy beside the above.
- JWT signatures, base64 and json_get_number: library semantics that are not part of this model.
- HTTP/2 CONTINUATION, priorities, stream limits and stream closing: the code does not look at them. Windows are counted, as in the code, and bind nothing.
- Http2Delivery.EndToEnd: header blocks come in one unpadded HEADERS frame each and DATA is not padded; the source has no CONTINUATION and keeps the padding of DATA.
- Http2Connection.Connection.OnWindowUpdate: the window counters are unbounded integers, not 32-bit words.
- Http2Connection.Connection.BuildHeadersResponse: the order of a response's headers is that of a sequence, where the source iterates over a hash map.
- Http2Connection.Connection.Finish: a request's headers are a map, as in the source; the order in which they were sent is not kept.
- WebSocketConnection.WsConnection.Handle: an unset callback is one that does nothing; the upgrade handshake is not modelled.
- JsonEscapes.LookupDenotedIff: for names that occur once; among repeated names RFC 8259 prefers none.
- CacheStore.HttpCache.Get: the revalidation callback is reported, not called, and the statistics counters are not kept.
- CacheStore.HttpCache.Put: the Cache-Control header arrives parsed and the size of the entry arrives as a number; parse_cache_control, build_key and is_cacheable are not modelled.
- CacheInclusion.RunIncluded: supposes of the run that the memory limit evicts nothing in either cache; CacheMemory.InclusionIff is the exact condition on the configurations.
- ArenaAllocator.Allocator.Allocate: malloc does not fail, sizes do not wrap around the address space, and moved-from arenas are not modelled.
- Slab.SlabAllocator.Deallocate: only live slots are freed, as the source demands; the lock is not modelled.
- AdmissionGuard.DDoSGuard.Admit: the token fields of an entry and allow_request are not modelled.
- Admission.AdmissionSafe: for several accepting threads the unlocked read returns a value the counter has held since its last increment; a weaker memory order could return older ones. With one accepting thread that is what the language guarantees.
- Admission.PerIpLimit: says nothing about connections admitted before the limit was lowered.
- LoadBalancers.RoundRobinLB.Select: one call is not interleaved with others, and the ticket counter does not wrap.
- LoadBalancers.ConsistentHashLB.Select: one call is not interleaved with health changes. The EWMA balancer, report_result and the health checker are not modelled.
- HashRing.SortRing: breaks ties by input order, which std::sort does not promise; the theorems about rebuilt rings hold for any arrangement.
- TokenBucketLimiter.Limiter.Allow: real arithmetic, no rounding.
- Utf8Scanner.DecodeCodepoint: lengths fit an int. The Shift-JIS detector and percent decoding are not modelled.
- Http1Parser.HttpParser.Feed: error texts are an enumeration; trailers after the last chunk are not read by the source.
- Moving and copying of the source's objects, allocation failure, and 64-bit counters that wrap.
