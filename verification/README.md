# KFC firmware: models and proofs

A Dafny model of the stateful algorithms of the KFC firmware, with proofs of what they are for. Code that changes
things step by step is modelled by classes, arrays and loops, each method proved against a function on values; what
the code promises is then proved about those functions, for every input and for whole runs. `dafny verify
dfyconfig.toml` checks everything.

The main results:

* **HTTP responses** (`ChunkedCoding`, `ResponseEngine`, `Listings`, `JsonStrings`, `ListingProducers`,
  `ListingStream`, `SpeedTest`, `PluginStatus`). The acknowledgement-driven engine builds head, chunk header, data and
  trailer in one allocation. For every schedule of client windows, a decoder written from section 4.1 of RFC 7230 gets
  exactly the JSON document of the directory listing or the WiFi scan, however it was cut into buffers, and takes no
  part of it for the whole; for windows above a size known before the run, delivery follows from their sizes alone, up
  to the end of the response. In every run a response ends with an acknowledgement if and only if its content is out
  and, with a content length, all bytes on the wire have been acknowledged. The client of a scan can tell whether it
  is running, found nothing, or found networks. The conditions are exact: nothing handed to the client is lost if and
  only if the pending head fits, the window is inside the allocation if and only if the pending head fits, the chunk
  header fits if and only if the answer has at most 0xffff bytes, a listing stalls if and only if its next text does
  not fit, a network name is read back if and only if it has no backslash and no control character. A response with a
  content length puts exactly as many bytes behind the head as announced.
* **CRC-16** (`ShiftRegisters`, `Crc16`). Every error burst of at most 16 bits and every odd number of errors is
  detected in messages of any length; the recursive and the looped form agree; the checksum is the remainder of a long
  division of polynomials over the message with its first bits complemented.
* **Containers.** `ChunkedLists`: a linked list of chunks holds what was appended, at locations that never change, and
  copies share nothing; telling links from cursors by address works if and only if no chunk starts right behind the
  storage of the one before it. `CircularBuffers`: a ring of counters and slots is a bounded queue; its move
  assignment is right if and only if the buffer is empty, full, or starts in slot 0. `ByteBuffers`: a growing buffer
  and the stream over it are a byte sequence and a FIFO queue, with running out of memory as a case.
* **Codecs.** `IntelHex`: delivery in pieces of any size, for broken files too, and a round trip with an encoder of
  the Intel Hexadecimal Object File Format; behind good records, what each kind of bad record, a foreign character or
  a missing end leads to. `ActionBlobs` and `SwitchBlobs`: what is stored comes back if and only if every length fits
  its field (for switches in any number, if and only if only empty headers are cut off). `NumberText`: printed numbers
  read back if and only if the base is at most 16.
* **Time and protocols.** `Timers`: timers over counters that wrap, compared with real time; a `MillisTimer` is never
  early, and is never due at all if and only if its deadline is the counter value 0xffffffff. `AdcReader`: sampling
  ends within a bound for all 10-bit readings if and only if at most 24 values are wanted, and for some if and only if
  at most 25 are. `PublishThrottle`: one timer per element, messages spaced, the last value never lost; a reset of the
  interface keeps them spaced if and only if no timer is outstanding. `WebSocketClients`: data only from verified
  clients, an end between two starts, for every event exactly which messages and callbacks it brings; an end comes
  without a start if and only if a client leaves while no authenticated one is connected. `SerialInput`: commands
  depend on the byte stream alone. `SerialHandlers`: handlers that call back, with any state of their own, are at most
  two levels deep.

Where the code does not do what its name or comment says, the model follows the code: `chunked_list::empty` is true
for lists with elements, `onEnd` can be called without `onStart`, a failed `readBytes` returns a positive error code
from the second call on, non-chunked content ends when the window closes, a list assigned or moved to itself is
emptied.

`Util` holds shared vocabulary, `Configuration` the binary store the plugins use.

## Model

| member | source | states |
|---|---|---|
| `ChunkedCoding.HexRoundTrip` | src/async_web_response.cpp:121 | the chunk size that is printed, read as a hexadecimal number of section 4.1 of RFC 7230, is the size, for every size |
| `ChunkedCoding.HexLength` | src/async_web_response.cpp:121 | a printed size has at most 1, 2, 3, 4 digits exactly up to 0xf, 0xff, 0xfff, 0xffff |
| `ChunkedCoding.HexIsPrinted` | src/async_web_response.cpp:121 | only the digits 0 to 9 and a to f are printed, and no zero in front |
| `ChunkedCoding.NextChunkInvertsChunk` | src/async_web_response.cpp:117-127 | a decoder written from the grammar reads one framed chunk as its data and leaves what follows it |
| `ChunkedCoding.DechunkInvertsChunks` | src/async_web_response.cpp:117-146 | any non-empty chunks and the last chunk decode to the concatenation of their data, whatever follows |
| `ChunkedCoding.DechunkInvertsFills` | src/async_web_response.cpp:117-146 | the same for a list of answers of which exactly the last is empty; nothing is left over |
| `ChunkedCoding.DechunkStable` | src/async_web_response.cpp:117-146 | more input never changes what a complete message decoded to |
| `ChunkedCoding.DechunkRejectsTruncation` | src/async_web_response.cpp:117-146 | no proper prefix of a complete chunked body decodes |
| `ResponseEngine.OutputFitsExactlyWithHead` | src/async_web_response.cpp:95-146 | what an acknowledgement with an answer hands to the client fits its space, so that nothing of it is lost, if and only if the pending head does, for every framing and answer |
| `ResponseEngine.ChunkWindowInBounds` | src/async_web_response.cpp:97-118 | with chunks, the window given to the producer ends inside the allocation, in 32-bit size_t arithmetic, if and only if the pending head fits the space |
| `ResponseEngine.ChunkHeaderFits` | src/async_web_response.cpp:117-123 | the chunk header has 3 to 6 bytes, six reserved ones being enough if and only if the answer has at most 0xffff bytes |
| `ResponseEngine.AdvanceKeepsAccounted` | src/async_web_response.cpp:73-157 | every acknowledgement keeps: wire and pending head are the head and the coded answers so far; the counters count them; no answer is empty but the last, which is in WAIT_ACK and END |
| `ResponseEngine.WireIsHeadThenContent` | src/async_web_response.cpp:73-157 | after every run the wire is a prefix of the head, sent once, and the coded answers in order; with any content out all of the head is; `_sentLength` and `_writtenLength` are the true lengths |
| `ResponseEngine.CompleteBodyDecodes` | src/async_web_response.cpp:117-146 | in WAIT_ACK and END the body on the wire decodes to the concatenated answers with nothing behind the last chunk |
| `ResponseEngine.IncompleteBodyIsRejected` | src/async_web_response.cpp:117-146 | before that no part of the body can be taken for a complete one |
| `ResponseEngine.ChunkedBodyDecodes` | src/async_web_response.cpp:73-157 | both, for every run of acknowledgements with any windows and any TRY_AGAIN answers |
| `ResponseEngine.IdentityEndsOnClosedWindow` | src/async_web_response.cpp:129-145 | without chunking content ends at an acknowledgement if and only if nothing remains or the window behind the head is closed, even with content remaining |
| `ResponseEngine.NeverMoreThanAnnounced` | src/async_web_response.cpp:95-146 | with a content length, in every run no more content is sent than announced, whatever the producer has left |
| `ResponseEngine.HeadersExactly` | src/async_web_response.cpp:81-93 | a run is still in HEADERS if and only if all space there has been is no more than the head is long; then just so much of the head is out |
| `ResponseEngine.FailedExactly` | src/async_web_response.cpp:75-79 | a run has failed if and only if its source was invalid at some acknowledgement |
| `ResponseEngine.EndExactly` | src/async_web_response.cpp:148-156 | for every run that stands in WAIT_ACK: the next acknowledgement ends it if and only if there is no content length or all bytes on the wire have been acknowledged, counted over the whole run |
| `ResponseEngine.EndMeansAcknowledged` | src/async_web_response.cpp:148-156 | with a content length, a run that has ended has acknowledged all bytes on the wire |
| `ResponseEngine.ClosedExactly` | src/async_web_response.cpp:75-79 | a run has closed the connection if and only if it failed, or ended where only that tells the receiver (lines 151-153) |
| `ResponseEngine.AsyncBaseResponse.constructor` | src/async_web_response.cpp:66-71 | a response starts in HEADERS with the whole head pending and all counters 0 |
| `ResponseEngine.AsyncBaseResponse.Ack` | src/async_web_response.cpp:73-157 | state, head and counters after one acknowledgement, what the client took of the bytes handed to it, and whether the connection is closed, are those of the step function that the run theorems are about; no more content is sent than announced; the result is the number of bytes handed over |
| `ResponseEngine.AsyncBaseResponse.SendHead` | src/async_web_response.cpp:88-92 | as much of the head as there is space for goes out, the rest stays pending |
| `ResponseEngine.AsyncBaseResponse.AckWindow` | src/async_web_response.cpp:95-101 | nothing happens without room for the framing of a chunk; otherwise the content branch |
| `ResponseEngine.AsyncBaseResponse.AckContent` | src/async_web_response.cpp:95-146 | the content branch delivers the pending head and one coded answer, or nothing on TRY_AGAIN |
| `ResponseEngine.AsyncBaseResponse.SendChunk` | src/async_web_response.cpp:116-146 | the answer goes out behind the pending head as one chunk of the grammar; an empty answer is the last chunk |
| `ResponseEngine.AsyncBaseResponse.SendPlain` | src/async_web_response.cpp:129-146 | without chunks the answer goes out behind the pending head as it is |
| `ResponseEngine.AsyncBaseResponse.SendContent` | src/async_web_response.cpp:135-146 | the head goes in front of the content in the buffer, both go to the client, an empty answer ends the content |
| `ResponseEngine.AsyncBaseResponse.PutHead` | src/async_web_response.cpp:137-140 | what was in the buffer up to the end, with a text put directly in front of it; also how the chunk header gets there (lines 122-123) |
| `ResponseEngine.AsyncBaseResponse.FrameChunk` | src/async_web_response.cpp:115-127 | header, data and trailer end up adjacent behind the space for the head, all inside the allocation, for headers of any length up to six |
| `ResponseEngine.AsyncBaseResponse.PutTrailer` | src/async_web_response.cpp:126-127 | the two trailing bytes are appended and nothing in front of them changes |
| `Listings.SnprintfStaysInside` | src/async_web_response.cpp:287-301 | with the reserved size kept in an int16_t, snprintf's size argument is at most the buffer size if and only if it did not become negative |
| `Listings.ReturnedExactly` | src/async_web_response.cpp:287-416 | with the emitted length kept in an int16_t, `_fillBuffer` returns it if and only if it is below 32768, and 0xffff0000 more from there on |
| `Listings.EmissionIsNextPart` | src/async_web_response.cpp:287-416 | what one buffer takes and the rest of the document make up what was still to come; it is not empty |
| `Listings.EmissionFits` | src/async_web_response.cpp:287-416 | one buffer never holds more than its space and the two bytes kept for the brackets |
| `Listings.DirEmitFits` | src/async_web_response.cpp:282-417 | a call for a directory listing never returns more bytes than the buffer has |
| `Listings.DirStaysValid` | src/async_web_response.cpp:282-417 | between calls the listing stands at an entry that has a text, or is finished |
| `Listings.DirEmitsNext` | src/async_web_response.cpp:282-417 | with a buffer that holds the opening and any single entry, a call emits exactly the next part of the document, is empty if and only if the document is out, and comes closer to the end |
| `Listings.DirStallsExactlyWithoutRoom` | src/async_web_response.cpp:297-372 | an unfinished listing emits nothing if and only if the opening, or the next entry, does not fit |
| `Listings.DirStallsExactlyInShortBuffers` | src/async_web_response.cpp:287-372 | the same by the size of the buffer, of which two bytes are kept for the brackets |
| `Listings.ScanEmitsNext` | src/async_web_response.cpp:483-551 | the same for the scan result: each row once, in order, never a cut one |
| `Listings.ScanStallsExactlyWithoutRoom` | src/async_web_response.cpp:483-551 | an unfinished scan result emits nothing if and only if its next row, with the opening if that is due, does not fit |
| `Listings.ScanStallsExactlyInShortBuffers` | src/async_web_response.cpp:487-551 | the same by the size of the buffer |
| `Listings.ScanEmitFits` | src/async_web_response.cpp:458-552 | a call for a scan result never returns more bytes than the buffer has |
| `Listings.DocumentTellsResult` | src/async_web_response.cpp:466-493 | the answer to a scan request begins with pending if and only if the scan is running, with a message if and only if it found nothing, and with a result if and only if it found networks |
| `Listings.MessageIsCutExactly` | src/async_web_response.cpp:458-482 | a message is given by one call, as a whole if and only if the buffer has room for its NUL too, else cut to all the room there is |
| `Listings.RowTellsHidden` | src/async_web_response.cpp:496-501 | a row has the class of hidden networks if and only if the network is hidden |
| `Listings.NameIsTold` | src/async_web_response.cpp:503-515 | the name of a network makes a difference to its row if and only if the network is not hidden |
| `JsonStrings.NameComesBackExactly` | src/async_web_response.cpp:507-509 | a reader written from section 7 of RFC 8259 reads a network name back from its place in the text, with what is behind it left over, if and only if the name has no backslash and no control character; escaping quotation marks alone is not enough for others |
| `JsonStrings.EscapedDiffers` | src/async_web_response.cpp:507-509 | different names are written differently |
| `Listings.NameIsReadExactly` | src/async_web_response.cpp:495-527 | the same in the row of a network: the reader gets the name behind the opening of the row if and only if it has none of these |
| `SpeedTest.AsyncSpeedTestResponse.constructor` | src/async_web_response.cpp:610-630 | an image of header and pixels for the width, with its full size left |
| `SpeedTest.AsyncSpeedTestResponse.FillBuffer` | src/async_web_response.cpp:637-652 | in place: first the header, then white pixels as far as buffer and image go; the state and text of the producer function |
| `SpeedTest.ImageIsWhite` | src/async_web_response.cpp:610-652 | the image is the header of 54 bytes and two bytes 0xff for every pixel of the square; without width, the header is never sent and its 54 bytes are 0xff too |
| `SpeedTest.ProduceEmitsNext` | src/async_web_response.cpp:637-652 | with room for the header while that is due, a call emits the next part of the image, empty if and only if the buffer or the rest is empty |
| `SpeedTest.AckKeepsStreaming` | src/async_web_response.cpp:73-157 | every acknowledgement keeps: what was taken and what is left are the image, whose length was announced |
| `SpeedTest.ImageIsDelivered` | src/async_web_response.cpp:73-157 | with the length announced, in every run of open windows the wire is a prefix of head and image, and on reaching WAIT_ACK exactly both |
| `SpeedTest.DeliveredOnSchedule` | src/async_web_response.cpp:73-157 | from the window sizes alone: enough windows that hold head and image header deliver exactly head and image |
| `SpeedTest.EndsWhenAcknowledged` | src/async_web_response.cpp:148-156 | with the image out, the next acknowledgement ends the response if and only if head and image have been acknowledged over the run |
| `ListingProducers.StrcpySafe` | src/async_web_response.cpp:446-456 | copies as much as fits in front of a NUL, advances by what was copied, writes nowhere else than into the space given |
| `ListingProducers.Finish` | src/async_web_response.cpp:397-407 | takes one trailing comma back, if there is one, and adds the closing brackets |
| `ListingProducers.AsyncDirResponse.constructor` | src/async_web_response.cpp:258-266 | a listing starts with its opening and the whole directory |
| `ListingProducers.AsyncDirResponse.FillBuffer` | src/async_web_response.cpp:282-417 | in place, in a buffer of exactly the size offered: the state and text of the producer function the document theorems are about; the result is the length as an int16_t holds it |
| `ListingProducers.AsyncDirResponse.Fill` | src/async_web_response.cpp:289-416 | the same for the reserved space at hand, aborting when the opening does not fit |
| `ListingProducers.AsyncDirResponse.EmitListing` | src/async_web_response.cpp:315-410 | entries behind the opening as far as they fit, the end of the document after the last |
| `ListingProducers.AsyncDirResponse.EmitEntries` | src/async_web_response.cpp:322-396 | the loop over the directory: exactly the entries that fit are passed, with their texts in order; an entry that does not fit leaves no trace |
| `ListingProducers.AppendSafe` | src/async_web_response.cpp:446-456 | a text copied in pieces is all there, or did not fit and left no space that matters |
| `ListingProducers.EmitRowStart` | src/async_web_response.cpp:496-502 | the fixed pieces of a row in their order |
| `ListingProducers.EmitRowHead` | src/async_web_response.cpp:496-515 | the pieces up to the network name; a visible name is copied as a whole or the row is given up |
| `ListingProducers.EmitRow` | src/async_web_response.cpp:496-527 | a row is complete behind what was there, with its comma, if and only if it fits; what was there is unchanged either way |
| `ListingProducers.AsyncNetworkScanResponse.constructor` | src/async_web_response.cpp:421-431 | a scan result starts at row 0 |
| `ListingProducers.AsyncNetworkScanResponse.FillBuffer` | src/async_web_response.cpp:458-552 | in place: position and text of the producer function, for a running scan, no networks, and networks; the results are marked for deletion if and only if this call gave the end of the document |
| `ListingProducers.AsyncNetworkScanResponse.Message` | src/async_web_response.cpp:466-482 | a message is copied as far as it fits and ends the content |
| `ListingProducers.AsyncNetworkScanResponse.EmitRows` | src/async_web_response.cpp:488-550 | opening, rows and closing of one buffer, and the position after it, 255 when the result is out or the first row did not fit |
| `ListingProducers.AsyncNetworkScanResponse.EmitOpening` | src/async_web_response.cpp:488-493 | the opening is there, or did not fit and leaves no room for a row |
| `ListingProducers.AsyncNetworkScanResponse.EmitNextRow` | src/async_web_response.cpp:495-529 | one turn of the loop over the rows |
| `ListingProducers.AsyncNetworkScanResponse.EmitFitting` | src/async_web_response.cpp:495-530 | exactly the rows that fit are passed, with their texts in order; bytes of a row that does not fit are not part of the result |
| `ListingStream.ProduceFits` | src/async_web_response.cpp:282-552 | a producer never answers with more than it was offered, nor more than 0xffff bytes |
| `ListingStream.ProduceEmitsNext` | src/async_web_response.cpp:282-552 | either producer, the scan for all three results, emits the next part of its document, empty if and only if the document is out |
| `ListingStream.AckKeepsStreaming` | src/async_web_response.cpp:73-552 | every acknowledgement keeps: what was taken from the producer and what it still has make up the document |
| `ListingStream.DocumentIsDelivered` | src/async_web_response.cpp:73-552 | end to end, for every schedule of windows: in WAIT_ACK and END the receiver decodes exactly opening, entries joined by commas and closing, or the message of a scan without networks; before that it has a prefix and cannot take it for complete |
| `ListingStream.AckProgresses` | src/async_web_response.cpp:73-552 | every acknowledgement that reaches the producer, and the last one, brings the response closer to its end |
| `ListingStream.DeliveryCompletes` | src/async_web_response.cpp:73-552 | with windows that hold the head and nine bytes more, the response has ended after a number of acknowledgements known in advance |
| `ListingStream.PollOnSchedule` | src/async_web_response.cpp:73-552 | a window that holds the head, eight bytes of framing and a buffer roomy for the fresh producer is good at every point of the run |
| `ListingStream.ScheduleIsGood` | src/async_web_response.cpp:73-552 | so are all windows of a schedule, whatever the producer has emitted by then |
| `ListingStream.StreamIsEngineRun` | src/async_web_response.cpp:73-552 | a run of engine and producer together is a run of the engine, within what the engine is built for |
| `ListingStream.DeliveredOnSchedule` | src/async_web_response.cpp:73-552 | from the window sizes alone, known before the run: the document is delivered exactly and the response ends, after a number of acknowledgements known before the run |
| `ListingStream.ScanIsTold` | src/async_web_response.cpp:73-552 | what the client of a scan decodes tells it whether the scan is running, found nothing, or found networks |
| `Crc16.UpdateConcat` | lib/KFCBaseLibrary/include/crc16.h:17-19 | the checksum of a concatenation continues from the checksum of its first part |
| `Crc16.ShiftAbsorbsBit` | lib/KFCBaseLibrary/include/crc16.h:13-15 | a word xored in at once is its lowest bit now and the rest one shift later: the step that turns the byte-wise form into the bit-wise one |
| `Crc16.UpdateFeedsBits` | lib/KFCBaseLibrary/include/crc16.h:13-19 | for messages of any length the byte-wise recursion is the bit-wise register fed least significant bit first |
| `Crc16.UnshiftInvertsShift` | lib/KFCBaseLibrary/include/crc16.h:14 | a shift with the polynomial 0xA001 can be undone |
| `Crc16.StepIsInjective` | lib/KFCBaseLibrary/include/crc16.h:14 | a message bit never makes two registers equal |
| `Crc16.StepBack` | lib/KFCBaseLibrary/include/crc16.h:14 | a bound on how far two registers differ can be carried back over one step, and tells different bits apart |
| `Crc16.BurstIsDetected` | lib/KFCBaseLibrary/include/crc16.h:13-23 | two messages of equal, arbitrary length that differ only inside one window of 16 consecutive bits have different checksums |
| `Crc16.ShiftKeepsParity` | lib/KFCBaseLibrary/include/crc16.h:14 | a shift keeps the parity of the register |
| `Crc16.OddErrorIsDetected` | lib/KFCBaseLibrary/include/crc16.h:13-23 | two messages that differ in an odd number of bits have different checksums |
| `Crc16.StepDivides` | lib/KFCBaseLibrary/include/crc16.h:13-15 | one step of the register is one step of a long division by x^16 + x^15 + x^2 + 1 |
| `Crc16.ChecksumIsRemainder` | lib/KFCBaseLibrary/include/crc16.h:13-23 | for every message: the checksum is the remainder, by long division, of the message followed by 16 zeros with its first 16 bits complemented; that fixes polynomial, bit order and initial value |
| `Crc16.LeadingZeroIsDetected` | lib/KFCBaseLibrary/include/crc16.h:21-23 | a zero byte in front of any message changes its checksum |
| `ShiftRegisters.FeedConcat` | lib/KFCBaseLibrary/include/crc16.h:17-19 | feeding a concatenation is feeding its parts one after the other, for any register |
| `ShiftRegisters.FeedIsInjective` | lib/KFCBaseLibrary/include/crc16.h:17-19 | different registers stay different under the same further symbols |
| `ShiftRegisters.FeedBurst` | lib/KFCBaseLibrary/include/crc16.h:13-19 | for any injective register with a window of some width, messages that differ inside such a window lead to different registers |
| `ShiftRegisters.FeedKeepsParity` | lib/KFCBaseLibrary/include/crc16.h:13-19 | a parity that every step changes with its symbol is the parity of the whole message |
| `Crc16.ComputeLooped` | scripts/tools/kfcfw_configuration.py:7-14 | the eight looped shifts compute the recursive form |
| `Crc16.UpdateLooped` | scripts/tools/kfcfw_configuration.py:16-19 | the loop over the data computes the recursive form |
| `Crc16.GetHandle` | scripts/tools/kfcfw_configuration.py:21-23 | the handle of a configuration name is its checksum, from the looped form and the start value written there |
| `ChunkedLists.Chunk.constructor` | lib/KFCBaseLibrary/include/chunked_list.h:105-106 | an empty chunk, its cursor at the start |
| `ChunkedLists.AppendedKeepsLocations` | lib/KFCBaseLibrary/include/chunked_list.h:334-352 | appending leaves every element in its chunk at its offset |
| `ChunkedLists.List.constructor` | lib/KFCBaseLibrary/include/chunked_list.h:265-266 | an empty list |
| `ChunkedLists.List.EmplaceBack` | lib/KFCBaseLibrary/include/chunked_list.h:334-352 | the contents grow by one element at the end; the chunks so far stay the same objects in the same order and hold the same elements; all but the last are full; new chunks are new |
| `ChunkedLists.List.AddFirstChunk` | lib/KFCBaseLibrary/include/chunked_list.h:335-339 | the first chunk is first and last, and empty |
| `ChunkedLists.List.AddChunk` | lib/KFCBaseLibrary/include/chunked_list.h:340-348 | a new empty chunk is linked behind the full last one through the pointer that was its cursor |
| `ChunkedLists.List.PlaceInLast` | lib/KFCBaseLibrary/include/chunked_list.h:349-351 | the element is put behind those in the last chunk; cursor and size grow by one |
| `ChunkedLists.List.Clear` | lib/KFCBaseLibrary/include/chunked_list.h:354-361 | an empty list without chunks |
| `ChunkedLists.List.MoveFrom` | lib/KFCBaseLibrary/include/chunked_list.h:288-297 | the chunks of the other list, not copies; the other list is empty; moving a list to itself empties it |
| `ChunkedLists.List.Assign` | lib/KFCBaseLibrary/include/chunked_list.h:279-286 | the same elements in chunks that are all new, with first and last chunk set; assigning a list to itself empties it |
| `ChunkedLists.List.CopyChunk` | lib/KFCBaseLibrary/include/chunked_list.h:108-124 | copies a chain of any length: same elements in same places, new chunks, the last of them reported |
| `ChunkedLists.List.PutInFront` | lib/KFCBaseLibrary/include/chunked_list.h:114-117 | the chunk is linked in front of the copied rest |
| `ChunkedLists.List.Advance` | lib/KFCBaseLibrary/include/chunked_list.h:199-211 | from element n of the contents the iterator goes to element n + 1, across the border of a chunk too, and from the last element to the end |
| `ChunkedLists.List.ElementAt` | lib/KFCBaseLibrary/include/chunked_list.h:199-223 | an iterator at element n points to element n of the contents; it is the end if and only if there is no such element |
| `ChunkedLists.List.BeginStands` | lib/KFCBaseLibrary/include/chunked_list.h:199-223 | `begin` stands at the first element, or is the end |
| `ChunkedLists.List.Walk` | lib/KFCBaseLibrary/include/chunked_list.h:199-211 | a walk from begin to end sees exactly the contents, in order, and ends |
| `ChunkedLists.List.Empty` | lib/KFCBaseLibrary/include/chunked_list.h:307-309 | true if and only if there are elements, contrary to the name |
| `ChunkedLists.List.Front` | lib/KFCBaseLibrary/include/chunked_list.h:315-320 | the first element appended |
| `ChunkedLists.List.Back` | lib/KFCBaseLibrary/include/chunked_list.h:322-327 | the last element appended |
| `ChunkedLists.RunAndWalk` | lib/KFCBaseLibrary/include/chunked_list.h:199-361 | after any run of appending, clearing, moving and copying, for any chunk size, iterating yields exactly what was appended since the last clear |
| `ChunkedLists.CopyThenAppend` | lib/KFCBaseLibrary/include/chunked_list.h:279-286 | after a copy assignment, appending to either list leaves the other unchanged |
| `ChunkedLists.AppendBeside` | lib/KFCBaseLibrary/include/chunked_list.h:334-352 | appending to one list keeps every list with chunks of its own |
| `ChunkedLists.AddressTestExactly` | lib/KFCBaseLibrary/include/chunked_list.h:157-162 | for chunks that do not overlap, a cursor is always known as one by its address, and a link is known as a link if and only if the next chunk does not start right behind the storage |
| `ChunkedLists.ChainIsReachedExactly` | lib/KFCBaseLibrary/include/chunked_list.h:151-162 | following the links by that test reaches all chunks of a chain if and only if none starts right behind the storage of the one before it |
| `CircularBuffers.SlotIsRemainder` | lib/KFCBaseLibrary/include/FixedCircularBuffer.h:64-66 | the slot of a position is its remainder by the size |
| `CircularBuffers.SlotsDiffer` | lib/KFCBaseLibrary/include/FixedCircularBuffer.h:64-66 | positions less than one round apart have different slots |
| `CircularBuffers.SlotOfSum` | lib/KFCBaseLibrary/include/FixedCircularBuffer.h:123-125 | reducing a position first does not change the slot of a later one |
| `CircularBuffers.RingPushLast` | lib/KFCBaseLibrary/include/FixedCircularBuffer.h:123-130 | writing at the write position appends to the ring and drops the oldest element exactly when it is full |
| `CircularBuffers.FixedCircularBuffer.constructor` | lib/KFCBaseLibrary/include/FixedCircularBuffer.h:79-80 | an empty, unlocked buffer |
| `CircularBuffers.FixedCircularBuffer.PushBack` | lib/KFCBaseLibrary/include/FixedCircularBuffer.h:123-130 | the contents are the last SIZE elements of the old contents and the value; `_write_position == _count % SIZE` and size <= SIZE are kept |
| `CircularBuffers.FixedCircularBuffer.PushBackNoBlock` | lib/KFCBaseLibrary/include/FixedCircularBuffer.h:132-136 | the same, or nothing when locked |
| `CircularBuffers.FixedCircularBuffer.PopFront` | lib/KFCBaseLibrary/include/FixedCircularBuffer.h:151-155 | takes the oldest element and leaves the others |
| `CircularBuffers.FixedCircularBuffer.Front` | lib/KFCBaseLibrary/include/FixedCircularBuffer.h:191-193 | the oldest element |
| `CircularBuffers.FixedCircularBuffer.Back` | lib/KFCBaseLibrary/include/FixedCircularBuffer.h:195-197 | the newest element |
| `CircularBuffers.FixedCircularBuffer.Clear` | lib/KFCBaseLibrary/include/FixedCircularBuffer.h:169-174 | an empty, unlocked buffer |
| `CircularBuffers.FixedCircularBuffer.Iterate` | lib/KFCBaseLibrary/include/FixedCircularBuffer.h:99-101 | a loop over iterators sees the slots between them modulo the size; inside the contents, the sub-sequence |
| `CircularBuffers.FixedCircularBuffer.Slice` | lib/KFCBaseLibrary/include/FixedCircularBuffer.h:96-104 | a new buffer with the elements between the iterators, its write position right |
| `CircularBuffers.FixedCircularBuffer.Shrink` | lib/KFCBaseLibrary/include/FixedCircularBuffer.h:106-110 | keeps exactly the elements between the iterators |
| `CircularBuffers.FixedCircularBuffer.Copy` | lib/KFCBaseLibrary/include/FixedCircularBuffer.h:112-117 | the target holds the last SIZE2 of its old elements and those between the iterators |
| `CircularBuffers.FixedCircularBuffer.MoveFrom` | lib/KFCBaseLibrary/include/FixedCircularBuffer.h:86-94 | counters and flag move, but only as many slots as there are elements; the other buffer is empty |
| `CircularBuffers.MoveIsFaithfulExactlyWhenComplete` | lib/KFCBaseLibrary/include/FixedCircularBuffer.h:86-94 | a move keeps the contents, whatever the target held, if and only if the buffer is empty, full, or its oldest element is in slot 0 |
| `CircularBuffers.MoveMissesSlot` | lib/KFCBaseLibrary/include/FixedCircularBuffer.h:91 | otherwise some element is read from a slot that was not copied |
| `CircularBuffers.PushesLeaveTheLast` | lib/KFCBaseLibrary/include/FixedCircularBuffer.h:123-130 | pushes alone leave the last SIZE of all elements pushed |
| `CircularBuffers.PopsReturnTheFirst` | lib/KFCBaseLibrary/include/FixedCircularBuffer.h:123-155 | where nothing was overwritten, the pops return the first elements pushed, in order |
| `CircularBuffers.Apply` | lib/KFCBaseLibrary/include/FixedCircularBuffer.h:123-155 | one operation of a run: contents are what was pushed without what is gone, a pop returns the oldest of it |
| `CircularBuffers.RunAndIterate` | lib/KFCBaseLibrary/include/FixedCircularBuffer.h:123-155 | after every run of pushes and pops of non-empty buffers, iteration yields the pushed sequence without popped and overwritten heads, and the pops returned those in order |
| `AdcReader.WindowAroundMean` | lib/KFCBaseLibrary/include/ReadADC.h:69-70 | without division: accepted are exactly the values between mean / 1.004, rounded down, and mean / 0.985 |
| `AdcReader.EndsFor24` | lib/KFCBaseLibrary/include/ReadADC.h:34-51 | with up to 24 values wanted the 8-bit loop counter ends the loop after at most ten times as many decisions, whichever they are |
| `AdcReader.NeverEndsFrom25` | lib/KFCBaseLibrary/include/ReadADC.h:38-51 | from 25 values on there are decisions for which the counter wraps around and the loop never ends |
| `AdcReader.EndsExactlyFor24` | lib/KFCBaseLibrary/include/ReadADC.h:34-71 | whatever 10-bit readings are buffered: there is a number of readings within which the loop ends for all 10-bit readings if and only if at most 24 values are wanted |
| `AdcReader.EitherDecision` | lib/KFCBaseLibrary/include/ReadADC.h:63-71 | with 10-bit readings buffered, one 10-bit reading would be accepted and another rejected |
| `AdcReader.EveryDecisionsCanBe` | lib/KFCBaseLibrary/include/ReadADC.h:36-51 | every sequence of decisions is brought about by some 10-bit readings |
| `AdcReader.EndsWithDecisions` | lib/KFCBaseLibrary/include/ReadADC.h:36-51 | the loop ends within some readings if and only if its counter does within the decisions they bring about, each against the mean of the readings before it |
| `AdcReader.NeverReturnsFrom25` | lib/KFCBaseLibrary/include/ReadADC.h:34-51 | from 25 values on there are endless 10-bit readings, each longer part of them going on with the shorter ones, within which `read` does not return |
| `AdcReader.CanEndExactlyUpTo25` | lib/KFCBaseLibrary/include/ReadADC.h:34-51 | some readings end the loop if and only if at most 25 values are wanted |
| `AdcReader.CountedToTheEnd` | lib/KFCBaseLibrary/include/ReadADC.h:34-51 | at most `_num` values are accepted, all within the range of the readings, ten of the counter each |
| `AdcReader.ResultBetweenAccepted` | lib/KFCBaseLibrary/include/ReadADC.h:52-59 | with a value accepted, the result lies between the smallest and the largest accepted |
| `AdcReader.ResultIsMean` | lib/KFCBaseLibrary/include/ReadADC.h:52-59 | up to 255 values neither the 32-bit sum nor the 8-bit count wraps around, and the result is their truncated mean |
| `AdcReader.ResultBetweenReadings` | lib/KFCBaseLibrary/include/ReadADC.h:34-60 | up to 24 values `read` returns within ten readings for each and one more, a value within the range of the readings, so that a constant input is returned |
| `AdcReader.ReturnsExactly` | lib/KFCBaseLibrary/include/ReadADC.h:34-60 | for any readings `read` returns within them if and only if the loop ends and there is an accepted value, or one more reading to return |
| `AdcReader.RejectedReturnsNext` | lib/KFCBaseLibrary/include/ReadADC.h:34-60 | when ten readings for each value wanted are all rejected, the one behind them is returned as it is |
| `AdcReader.ConstantIsAccepted` | lib/KFCBaseLibrary/include/ReadADC.h:63-71 | a constant input is accepted if and only if it is at most 64552, where the upper bound still fits 16 bits |
| `AdcReader.SteadyInputTakesNum` | lib/KFCBaseLibrary/include/ReadADC.h:34-51 | up to 25 values such an input is read exactly `_num` times |
| `AdcReader.ReadADC.constructor` | lib/KFCBaseLibrary/include/ReadADC.h:26-32 | the buffer holds the first 32 readings |
| `AdcReader.ReadADC.Get` | lib/KFCBaseLibrary/include/ReadADC.h:63-71 | the bounds from the mean over the whole buffer, the upper one cut to 16 bits |
| `AdcReader.ReadADC.TakeReading` | lib/KFCBaseLibrary/include/ReadADC.h:37-47 | a reading is compared with the bounds from before it, and then enters the buffer |
| `AdcReader.Tally` | lib/KFCBaseLibrary/include/ReadADC.h:41-45 | sum, count and counter after a reading, in 32, 8 and 8 bits |
| `AdcReader.ReadADC.Read` | lib/KFCBaseLibrary/include/ReadADC.h:34-60 | for every number of values wanted and any readings: the result of the sampling function the other statements are about, or none as long as the loop goes on; the buffer has taken every reading |
| `AdcReader.ReadADC.Conclude` | lib/KFCBaseLibrary/include/ReadADC.h:52-59 | the average in 16 bits, or one more reading, which enters the buffer |
| `IntelHex.IntelHexFormat.Reset` | lib/KFCBaseLibrary/src/IntelHexFormat.cpp:113-119 | the file is at its start, nothing is buffered, no error |
| `IntelHex.IntelHexFormat.ReadHexByte` | lib/KFCBaseLibrary/src/IntelHexFormat.cpp:121-130 | two hexadecimal digits as their value, -1 for anything else and at the end of the file |
| `IntelHex.IntelHexFormat.ReadHexBytes` | lib/KFCBaseLibrary/src/IntelHexFormat.cpp:143-161 | n bytes and the running check sum in 8 bits, or failure if any digit is missing |
| `IntelHex.IntelHexFormat.ReadRecord` | lib/KFCBaseLibrary/src/IntelHexFormat.cpp:132-202 | white space is skipped; the record behind it is taken or the error of the parser is set |
| `IntelHex.IntelHexFormat.ReadFields` | lib/KFCBaseLibrary/src/IntelHexFormat.cpp:140-189 | the record behind the colon is taken or its error is set |
| `IntelHex.IntelHexFormat.ReadParts` | lib/KFCBaseLibrary/src/IntelHexFormat.cpp:141-165 | all digits of a record, or READ_ERROR exactly when the parser finds some missing |
| `IntelHex.IntelHexFormat.ReadBody` | lib/KFCBaseLibrary/src/IntelHexFormat.cpp:152-165 | data and check byte behind a header, or READ_ERROR exactly when the parser finds a digit missing; the check sum goes on from the header's |
| `IntelHex.IntelHexFormat.TakeRecord` | lib/KFCBaseLibrary/src/IntelHexFormat.cpp:166-189 | two's complement check, type, 16-bit address; stored, or counted for the end address |
| `IntelHex.IntelHexFormat.Validate` | lib/KFCBaseLibrary/src/IntelHexFormat.cpp:37-48 | true if and only if the text holds good records up to an EOF record; otherwise the error of the first bad one; the end address is the largest 16-bit end of a record |
| `IntelHex.IntelHexFormat.Deliver` | lib/KFCBaseLibrary/src/IntelHexFormat.cpp:60-74 | gives the first bytes of the record with their address and keeps the others with the address moved on, modulo 2^16 |
| `IntelHex.IntelHexFormat.ReadBytes` | lib/KFCBaseLibrary/src/IntelHexFormat.cpp:50-86 | for every file, also a broken one, and every length: what is delivered and what is pending afterwards is what was pending; 0 at the EOF record and for length 0 only; -1 exactly when the records before the failure are all delivered, and the code of the error from then on |
| `IntelHex.ReadPieces` | lib/KFCBaseLibrary/src/IntelHexFormat.cpp:50-86 | for reads of any lengths the pieces concatenate to a prefix of the bytes of the records, all of it after enough reads of length 1 or more; a failure comes after the last byte before it |
| `IntelHex.ValidateAndRead` | lib/KFCBaseLibrary/src/IntelHexFormat.cpp:37-86 | a file found valid is delivered without an error, whatever the lengths |
| `IntelHex.PlaceSplit` | lib/KFCBaseLibrary/src/IntelHexFormat.cpp:61-73 | the bytes of a record and their addresses are those of its first k bytes and of the others from the address moved on |
| `IntelHex.PlacedAt` | lib/KFCBaseLibrary/src/IntelHexFormat.cpp:61-73 | byte i of a record is for the address i behind that of the record, modulo 2^16 |
| `IntelHex.CheckByte` | lib/KFCBaseLibrary/src/IntelHexFormat.cpp:166-170 | comparing with the two's complement of the 8-bit sum accepts exactly the check byte that makes the sum of all bytes 0 |
| `IntelHex.RecordOfText` | lib/KFCBaseLibrary/src/IntelHexFormat.cpp:132-202 | a record in the general record format of the Intel HEX specification is read as its type, address and data |
| `IntelHex.FileRoundTrip` | lib/KFCBaseLibrary/src/IntelHexFormat.cpp:37-86 | a file of data records, any white space between them and an End of File record is valid and holds exactly those data, also with more text behind it |
| `IntelHex.EndAddressIsLargest` | lib/KFCBaseLibrary/src/IntelHexFormat.cpp:187 | the end address found by validate is the largest 16-bit end of a record, 0 without records |
| `IntelHex.WrongByteIsRefused` | lib/KFCBaseLibrary/src/IntelHexFormat.cpp:166-170 | a record with one data byte replaced by any other is refused with INVALID_CHECKSUM |
| `IntelHex.ChecksumRefusedExactly` | lib/KFCBaseLibrary/src/IntelHexFormat.cpp:166-170 | the text of a record is refused with INVALID_CHECKSUM if and only if its check byte is not the two's complement of the bytes before it |
| `IntelHex.OtherTypeIsRefused` | lib/KFCBaseLibrary/src/IntelHexFormat.cpp:171-180 | data records, then a record of any other type but EOF, then anything: exactly the data is read, and the outcome is RECORD_TYPE_NOT_SUPPORTED |
| `IntelHex.ForeignCharacterIsRefused` | lib/KFCBaseLibrary/src/IntelHexFormat.cpp:190-202 | the same for a character between records that is neither white space nor a colon, with INVALID_CHARACTER |
| `IntelHex.MissingEofIsRefused` | lib/KFCBaseLibrary/src/IntelHexFormat.cpp:132-202 | the same for the end of the file in place of an EOF record, with EOF_BEFORE_END |
| `IntelHex.ReadErrorExactly` | lib/KFCBaseLibrary/src/IntelHexFormat.cpp:121-165 | a record is a READ_ERROR if and only if one of its digits is missing or none, as many as its first two digits announce |
| `IntelHex.LettersDoNotMatter` | lib/KFCBaseLibrary/src/IntelHexFormat.cpp:121-130 | every file is read the same with its small hexadecimal digits written as capital ones |
| `IntelHex.DigitsExactly` | lib/KFCBaseLibrary/src/IntelHexFormat.cpp:121-130 | exactly the characters 0 to 9, a to f and A to F are digits |
| `IntelHex.EofRecordText` | lib/KFCBaseLibrary/src/IntelHexFormat.cpp:166-173 | the record that ends a file is the well-known text :00000001FF |
| `ActionBlobs.Int32RoundTrip` | src/kfc_fw_config_classes.cpp:203-204 | a 32-bit value is read from its four bytes |
| `ActionBlobs.LowestByteFirst` | src/kfc_fw_config_classes.cpp:203-204 | the bytes of a value are those of its two's complement, lowest first |
| `ActionBlobs.HomeAssistant.SetActions` | src/kfc_fw_config_classes.cpp:211-227 | stores the records of the actions with an id and an entity length not 0 modulo 256, cut to a 16-bit length |
| `ActionBlobs.HomeAssistant.GetActions` | src/kfc_fw_config_classes.cpp:188-209 | adds the actions of all complete records to the list; terminates and stays inside any stored bytes |
| `ActionBlobs.HomeAssistant.ReadAction` | src/kfc_fw_config_classes.cpp:194-206 | the action of one complete record, and where it ends |
| `ActionBlobs.HomeAssistant.GetAction` | src/kfc_fw_config_classes.cpp:229-239 | the stored action with the id that no other with it is in front of; none if and only if no stored action has the id |
| `ActionBlobs.WriteThenRead` | src/kfc_fw_config_classes.cpp:188-227 | the actions with an id and an entity are read back exactly if and only if each has at most 255 entity bytes and 255 values and all records together at most 65535 bytes |
| `ActionBlobs.KeptExactly` | src/kfc_fw_config_classes.cpp:211-227 | an action is stored if and only if it is in the list, has an id, and its entity a length other than 0 in 8 bits |
| `ActionBlobs.StoreAndFind` | src/kfc_fw_config_classes.cpp:188-239 | after storing a list whose lengths fit, the action found for an id is the first in the list that has it, an id and an entity |
| `ActionBlobs.BytesOfActions` | src/kfc_fw_config_classes.cpp:188-209 | for any bytes, the actions read fit their length fields, and their encoding is the part of the bytes that was read |
| `ActionBlobs.ReadThenWrite` | src/kfc_fw_config_classes.cpp:188-227 | storing what was read gives a prefix of the bytes, if every record has an id and an entity |
| `ActionBlobs.ActionOfBytes` | src/kfc_fw_config_classes.cpp:194-206 | one record of an action that fits is read as the action |
| `SwitchBlobs.GetConfig` | include/kfc_fw_config_classes.h:322-339 | both arrays hold what the stored bytes say for each switch, defaults where nothing is left; a name that is not complete is empty; never reads outside the bytes |
| `SwitchBlobs.ReadSwitch` | include/kfc_fw_config_classes.h:331-337 | one turn of the loop |
| `SwitchBlobs.SetDefaults` | include/kfc_fw_config_classes.h:323-324 | empty names, length 0 and OFF |
| `SwitchBlobs.SetConfig` | include/kfc_fw_config_classes.h:342-350 | stores length, state and name of each switch in order, cut to a 16-bit length, and sets the lengths, in 8 bits |
| `SwitchBlobs.WriteThenRead` | include/kfc_fw_config_classes.h:322-350 | names and states of fewer than 32768 switches come back exactly if and only if every name has at most 255 bytes and all together at most 65535 |
| `SwitchBlobs.TruncatedExactly` | include/kfc_fw_config_classes.h:322-339 | when only the first bytes were stored, the entries come back if and only if nothing was cut off but headers of switches that have neither name nor state |
| `SwitchBlobs.ComesBackExactly` | include/kfc_fw_config_classes.h:322-350 | for any number of switches, names and states come back if and only if every name has at most 255 bytes and the 16-bit length cuts off nothing but such headers |
| `NumberText.PrintNumber` | lib-mock/KFCBaseLibrary/src/Print.cpp:195-212 | writes the positional notation in the base, 10 for base 0 and 1, from the end of a 33-byte buffer that is always large enough |
| `NumberText.PrintLong` | lib-mock/KFCBaseLibrary/src/Print.cpp:94-103 | decimal, with a minus sign for negative numbers |
| `NumberText.DigitsDiffer` | lib-mock/KFCBaseLibrary/src/Print.cpp:195-212 | different numbers are written differently in every base, also where they cannot be read back |
| `NumberText.StrtollDigits` | lib/KFCBaseLibrary/include/constexpr_tools.h:171-175 | reading takes all digits of a number in its base, leaves the number as value and goes on with what is behind |
| `NumberText.NumberRoundTrip` | lib/KFCBaseLibrary/include/constexpr_tools.h:153-175 | a number printed in a base from 2 to 16 reads as itself in that base, whatever that is no digit follows, and with a minus sign as its negative |
| `NumberText.ReadsBackExactlyUpTo16` | lib/KFCBaseLibrary/include/constexpr_tools.h:153-175 | every unsigned 32-bit number reads back if and only if the base is at most 16 |
| `NumberText.DecimalIsDetected` | lib/KFCBaseLibrary/include/constexpr_tools.h:163-175 | a decimal number reads as itself with the base left open, zero included |
| `NumberText.PrefixIsDetected` | lib/KFCBaseLibrary/include/constexpr_tools.h:163-175 | with the prefixes 0x, 0b and 0 numbers in base 16, 2 and 8 read as themselves with the base left open |
| `NumberText.DigitsExactly` | lib/KFCBaseLibrary/include/constexpr_tools.h:153-157 | exactly the characters 0 to 9, a to f and A to F are digits |
| `NumberText.LargerDigitStops` | lib/KFCBaseLibrary/include/constexpr_tools.h:171-175 | a digit that is not below the base ends the number, whatever is behind it |
| `NumberText.PrefixAloneIsInvalid` | lib/KFCBaseLibrary/include/constexpr_tools.h:163-175 | a prefix without a digit behind it gives the invalid value |
| `NumberText.InvalidIsTold` | lib/KFCBaseLibrary/include/constexpr_tools.h:171-175 | text without a number gives the invalid value, and its negative behind a minus sign |
| `NumberText.LettersDoNotMatter` | lib/KFCBaseLibrary/include/constexpr_tools.h:155-157 | with the base given, every text is read the same with capital hexadecimal digits |
| `Timers.MillisTimer.constructor` | lib/KFCBaseLibrary/src/MillisTimer.cpp:11-13 | not active |
| `Timers.MillisTimer.Set` | lib/KFCBaseLibrary/src/MillisTimer.cpp:15-24 | active from now on for the delay |
| `Timers.MillisTimer.Reached` | lib/KFCBaseLibrary/src/MillisTimer.cpp:49-69 | true exactly when active and due by the counter; then armed again from now, or no longer active |
| `Timers.MillisTimer.Get` | lib/KFCBaseLibrary/src/MillisTimer.cpp:26-39 | up to the last poll the real time left (negative past a wrap, else not below 0), -1 when not active |
| `Timers.MillisTimer.Restart` | lib/KFCBaseLibrary/src/MillisTimer.cpp:71-73 | active from now on for the same delay |
| `Timers.DueInWindow` | lib/KFCBaseLibrary/src/MillisTimer.cpp:49-60 | a timer is due exactly while the counter is in a window that comes again with every wrap |
| `Timers.NeverEarly` | lib/KFCBaseLibrary/src/MillisTimer.cpp:15-60 | for delays below 2^31, from any start, a timer is never due before more than the delay has really passed, at whatever time it is polled |
| `Timers.DueInTime` | lib/KFCBaseLibrary/src/MillisTimer.cpp:15-60 | up to the next wrap, or 2^31 ms past it when the deadline lies behind the wrap, it is due if and only if more than the delay has passed |
| `Timers.MissedBehindLastPoll` | lib/KFCBaseLibrary/src/MillisTimer.cpp:49-60 | one millisecond later it is not due although its time is up |
| `Timers.NeverDueExactlyAtTheLastValue` | lib/KFCBaseLibrary/src/MillisTimer.cpp:15-60 | a timer is never due at all if and only if its deadline is the last counter value 0xffffffff |
| `Timers.PollPeriodic` | lib/KFCBaseLibrary/src/MillisTimer.cpp:49-69 | a periodic timer, polled at any real times, fires at exactly the polls it is due at, and never twice within its delay |
| `Timers.TimeDiffIsElapsed` | lib/KFCBaseLibrary/src/MicrosTimer.cpp:7-9 | the difference of two counters is the elapsed time modulo 2^32, and the elapsed time itself if and only if that is below 2^32 |
| `Timers.MicrosTimer.constructor` | lib/KFCBaseLibrary/src/MicrosTimer.cpp:11-12 | not valid |
| `Timers.MicrosTimer.Start` | lib/KFCBaseLibrary/src/MicrosTimer.cpp:31-34 | valid from now on |
| `Timers.MicrosTimer.GetTime` | lib/KFCBaseLibrary/src/MicrosTimer.cpp:14-29 | the elapsed time modulo 2^32 while valid; found out of sync it returns 0 and stays invalid until restarted |
| `Timers.ExactWithin` | lib/KFCBaseLibrary/src/MicrosTimer.cpp:14-29 | below 2^32 microseconds a timer is in sync if and only if less than 2^31 - 1 have passed or the counter has not wrapped |
| `PublishThrottle.WebUIComponent.PublishState` | Resources/js/webui.js:61-93 | keeps the value for later, or sends it and sets a timer; nothing while locked |
| `PublishThrottle.WebUIComponent.OnTimeout` | Resources/js/webui.js:85-90 | the element is at rest, or its latest value is sent with a new timer; an exception when the request is unknown |
| `PublishThrottle.StepKeeps` | Resources/js/webui.js:61-93 | every request, every timeout and every reset at rest keeps: at most one timer for each element, pending exactly while there is one, set when the last message was sent; messages spaced; at rest the last value was sent, 100 ms ago or more |
| `PublishThrottle.ExpireSendsLatest` | Resources/js/webui.js:85-90 | when a timer runs out the latest request has been sent |
| `PublishThrottle.RestAfterExpiry` | Resources/js/webui.js:85-90 | without a request in between an element is at rest after two timers at the latest |
| `PublishThrottle.LastRequestIsSent` | Resources/js/webui.js:61-93 | in every run whose resets happen while no timer is outstanding: one timer for each element at most, messages spaced, a message sent for exactly the elements there was a request for, and where no timer is left the last message has the value and type of the last request |
| `PublishThrottle.ThrottledMeansSpaced` | Resources/js/webui.js:82-90 | any two messages for an element are at least 100 ms apart |
| `PublishThrottle.ResetKeepsSpacingExactlyAtRest` | Resources/js/webui.js:85-90 | at any time of any run, a reset leaves messages spaced in everything that can follow if and only if no timer is outstanding |
| `PublishThrottle.RequestComesTooEarly` | Resources/js/webui.js:77-84 | with a timer not yet due, the next request after a reset is sent too early |
| `PublishThrottle.TimeoutSendsTwice` | Resources/js/webui.js:85-90 | with a timer due, a new value after a reset is sent, and sent again when the timer runs out at the same time |
| `PublishThrottle.WebUIComponent.UpdateUI` | Resources/js/webui.js:314-356 | pending requests are forgotten, timers are not, and nothing is published while the elements are built |
| `PublishThrottle.MessageAfterReset` | Resources/js/webui.js:314-356 | so two messages for one element can go out less than 100 ms apart |
| `PublishThrottle.ForgottenTimerIsSilent` | Resources/js/webui.js:85-90 | a timer of an element that a reset has forgotten sends nothing |
| `PluginStatus.PluginStatusStream.constructor` | src/templates.cpp:481-483 | the whole page is still to be read |
| `PluginStatus.PluginStatusStream.FillBuffer` | src/templates.cpp:500-515 | skips plugins without a status and buffers the next block; nothing of the page is lost; 0 if and only if there is none left |
| `PluginStatus.PluginStatusStream.ReadBytes` | src/templates.cpp:485-497 | what is read and what is left make up what was left; 0 if and only if nothing was asked for or nothing is left |
| `PluginStatus.ReadPage` | src/templates.cpp:485-515 | reads of any sizes give the blocks of all plugins in order, all of them after enough reads of at least one byte |
| `PluginStatus.PageIsAllBlocks` | src/templates.cpp:500-515 | the page is the blocks of all plugins that have one, in their order |
| `WebSocketClients.AsyncWebSocket.OnWsEvent` | src/web_socket.cpp:52-161 | client list, messages and callbacks after one event are those of the step function the run theorems are about |
| `WebSocketClients.AsyncWebSocket.Disconnect` | src/web_socket.cpp:86-99 | callbacks in their order, the client no longer counted, then gone |
| `WebSocketClients.AsyncWebSocket.CheckSid` | src/web_socket.cpp:141-158 | authenticated, with start callback, message and callbacks in their order; or refused and closed |
| `WebSocketClients.AsyncWebSocket.InvokeStartOrEndCallback` | src/web_socket.cpp:195-217 | a start when the client is the only authenticated one, an end when there is none |
| `WebSocketClients.AsyncWebSocket.Broadcast` | src/web_socket.cpp:219-233 | sends the message to the recipients in the order of the list |
| `WebSocketClients.BroadcastReaches` | src/web_socket.cpp:226-230 | a client gets the message if and only if it is connected, authenticated and not the sender |
| `WebSocketClients.BroadcastOnce` | src/web_socket.cpp:226-230 | nothing else is sent, and nobody gets it twice |
| `WebSocketClients.HandleKeepsOrder` | src/web_socket.cpp:52-161 | every event keeps the client list free of duplicates and of clients that left |
| `WebSocketClients.AuthenticatedMeansVerified` | src/web_socket.cpp:125-158 | in every run a client is authenticated if and only if a session id it sent since it connected was found right |
| `WebSocketClients.DataOnlyWhenVerified` | src/web_socket.cpp:119-132 | in every run data is passed on only for a client verified before |
| `WebSocketClients.HandleKeepsStarted` | src/web_socket.cpp:52-217 | every event keeps: starts and ends alternate, and the last of them is a start exactly while an authenticated client is connected |
| `WebSocketClients.StartsAndEnds` | src/web_socket.cpp:195-217 | in every run there is an end between two starts, and the last of them is a start exactly while an authenticated client is connected |
| `WebSocketClients.EndWithoutStartExactly` | src/web_socket.cpp:86-99 | in every run, the next event brings an end that no start belongs to if and only if a client leaves while no authenticated one is connected |
| `WebSocketClients.OutputsExactly` | src/web_socket.cpp:52-217 | in every run, for every event and every message or callback: it comes if and only if the history says so; known are the clients verified since they connected, whose data is passed on by type with its payload |
| `WebSocketClients.CStringEndsAtNul` | src/web_socket.cpp:139-140 | the session id checked is what is in front of the first NUL |
| `SerialInput.AtMode.HandleChar` | src/at_mode.cpp:1354-1390 | one byte: line, commands dispatched and echo |
| `SerialInput.AtMode.SerialInputHandler` | src/at_mode.cpp:1346-1394 | all bytes of a buffer in order; no echo for remote data, nothing at all when AT mode is off |
| `SerialInput.FeedConcat` | src/at_mode.cpp:1346-1394 | cutting the bytes at any place changes nothing |
| `SerialInput.PiecesOfLine` | src/at_mode.cpp:1383-1389 | the pieces of a line make up the line; all but the last have 512 bytes, the last fewer |
| `SerialInput.LineIsDispatched` | src/at_mode.cpp:1368-1390 | a plain line of any length is dispatched as its pieces, the last with the newline, and is echoed as its pieces, each with a newline |
| `SerialInput.LinesAreCommands` | src/at_mode.cpp:1368-1373 | plain lines below the maximum length are exactly the commands, and are echoed as typed |
| `SerialInput.CommandsFit` | src/at_mode.cpp:1354-1390 | no command is longer than 512 bytes, whatever is typed |
| `SerialInput.TabTypesPrefix` | src/at_mode.cpp:1354-1360 | a tab types AT+ at the start of a line and does nothing elsewhere |
| `SerialInput.ReturnsAreIgnored` | src/at_mode.cpp:1374-1377 | carriage returns, wherever they are, change neither the line nor the commands |
| `SerialInput.ReturnIsShown` | src/at_mode.cpp:1374-1377 | a carriage return is echoed and nothing else |
| `SerialInput.BackspaceTakesBack` | src/at_mode.cpp:1361-1367 | a backspace takes back the byte before it, and is echoed as backspace, blank, backspace; an empty line stays empty |
| `SerialInput.AtMode.SerialLoop` | src/serial_handler.cpp:80-92 | line, commands and echo are those of the byte stream, however it arrives and is cut into buffers of 128 bytes |
| `SerialInput.AtMode.ReadArrival` | src/serial_handler.cpp:82-91 | the same for what can be read at one time |
| `SerialInput.AtMode.ReadChunk` | src/serial_handler.cpp:83-88 | the next bytes of the stream, 128 at most |
| `SerialInput.SameBytesSameCommands` | src/serial_handler.cpp:80-92 | two streams with the same bytes lead to the same commands, whatever the times they arrive at |
| `SerialHandlers.SerialHandler.AddHandler` | src/serial_handler.cpp:56-61 | called after all others for data to transmit, and before all others for received data |
| `SerialHandlers.SerialHandler.WriteToTransmit` | src/serial_handler.cpp:100-116 | the invocations of the function the nesting theorems are about, in their order, for handlers with any state of their own; the locks are given back; terminates whatever the handlers call |
| `SerialHandlers.SerialHandler.WriteToReceive` | src/serial_handler.cpp:124-144 | the same for received data, last registered handler first, nothing for no data |
| `SerialHandlers.SerialHandler.InvokeHandlers` | src/serial_handler.cpp:109-141 | the loop over the handlers |
| `SerialHandlers.SerialHandler.InvokeHandler` | src/serial_handler.cpp:111-139 | one handler and all it calls |
| `SerialHandlers.SerialHandler.TakeStep` | src/serial_handler.cpp:111-139 | one call by a handler, which may depend on all that has happened |
| `SerialHandlers.InvocationsNested` | src/serial_handler.cpp:100-144 | whatever handlers do, also depending on what happened before, past invocations stay and new ones are never deeper than there were free locks, nor in a direction already locked |
| `SerialHandlers.AtMostTwoDeep` | src/serial_handler.cpp:100-144 | from a call at rest handlers are called at most two levels deep: on the first in its direction, on the second in the other |
| `SerialHandlers.EachHandlerOnce` | src/serial_handler.cpp:109-141 | each handler registered for the type, but the one left out, gets the data once and in order, whatever other handlers call |
| `SerialHandlers.DeliveredExactly` | src/serial_handler.cpp:109-141 | a handler gets the data if and only if it is registered with the flag of its type and is not the one left out |
| `SerialHandlers.CallIsHeardExactly` | src/serial_handler.cpp:100-144 | on the level of a call exactly the handlers registered for it get the data, in the order of its direction, if and only if the direction is not locked and received data is not empty; else nothing happens |
| `ByteBuffers.BufferStream.ChangeBuffer` | lib/KFCBaseLibrary/src/Buffer.cpp:286-317 | the capacity is the size rounded up to 8, the first bytes are kept; without memory everything is gone |
| `ByteBuffers.BufferStream.Reserve` | lib/KFCBaseLibrary/src/Buffer.cpp:319-347 | the capacity is at least the size, the contents stay; or everything is gone |
| `ByteBuffers.BufferStream.Shrink` | lib/KFCBaseLibrary/src/Buffer.cpp:349-359 | keeps the first bytes, as many as the size rounded up to 8 has, or as there are for size 0 |
| `ByteBuffers.BufferStream.Write` | lib/KFCBaseLibrary/src/Buffer.cpp:213-222 | appends; without memory for it everything is gone and 0 is returned; the capacity stays a multiple of 8 and never shrinks |
| `ByteBuffers.BufferStream.PutBytes` | lib/KFCBaseLibrary/src/Buffer.cpp:219-220 | the bytes are behind the contents, which stay |
| `ByteBuffers.BufferStream.Remove` | lib/KFCBaseLibrary/src/Buffer.cpp:235-251 | the contents without the range, which is cut at their end |
| `ByteBuffers.SpliceAt` | lib/KFCBaseLibrary/src/Buffer.cpp:235-251 | what is in front of a removed range stays, what is behind it moves up by its length, and nothing else is left |
| `ByteBuffers.BufferStream.MoveUp` | lib/KFCBaseLibrary/src/Buffer.cpp:247-250 | the bytes behind the range move up in place |
| `ByteBuffers.BufferStream.RemoveAndShrink` | lib/KFCBaseLibrary/src/Buffer.cpp:253-259 | the same, and the capacity is cut to what is left when more is free than asked for; then without memory everything is gone |
| `ByteBuffers.BufferStream.Assign` | lib/KFCBaseLibrary/src/Buffer.cpp:104-115 | contents and capacity of the other buffer, in memory of its own; without memory nothing |
| `ByteBuffers.BufferStream.Seek` | lib/KFCBaseLibrary/src/BufferStream.cpp:19-40 | the position is set if and only if it lies inside the contents, or at their end when counted from there; wrap-around never lets another one pass |
| `ByteBuffers.BufferStream.Read` | lib/KFCBaseLibrary/src/BufferStream.cpp:55-61 | the first unread byte, or -1 |
| `ByteBuffers.BufferStream.Peek` | lib/KFCBaseLibrary/src/BufferStream.cpp:63-69 | the first unread byte without taking it, or -1 |
| `ByteBuffers.BufferStream.ReadBytes` | lib/KFCBaseLibrary/src/BufferStream.cpp:71-80 | the first unread bytes, as many as fit and there are; the others stay unread |
| `ByteBuffers.BufferStream.Clear` | lib/KFCBaseLibrary/src/BufferStream.cpp:82-86 | nothing left, position 0, memory given back |
| `ByteBuffers.BufferStream.Reset` | lib/KFCBaseLibrary/src/BufferStream.cpp:88-92 | nothing left, position 0, memory kept |
| `ByteBuffers.RunFifo` | lib/KFCBaseLibrary/src/BufferStream.cpp:7-80 | for interleaved writes and reads of any sizes, what was read and what is unread make up what was written, and each read got as much as it could |
| `ByteBuffers.WriteAfterLoss` | lib/KFCBaseLibrary/src/BufferStream.cpp:55-80 | bytes written after contents were lost for want of memory are all found if and only if the position was 0 or there are none |

## Left out

Weaker than the code, or under a condition:

- ResponseEngine.AsyncBaseResponse.Ack: the client takes as much as it has space for. Once content has begun, the pending head fits the space, unless the framing is by content length; a chunked answer has at most 0xffff bytes. Outside of that the code leaves its allocation: exactly so for chunks, by the lemmas on window and header. The counters are not cut to 32 bits, and `new` does not fail.
- ResponseEngine.WireIsHeadThenContent: the pending head fits the space once content has begun, for content lengths too; where it does not, bytes are lost, by the lemma on what is handed over.
- ListingProducers.AsyncDirResponse.FillBuffer: the text of an entry is fixed, so that a time to live that changes between two calls is not modelled; texts fit the int16_t their length is kept in, and the reserved size, an int16_t too, has not become negative, as it does for buffers of less than 2 bytes and some of more than 0x8001.
- ListingProducers.AsyncNetworkScanResponse.FillBuffer: results do not change between calls, there are at most 127 networks, and the rendered rest of a row is shorter than 65536 bytes, which its 16-bit length needs.
- ListingStream.DocumentIsDelivered: buffers hold the opening and any single entry (for a scan, both together), and a part of a listing is short enough for the int16_t its length is returned in; smaller ones end the content early, exactly as stated by the lemmas on stalling. The result of a scan does not change during the response.
- SpeedTest.AsyncSpeedTestResponse.constructor: the width is given in place of the size it is the square root of, and is below 32768, where the size still fits an int32_t; the fields of the bitmap header are one text.
- SpeedTest.AsyncSpeedTestResponse.FillBuffer: the buffer has room for the header while that is due, as a comment in the code expects; with less the code leaves the buffer.
- SpeedTest.ImageIsDelivered: windows stay open behind the head; a closed one ends the content early, as stated for the engine.
- PluginStatus.PluginStatusStream.ReadBytes: the plugins and their status texts do not change while the page is read.
- ChunkedLists.List.EmplaceBack: the elements constructed in a chunk's storage are a sequence, and its pointer is a cursor or a link; when the test of its address tells the two apart is stated beside it. Destructors are not modelled.
- CircularBuffers.FixedCircularBuffer.PushBack: fewer than 2^32 pushes, before the counters wrap.
- CircularBuffers.FixedCircularBuffer.PopFront: only for buffers that are not empty, as the code needs it.
- CircularBuffers.FixedCircularBuffer.Slice: iterators in order and not more than the size apart, which the source has as a comment; with more, it writes behind its storage.
- CircularBuffers.FixedCircularBuffer.Shrink: iterators in order and not more than the size apart, as its users keep them. `copy` and loops over iterators need them in order to end.
- AdcReader.ReadADC.Read: fewer than 2^32 readings in the life of the buffer, before its counters wrap; the delay between readings is left out.
- IntelHex.IntelHexFormat.ReadBytes: the file is open and the file system has no read errors of its own.
- SwitchBlobs.WriteThenRead: fewer than 32768 switches; `SwitchBlobs.ComesBackExactly` has the condition for any number.
- NumberText.PrintNumber: bases up to 128; beyond, a digit depends on whether `char` has a sign.
- NumberText.NumberRoundTrip: values of `strtoll` are not cut to 64 bits.
- Timers.NeverEarly: delays below 2^31; `set` with a negative delay is modelled but nothing is claimed of it.
- PublishThrottle.LastRequestIsSent: a reset by `updateUI` only while no timer is outstanding, the exact condition for it; values are compared exactly, where JavaScript's `!=` also converts types.
- WebSocketClients.AsyncWebSocket.OnWsEvent: a client counts as connected from its connect to its disconnect event, and events for others are ignored; the server is registered.
- SerialInput.AtMode.SerialLoop: the line editor is the only handler, and AT mode is on.
- SerialHandlers.SerialHandler.WriteToTransmit: handlers neither add nor remove handlers while they are called, and a bound on how many calls a handler makes is settled when it is called; which calls, only step by step.
- ByteBuffers.BufferStream.Write: lengths below 2^31, where `int` can hold what is available.

Not modelled:

- Starting a WiFi scan and its lock, deleting its results.
- Sockets, SPIFFS, WiFi, GPIO, NeoPixel timing, OTA updates, logging, the HTML interface and the tkinter tool.
- The JSON, MDNS, file and template responses.
- Rendering of single JSON fields other than network names, and of head lines; checking session ids is a parameter.
- `push_back_timeout` and `printTo` of the circular buffer; uninitialised members in its move constructor and in those of `chunked_list`; `capacity` of `chunked_list`.
- `setBuffer`, `setLength`, `move`, `getNulByteString` of the byte buffer, and `charAt` of its stream.
- Lookup tables such as action names, menus and default settings.
