# Proofs about the WebSocket stack and the key table

The repository ships two WebSocket implementations, websocketpp and easywsclient, the small codecs
they stand on, and a key rollover table for a HID driver. This project models the parts of them
that carry state or arithmetic, in Dafny 4.11, and proves what each is for.

`dafny verify dfyconfig.toml` checks the whole project.

## What is modelled

**The connection** (`Connection*.dfy`). A websocketpp connection is shared by application threads,
which call `send`, `ping`, `pong` and `close`, and by one strand, which runs the completions of the
transport. `ConnectionMachine` is that protocol as a state machine whose steps are the stretches
between two points at which another thread can step in; `send` and `close` are split where they let
go of a lock or test a state they do not hold the lock for. The processor and the transport are free
to answer anything, at any time; the only things taken from the transport are that a gather write
completes once, that a shutdown completes once, and that what is dispatched through it runs on the
strand when the strand is idle, as the asio transport has it. `ConnectionPipeline` holds the invariant
of the write pipeline and its consequences over every run, `ConnectionFlush` that every schedule empties it,
`ConnectionLifecycle` the session state and the user handlers, `ConnectionOutcomes` which answers of
the peer open a connection, have to be answered, or make a close clean, and `ConnectionRaces` three
runs in which the code does not keep what it promises. `ConnectionCalls` says which steps a whole call takes,
and `ConnectionObject` is the class itself, method by method over its fields: every public method
moves the object along a run of the protocol, so the theorems about runs hold of every object.

Three promises of the connection fail in some interleavings, and each is proved with its exact
condition. The session state can move back, and the close handler fire twice, because `terminate`
takes no lock; and a client whose extension negotiation fails is terminated and then opened all the
same. The state moves forward, and the connection ends exactly once, if and only if neither of these
two steps is taken (`SessionMovesForward`, `LifecycleHandlers`), and then the handlers fire in order.
A data frame can follow a close frame because `send` checks the state under one lock and pushes under
another; none does if and only if no push finds a close frame already pushed (`NoDataAfterClose`).
A caller gets all of it back by not letting public calls be interrupted, and, for the handlers only,
with negotiation successful (`AtomicCallsKeepCloseLast`, `AtomicCallsKeepOrder`).

**Masking and headers** (`Masking.dfy`, `FrameHeader.dfy`). The word-wise masking loops, with a word
as its bytes, for four and eight bytes and both byte orders, refine byte masking over any cut of the
stream. The header writer and readers of websocketpp are inverse for every field, size and key.

**easywsclient** (`EasyFrames.dfy`, `EasySocket.dfy`). Its header writer agrees with websocketpp's,
its streaming parser with both, for any bytes in any chunks; and whole runs of a client keep every
byte in order, move as many as the socket takes, and end with at most one close frame. Two clients joined by their bytes deliver
exactly the messages sent.

**UTF-8 and hybi-00** (`Utf8.dfy`, `Hybi00.dfy`). The table-driven automaton accepts exactly the
grammar of section 4 of RFC 3629, which is exactly the encodings of section 3; and the framing by
0x00 and 0xFF is unambiguous because of that.

**MD5, Base64, HTTP lists, URIs** (`Md5.dfy`, `Base64.dfy`, `HttpParser.dfy`, `Uri.dfy`). Block
buffering with a split count and the padding of RFC 1321, for any compression function; the two
Base64 loops with both round trips; the cursor parsers for tokens, quoted strings, white space and
parameter lists; the URI parser and printer. Two properties hold only under a condition, and it is
proved to be the exact one: a quoted string reads back if and only if the value does not end in a
backslash, and a URI survives printing if and only if its host has no colon or slash and no bracket
in front, which leaves out bracketed IPv6 hosts, whose brackets `str` does not print.

**Keys** (`Keys.dfy`). Five slots as a bounded set, and the reports sent to the driver, modifier byte
and usages. A press of a key outside the table reports no held key at all; the report is right exactly when that is not so or
no key is held.

`Bytes.dfy` has octets, the bitwise operations and the sequences the others share.

## How the modules are built

Each source class or loop appears twice: as functions on values, about which the theorems are
stated, and as a class or a method with the loops and fields of the source, whose contract ties it
to those functions. A reference definition that does not mention the code (a grammar, a layout, a
bounded set, the padding rule) stands on the other side of each theorem.

## Model

| member | source | states |
|---|---|---|
| `ConnectionPipeline.StepKeeps` | websocketpp/impl/connection_impl.hpp:1793-1928 | every step of every thread, in any state that satisfies it, keeps the pipeline invariant: buffered size, conservation, one writer, terminals last, nobody asleep over a non-empty queue |
| `ConnectionPipeline.NoLostWakeup` | websocketpp/impl/connection_impl.hpp:123-149 | over every interleaving from the start: a non-empty queue with the write flag clear has a write_frame dispatched or a thread about to dispatch one; and when the strand is idle, nothing is dispatched, in flight or dead, everything ever pushed has been written |
| `ConnectionPipeline.FifoConservation` | websocketpp/impl/connection_impl.hpp:1793-1928 | over every interleaving: messages settled, then the current batch, then the queue are exactly the messages pushed, in push order; what the transport was handed is a prefix of that; m_send_buffer_size is the payload still queued |
| `ConnectionPipeline.SingleWriterAndFinality` | websocketpp/impl/connection_impl.hpp:1803-1928 | over every interleaving and every continuation: a batch is handed over only when no write is outstanding and the batch is not empty; no batch is kept while the flag is clear; a terminal message is the last thing handed to the transport; after it, or after a failed write, nothing more is |
| `ConnectionPipeline.CompletionHasBatch` | websocketpp/impl/connection_impl.hpp:1889-1906 | over every run from the start: whenever a write is outstanding and the strand idle there is a batch, so the completion that reads its last message unasked can run, failed or not |
| `ConnectionPipeline.DeadIsFinal` | websocketpp/impl/connection_impl.hpp:1901-1911 | once a write has failed or a terminal message was written, no continuation hands the transport anything |
| `ConnectionFlush.Flush` | websocketpp/impl/connection_impl.hpp:1912-1928 | progress: from every state the invariant allows there is a schedule, with no further call of the application and every write succeeding, that ends with everything pushed written, unless the pipeline is dead |
| `ConnectionFlush.WorkBound` | websocketpp/impl/connection_impl.hpp:1793-1928 | over any run, whatever the schedule and whether writes fail, the steps of write_frame and its completions are bounded by the work at hand plus a constant for each push: the pipeline never churns |
| `ConnectionFlush.EveryScheduleFlushes` | websocketpp/impl/connection_impl.hpp:1793-1928 | every maximal schedule flushes: over every run from the start the pipeline takes at most twelve steps for each push, and where it can take no more, everything pushed has been written unless it is dead |
| `ConnectionLifecycle.ForwardStep` | websocketpp/impl/connection_impl.hpp:1698-1748 | a step moves the session state forward or leaves it, exactly unless it is a late mark of close() on a closed session or the client going on after a failed extension negotiation |
| `ConnectionLifecycle.SessionMovesForward` | websocketpp/impl/connection_impl.hpp:304-323 | over every run, the session state only moves forward if and only if neither of those two steps is taken |
| `ConnectionLifecycle.LifecycleHandlers` | websocketpp/impl/connection_impl.hpp:1751-1790 | over every run: the connection ends exactly once, counting the ending still to come, if and only if neither of those two steps is taken, so when all is over exactly one shutdown has completed if and only if neither was; and then open fires at most once, fail and close together at most once, close only after open, fail only if open never fired, neither while the session is alive, and a completed shutdown of an opened connection has fired close exactly once |
| `ConnectionLifecycle.TidyExactly` | websocketpp/impl/connection_impl.hpp:1698-1790 | the counters of shutdowns and handlers are consistent with one ending, failed exactly if open never fired, if and only if the run that led to them was orderly |
| `ConnectionLifecycle.NoDataAfterClose` | websocketpp/impl/connection_impl.hpp:110-141 | over every run: only close frames follow a close frame if and only if no send, ping or pong pushes when a close frame already was, a guard the push could check under the write lock; each push that still finds the session open meets it; and once a close frame has been pushed the session is closing or closed |
| `ConnectionLifecycle.AtomicCallsKeepOrder` | websocketpp/impl/connection_impl.hpp:304-323 | with public calls not interrupted and extension negotiation successful, over every run the session state moves forward and the handlers fire in order |
| `ConnectionLifecycle.AtomicCallsKeepCloseLast` | websocketpp/impl/connection_impl.hpp:104-323 | with public calls not interrupted, over every run, negotiated or not, only close frames follow a close frame |
| `ConnectionRaces.DataAfterClose` | websocketpp/impl/connection_impl.hpp:110-141 | a run, for any data and close frame, in which the data frame is pushed behind the close frame because send gives up the state lock before it pushes |
| `ConnectionRaces.CloseHandlerTwice` | websocketpp/impl/connection_impl.hpp:1698-1748 | a run in which terminate, which takes no lock, comes between the check and the assignment of close(), and the close handler fires twice |
| `ConnectionRaces.OpenAndFail` | websocketpp/impl/connection_impl.hpp:1619-1641 | a run in which a client whose extension negotiation fails fires both its open and its fail handler |
| `ConnectionCalls.SendCall` | websocketpp/impl/connection_impl.hpp:104-292 | an uninterrupted send, ping or pong is a run of the protocol that ends with the message queued, write_frame dispatched exactly if nobody holds the flag, and nothing else changed |
| `ConnectionCalls.CloseCall` | websocketpp/impl/connection_impl.hpp:304-323 | an uninterrupted close is a run that marks the session, queues the frame and dispatches write_frame exactly if nobody holds the flag, or changes nothing |
| `ConnectionCalls.WriteFrameCall` | websocketpp/impl/connection_impl.hpp:1793-1886 | a run of write_frame adds its batch to what the transport was handed, and has a write outstanding, exactly when it found the flag clear and something queued |
| `ConnectionCalls.CompletionCall` | websocketpp/impl/connection_impl.hpp:1889-1928 | a completion is a run that ends the connection, or gives the flag back and has write_frame dispatched exactly if something is queued |
| `ConnectionCalls.ReceivedCloseCall` | websocketpp/impl/connection_impl.hpp:1937-2055 | a received close frame is a run of the protocol; well-formed in the open session it ends closing and clean with the acknowledgement queued and the writer woken, as the acknowledgement it makes the session clean and ends a server, malformed with dropping configured it ends the connection with an error |
| `ConnectionCalls.ResponseCall` | websocketpp/impl/connection_impl.hpp:1546-1663 | the client handshake is one step of the protocol, or two when negotiation fails; where the handshake is at reading the response and without error it opens on an accepted response, terminates and opens on a failed negotiation, reads on from an incomplete one; a closed connection ignores success and end of file; everything else terminates |
| `ConnectionCalls.ShutdownFiresOnce` | websocketpp/impl/connection_impl.hpp:1751-1790 | while the run so far is orderly, a completed shutdown is the last and only one: no handler has fired before, and it is the close handler exactly if open has |
| `ConnectionOutcomes.OpensExactly` | websocketpp/impl/connection_impl.hpp:1351-1663 | over every run, a connection has called its open handler exactly if it has, once, read an accepted response or one whose negotiation failed, or written status 101, without error and where the handshake waits for it; only between a failed negotiation and its fall through is the call still to come |
| `ConnectionOutcomes.CloseFrameIsAnswered` | websocketpp/impl/connection_impl.hpp:1937-2055 | whatever happens after a well-formed close frame met in the open session, or a malformed one or a protocol error where the configuration does not drop the connection: the strand does nothing else until it has pushed a close frame, unless none could be prepared; section 5.5.1 of RFC 6455 |
| `ConnectionOutcomes.CloseFrameAnswer` | websocketpp/impl/connection_impl.hpp:2020-2029 | and uninterrupted it does so at once: the session is closing and clean, the frame is the last pushed and the last queued, and nothing else about the lifecycle changes |
| `ConnectionOutcomes.CleanExactly` | websocketpp/impl/connection_impl.hpp:2030-2047 | over every run, the close is clean exactly if an acknowledgement of the close frame of the peer was marked or a well-formed close frame came while the session was closing |
| `ConnectionObject.WsConnection.ObjectKeepsPromises` | websocketpp/impl/connection_impl.hpp:104-2248 | every object, whatever methods were called on it in whatever order, has its buffered size right, nothing lost or reordered, no batch without the flag, a writer awake over a non-empty queue, and its session over or ending once a close frame is queued; and the bytes async_write was given are header then payload of the messages handed over, which are the first ones pushed, in push order |
| `ConnectionObject.WsConnection.WritePush` | websocketpp/impl/connection_impl.hpp:2210-2225 | write_push appends the message and adds its payload to the buffered size, as the push of the concurrent model |
| `ConnectionObject.WsConnection.WritePop` | websocketpp/impl/connection_impl.hpp:2228-2248 | write_pop takes the oldest message and keeps the buffered size equal to the queued payload; nothing on an empty queue |
| `ConnectionObject.WsConnection.DrainQueue` | websocketpp/impl/connection_impl.hpp:1807-1818 | the loop moves the messages up to and including the first terminal one, and no more, in order |
| `ConnectionObject.WsConnection.Gather` | websocketpp/impl/connection_impl.hpp:1831-1838 | twice as many buffers as messages: number 2 * i is the header of message i of the batch and number 2 * i + 1 its payload |
| `ConnectionObject.WsConnection.WriteFrame` | websocketpp/impl/connection_impl.hpp:1793-1886 | write_frame on the fields takes the steps of the protocol: no effect while the flag is set; otherwise it writes exactly if anything is queued, everything up to the first terminal message and nothing behind it, the header of each before its payload, and those bytes are what the transport is given |
| `ConnectionObject.WsConnection.TakeBatch` | websocketpp/impl/connection_impl.hpp:1793-1838 | the draining loop, the flag and the gathering loop on the fields: batch and rest are the queue, the batch stops at the first terminal message and only there, and it goes out header before payload |
| `ConnectionObject.WsConnection.HandleWriteFrame` | websocketpp/impl/connection_impl.hpp:1889-1928 | a completion on the fields takes the steps of the protocol; that there is a batch is not asked of the caller but follows; on failure or after a terminal message it keeps the flag and closes the session, with the error kept if there is one, otherwise it gives the flag back and dispatches exactly if something is queued |
| `ConnectionObject.WsConnection.Send` | websocketpp/impl/connection_impl.hpp:104-292 | send, ping and pong, uninterrupted, as the two parts below in a row: only from the open session, and one write_frame more dispatched exactly when nobody holds the flag |
| `ConnectionObject.WsConnection.CheckOpen` | websocketpp/impl/connection_impl.hpp:110-115 | the part of send under the state lock: one more thread past the check, exactly if the session is open |
| `ConnectionObject.WsConnection.PushChecked` | websocketpp/impl/connection_impl.hpp:117-142 | the part of send under the write lock, with any other calls in between: the message is pushed whatever the session is by then, and a dispatch is asked for exactly when the protocol counts one more thread on its way to it |
| `ConnectionObject.WsConnection.CloseConnection` | websocketpp/impl/connection_impl.hpp:304-323 | close on the fields takes the steps of the protocol; it sends only from the open session; the session is closing and one write_frame more dispatched, if nobody holds the flag, exactly when the frame was pushed |
| `ConnectionObject.WsConnection.SendCloseFrame` | websocketpp/impl/connection_impl.hpp:2065-2158 | a close frame that could be prepared marks the session, and clean on an acknowledgement, and is pushed; one that could not leaves every field alone |
| `ConnectionObject.WsConnection.ProcessClose` | websocketpp/impl/connection_impl.hpp:1937-2055 | a received close frame, case by case: open and well-formed, or malformed and not dropped, with an acknowledgement prepared, makes the session closing and clean, queues the acknowledgement and dispatches exactly when nobody holds the flag; closing and not yet clean becomes clean and ends a server; malformed and dropped ends with the error; closed, already clean or without a prepared acknowledgement nothing changes |
| `ConnectionObject.WsConnection.AnswerClose` | websocketpp/impl/connection_impl.hpp:1937-2055 | the fields of process_control_frame for a close frame, with the same outcome in every case |
| `ConnectionObject.WsConnection.End` | websocketpp/impl/connection_impl.hpp:1698-1748 | terminate: the session is closed and an error is kept; the shutdown asked for is the failed one exactly from connecting, none exactly when already closed, and the closed one otherwise |
| `ConnectionObject.WsConnection.HandleReadHttpResponse` | websocketpp/impl/connection_impl.hpp:1546-1663 | the client handshake, case by case: it opens exactly on an accepted response, or one whose negotiation failed, read without error while connecting and waiting for it; a malformed or rejected one closes as failed; an incomplete one changes nothing; a transport error or a wrong state closes with that error; a closed connection ignores success and end of file |
| `ConnectionObject.WsConnection.ReadResponse` | websocketpp/impl/connection_impl.hpp:1546-1663 | the fields of that handler, with the same outcome in every case |
| `ConnectionObject.WsConnection.HandleWriteHttpResponse` | websocketpp/impl/connection_impl.hpp:1351-1431 | the server handshake, case by case: it opens exactly on status 101 written without error while connecting and waiting for it; another status closes as failed with its error; a transport error or a wrong state closes with that error; a closed connection ignores success and end of file |
| `ConnectionObject.WsConnection.WroteResponse` | websocketpp/impl/connection_impl.hpp:1351-1431 | the fields of that handler, with the same outcome in every case |
| `ConnectionObject.WsConnection.StartReadFrame` | websocketpp/impl/connection_impl.hpp:965-1015 | a read goes on exactly without error and once the handshake is over; the end of the stream ends a closing client cleanly, its last error kept; on a closed session the end of the stream and a wrong state are dropped; every other error closes with that error |
| `ConnectionObject.WsConnection.StartRead` | websocketpp/impl/connection_impl.hpp:965-1015 | the fields of the beginning of handle_read_frame, with the same outcome in every case |
| `ConnectionObject.WsConnection.HandleTerminate` | websocketpp/impl/connection_impl.hpp:1751-1790 | a completed shutdown calls the close handler if it is not the failed one, otherwise the fail handler unless the connection ended as plain HTTP, each as often as the protocol counts it; while the run so far is orderly it is the first and only call, close exactly if open has fired |
| `Masking.ByteShiftIsArithmetic` | websocketpp/frame.hpp:612-623 | a shift of a word by any number n of bytes, as a move of its base-256 digits, is division by 256 to the n or multiplication by it modulo the word size |
| `Masking.PrepareHolds` | websocketpp/frame.hpp:595-604 | a prepared key, seen in memory, is the masking key repeated, for both word sizes and byte orders |
| `Masking.CircshiftRotates` | websocketpp/frame.hpp:612-623 | the shift-and-or code rotates the bytes of the word in memory by the offset, for both word sizes and byte orders |
| `Masking.CircshiftHolds` | websocketpp/frame.hpp:612-623 | a word that holds the key from stream position p, shifted by what is left of n bytes after whole words, holds it from p + n |
| `Masking.MaskedTwice` | websocketpp/frame.hpp:644-655 | masking is its own inverse, for any bytes, key and offset |
| `Masking.MaskedBits` | websocketpp/frame.hpp:644-655 | bit by bit: a bit of octet i is flipped exactly where octet (position + i) modulo 4 of the key has a one |
| `Masking.ByteMask` | websocketpp/frame.hpp:644-655 | byte_mask writes section 5.3 of RFC 6455 from the given key offset and touches nothing beyond the range |
| `Masking.WordMaskExact` | websocketpp/frame.hpp:702-717 | word_mask_exact writes the same bytes as one byte_mask, for both word sizes and byte orders, in place or not |
| `Masking.WordMaskCirc` | websocketpp/frame.hpp:768-789 | word_mask_circ refines the chunk function: masked bytes and the rotated key for the next chunk |
| `Masking.ByteMaskCirc` | websocketpp/frame.hpp:830-841 | byte_mask_circ refines the chunk function from the low 32 bits of the prepared key |
| `Masking.ChunkHolds` | websocketpp/frame.hpp:768-841 | one chunk by either routine: the bytes of byte_mask at that stream position, and a key that is right for the next position |
| `Masking.StreamingRefinesByteMask` | websocketpp/frame.hpp:768-841 | any payload, cut into any chunks, each masked by either routine with the returned key fed forward, gives the bytes of one byte_mask over the whole |
| `Masking.StreamRoundTrip` | websocketpp/frame.hpp:768-841 | sender and receiver may cut the stream differently and run on machines of different word size and byte order: the receiver gets the payload |
| `FrameHeader.FirstByteOr` | websocketpp/frame.hpp:194-210 | the or-ed flags and opcode do not overlap: the byte is the sum of the bits at the places of section 5.2 of RFC 6455 |
| `FrameHeader.BasicFields` | websocketpp/frame.hpp:321-433 | every flag, the opcode, the mask bit and the size code are read back from the two bytes, for all values |
| `FrameHeader.HeaderLayout` | websocketpp/frame.hpp:489-502 | the bytes sent are the two fixed ones, the size in its shortest form in network order, and the key only if masked |
| `FrameHeader.HeaderRoundTrip` | websocketpp/frame.hpp:445-585 | for all fields, all 64-bit sizes and all keys: the readers recover every field from the bytes that were sent, whatever fills the rest of the extended block, and get_header_len is their number |
| `FrameHeader.ExtendedHeader.CopyPayload` | websocketpp/frame.hpp:260-274 | copy_payload leaves the size in its shortest network form at the front and zeros behind it, and returns its length |
| `FrameHeader.ExtendedHeader.Masked` | websocketpp/frame.hpp:246-256 | the constructor with a key puts the key right behind the size |
| `EasyFrames.HeadersAgree` | cloudGame/include/easywsclient.cpp:433-473 | for every opcode, size, key and mask setting the header sendData builds is byte for byte the one websocketpp builds for a final frame with the reserved bits clear |
| `EasyFrames.ParseHeader` | cloudGame/include/easywsclient.cpp:308-369 | a parsed header has header_size at most 14 and a size below 2^63, and their sum never overflows 64 bits, as the comment hopes |
| `EasyFrames.ParseHeaderRoundTrip` | cloudGame/include/easywsclient.cpp:308-365 | the parser reads back every header websocketpp writes that announces less than 2^63 bytes, whatever follows, and refuses every longer one |
| `EasyFrames.NextFrameRoundTrip` | cloudGame/include/easywsclient.cpp:306-403 | a frame on the wire, masked or not, is found again with its payload unmasked and exactly its own bytes consumed, whatever follows |
| `EasyFrames.ReceiveMore` | cloudGame/include/easywsclient.cpp:301-405 | for any bytes at all, valid or not: dispatching before more bytes arrive changes neither the final input state nor the callbacks, pongs and closes |
| `EasyFrames.ReceiveSettles` | cloudGame/include/easywsclient.cpp:301-405 | a second dispatch with nothing new to read does nothing |
| `EasyFrames.ChunksDoNotMatter` | cloudGame/include/easywsclient.cpp:301-405 | any bytes in any chunks with a dispatch after each end in the state of one dispatch of the whole, with the same events |
| `EasyFrames.FragmentsJoined` | cloudGame/include/easywsclient.cpp:373-392 | fragments are held back and delivered as one message at the frame with FIN, and pings and pongs between them are answered without disturbing it |
| `EasyFrames.FramesRoundTrip` | cloudGame/include/easywsclient.cpp:301-405 | any list of frames below 2^63 bytes, with any header bits, masked with any keys or not, in any chunks, does exactly what the frames mean and leaves no byte behind |
| `EasyFrames.OversizedEndsIt` | cloudGame/include/easywsclient.cpp:338-353 | whole frames, then a header that announces 2^63 bytes or more, then anything, in any chunks: the frames do what they mean, the client is told to close once, and nothing that comes later is heard |
| `EasySocket.BytesConserved` | cloudGame/include/easywsclient.cpp:249-278 | over any run of sends, closes, polls and dispatches, whatever the socket accepts: the bytes taken by the socket followed by txbuf are exactly the bytes of the frames appended, in order, and the socket has taken exactly as many as the scripts of the polls let it |
| `EasySocket.PollMoves` | cloudGame/include/easywsclient.cpp:220-271 | in terms of the scripts alone: a poll of a client that is not closed moves exactly the first bytes of txbuf to the socket, as many as the leading sends that take something take in all, at most all of it, and appends exactly the bytes of the leading reads that bring something to rxbuf |
| `EasySocket.CloseDiscipline` | cloudGame/include/easywsclient.cpp:485-504 | over any run: readyState never moves back, at most one close frame is appended, nothing is appended after it, and from then on the state is CLOSING or CLOSED |
| `EasySocket.PollEffect` | cloudGame/include/easywsclient.cpp:201-279 | after a poll a client is closed if and only if it was, or the reads stop at an error or the end of the stream, or the sends stop at a failure with bytes still waiting, or it was closing and has written everything; otherwise its state is what it was; a closed one is left alone altogether |
| `EasySocket.AnswersExactly` | cloudGame/include/easywsclient.cpp:386-401 | any frames are answered by a pong with the same payload for each ping, and one close frame for the first close or unknown frame and nothing after it, while the client is open, and by nothing otherwise |
| `EasySocket.DispatchAnswers` | cloudGame/include/easywsclient.cpp:301-405 | a dispatch of whole frames appends exactly those answers |
| `EasySocket.ReadingIsOneDispatch` | cloudGame/include/easywsclient.cpp:301-405 | over any run, what is called back and the input state after a last dispatch are those of one dispatch of all bytes read, whatever was sent, closed or dispatched in between |
| `EasySocket.EndToEnd` | cloudGame/include/easywsclient.cpp:424-483 | two clients, each in any run: when the second has read all the bytes the first appended, it has called back with exactly the text and binary messages the first was asked to send while open, in order, and holds nothing back |
| `EasySocket.NothingOutOfOrder` | cloudGame/include/easywsclient.cpp:301-483 | and at any moment before that, with a prefix of those messages |
| `EasySocket.OversizedCloses` | cloudGame/include/easywsclient.cpp:338-353 | a header that announces 2^63 bytes or more makes an open client close, with its close frame appended and the state moved on, and calls nobody |
| `EasySocket.WebSocket.SendData` | cloudGame/include/easywsclient.cpp:424-483 | sendData appends the whole frame, masked with the fixed key or not, exactly while the client is open, and is the send step |
| `EasySocket.WebSocket.AppendFrame` | cloudGame/include/easywsclient.cpp:433-482 | header, payload and the masking loop over txbuf append exactly one encoded frame and leave the earlier bytes alone |
| `EasySocket.BuildHeader` | cloudGame/include/easywsclient.cpp:433-473 | the three cases of the header switch fill every byte of the header |
| `EasySocket.WebSocket.Close` | cloudGame/include/easywsclient.cpp:485-504 | close on an open client appends the six bytes of the close frame and moves the state on; otherwise it changes nothing |
| `EasySocket.WebSocket.HandleFrame` | cloudGame/include/easywsclient.cpp:371-403 | unmasking in place, joining, calling back, answering or closing, and erasing one frame from rxbuf |
| `EasySocket.WebSocket.DispatchBinary` | cloudGame/include/easywsclient.cpp:301-405 | the loop over rxbuf refines the dispatch step, with everything its frames make it send |
| `EasySocket.WebSocket.Poll` | cloudGame/include/easywsclient.cpp:201-279 | the poll step on the buffers, from the scripts alone: which bytes leave txbuf for the socket, which arrive in rxbuf, and exactly when the client is closed afterwards |
| `EasySocket.WebSocket.PollRecv` | cloudGame/include/easywsclient.cpp:220-248 | the receive loop: the bytes of the leading reads, all of them in order, and closed exactly if the reads stop at an error or the end of the stream |
| `EasySocket.WebSocket.PollSend` | cloudGame/include/easywsclient.cpp:249-271 | the send loop: exactly as many bytes from the front of txbuf as the leading sends take, and closed exactly if the sends stop at a failure with bytes still waiting |
| `Utf8.ClassRanges` | websocketpp/utf8_validator.hpp:45-55 | the byte half of the table, range by range |
| `Utf8.RunConcat` | websocketpp/utf8_validator.hpp:105-117 | decoding any split agrees with decoding the whole, in state and code point |
| `Utf8.RejectAbsorbs` | websocketpp/utf8_validator.hpp:55-60 | no bytes lead out of reject |
| `Utf8.AcceptsExactly` | websocketpp/utf8_validator.hpp:45-78 | the automaton ends in accept exactly on the concatenations of characters of the grammar in section 4 of RFC 3629 |
| `Utf8.CharIsEncode` | websocketpp/utf8_validator.hpp:69-78 | each character of the grammar encodes exactly one scalar value of section 3 |
| `Utf8.EncodeIsChar` | websocketpp/utf8_validator.hpp:69-78 | and each scalar value has its character |
| `Utf8.DecodesChar` | websocketpp/utf8_validator.hpp:69-78 | one character brings the automaton back to accept exactly at its end, with codep equal to the encoded scalar value, whatever codep was before |
| `Utf8.DecodesAll` | websocketpp/utf8_validator.hpp:69-78 | for any list of scalar values, the code points held at the returns to accept are that list |
| `Utf8.ValidIsEncoded` | websocketpp/utf8_validator.hpp:69-78 | the strings accepted are exactly the encodings of lists of scalar values, and decoding an accepted string and encoding it again gives the string |
| `Utf8.Validator.Decode` | websocketpp/utf8_validator.hpp:105-117 | decode over a range keeps the automaton in step and stops at the first byte that leads to reject |
| `Utf8.Validate` | websocketpp/utf8_validator.hpp:143-149 | validate holds exactly on well-formed UTF-8 |
| `Utf8.ValidatePieces` | websocketpp/utf8_validator.hpp:81-133 | a message validated as its pieces arrive is valid exactly when the whole of it is |
| `Hybi00.CutsDoNotMatter` | websocketpp/impl/connection_impl.hpp:1032-1103 | for any bytes, what is delivered and the state left behind do not depend on how the stream is cut into reads |
| `Hybi00.TextHasNoFF` | websocketpp/utf8_validator.hpp:143-149 | validated text never contains the footer byte |
| `Hybi00.FramingExactly` | websocketpp/processors/hybi00.hpp:329-363 | a frame comes out as the payload it was made of exactly when the payload has no 0xFF |
| `Hybi00.RoundTrip` | websocketpp/processors/hybi00.hpp:252-322 | any messages prepare_data_frame accepts, one after another on the wire and cut into any reads, come out of the byte-by-byte receiver unchanged and in order, and leave it before the next frame; sections 4.2 and 5.3 of draft-ietf-hybi-thewebsocketprotocol-00 |
| `Hybi00.StreamExactly` | websocketpp/processors/hybi00.hpp:252-322 | for any stream: the messages are those of its whole frames, and the rest leaves the receiver before a frame if there is none, past a violation if it does not begin with 0x00, and inside a frame otherwise |
| `Hybi00.SplitStream` | websocketpp/processors/hybi00.hpp:252-322 | and every stream of bytes is whole frames and such a rest |
| `Hybi00.ReceiveAll` | websocketpp/impl/connection_impl.hpp:1032-1103 | the consume, ready, get_message loop itself, given those reads one after another: it goes on reading to the end, takes exactly the messages sent, in order, and calls the handler with those that find the session open |
| `Hybi00.PrepareDataFrame` | websocketpp/processors/hybi00.hpp:329-363 | refuses what is not text and what is not UTF-8, each with its own error, and frames the rest |
| `Hybi00.Processor.Consume` | websocketpp/processors/hybi00.hpp:252-299 | consume meets a violation exactly before a frame on a first byte that is not 0x00; it stops with a message ready right behind the first footer, the message being the payload bytes before it; its count and state are those of the byte-by-byte receiver; with a message ready, past a violation or given nothing it takes nothing and changes nothing |
| `Hybi00.Processor.Receive` | websocketpp/impl/connection_impl.hpp:1032-1103 | the consume, ready, get_message loop over a read takes the messages the byte-by-byte receiver takes, and calls the handler with exactly those that find the session open, whenever it is |
| `Hybi00.OpenForPrefix` | websocketpp/impl/connection_impl.hpp:1090-1098 | a session that stays open for k messages has the handler called with exactly the first k |
| `Md5.StreamingIsOneShot` | websocketpp/common/md5.hpp:357-391 | for any cut of a message into appends and any compression function, the digest words, the buffered tail and the 64-bit count are those of a single append |
| `Md5.LengthArithmetic` | websocketpp/common/md5.hpp:366-370 | the two 32-bit words with the carry are the bit count modulo 2^64, for any number of bytes |
| `Md5.PadLengthIsRfc` | websocketpp/common/md5.hpp:406-407 | the padding length taken from the low word is that of section 3.1 of RFC 1321 for every message length |
| `Md5.FinishIsPadding` | websocketpp/common/md5.hpp:393-412 | what is compressed is exactly the message with the padding of sections 3.1 and 3.2, it ends on a block boundary, and the digest is the hash of the message |
| `Md5.PaddedLayout` | websocketpp/common/md5.hpp:393-412 | the padded message byte for byte: the message, 0x80, zeros, and the bit count modulo 2^64 in the last eight bytes, low-order first, up to a block boundary within one block |
| `Md5.BlocksInOrder` | websocketpp/common/md5.hpp:384-386 | two blocks are compressed in order, the second into what the first left |
| `Md5.InitialBytes` | websocketpp/common/md5.hpp:349-355 | the initial words written out are 01 23 45 67 89 ab cd ef fe dc ba 98 76 54 32 10; section 3.3 of RFC 1321 |
| `Md5.Md5State.UpdateLength` | websocketpp/common/md5.hpp:366-370 | the count moves by eight times the bytes modulo 2^64, and the buffer offset with it |
| `Md5.Md5State.Consume` | websocketpp/common/md5.hpp:372-390 | partial block, whole blocks and tail: every byte is compressed once, in order, or buffered |
| `Md5.Md5State.Append` | websocketpp/common/md5.hpp:357-391 | md5_append on the words and the buffer refines one append of the streaming state |
| `Md5.Md5State.Finish` | websocketpp/common/md5.hpp:393-412 | md5_finish on the words and the buffer, with the digest serialised low byte first |
| `Md5.HashString` | websocketpp/common/md5.hpp:415-429 | init, any appends and finish give the hash of the whole message |
| `Base64.AlphabetExactly` | websocketpp/base64/base64.hpp:43-58 | is_base64 accepts exactly the alphabet, find inverts it, and yields 255 as an unsigned char outside it |
| `Base64.SymbolCodes` | websocketpp/base64/base64.hpp:43-49 | the alphabet is table 1 of RFC 4648: the letters, the digits, plus and slash, in that order |
| `Base64.EncodeLength` | websocketpp/base64/base64.hpp:66-112 | the encoded length is 4 * ceil(n / 3) |
| `Base64.RoundTrip` | websocketpp/base64/base64.hpp:66-174 | decoding the encoding of any bytes gives the bytes; section 4 of RFC 4648 |
| `Base64.GroupIsNumber` | websocketpp/base64/base64.hpp:76-81 | the four symbols of a group, as digits to base 64, are the number the three octets are to base 256 |
| `Base64.EncodeAt` | websocketpp/base64/base64.hpp:66-112 | group k of an encoding is the symbols of octets 3k to 3k + 2, the last group padded with one or two equals signs for the octets it lacks |
| `Base64.TestVectors` | websocketpp/base64/base64.hpp:66-112 | the encodings of foobar, fooba and foob of section 10 of RFC 4648 |
| `Base64.FillerNeverReachesOutput` | websocketpp/base64/base64.hpp:157-171 | whatever stands for the missing symbols of a last group, the octets that are kept do not depend on it |
| `Base64.EncodeOfDecodeExactly` | websocketpp/base64/base64.hpp:131-174 | encoding what was decoded gives the string back exactly when it is canonical: whole groups, padding at the end, pad bits zero |
| `Base64.SplitGroup` | websocketpp/base64/base64.hpp:76-81 | the masks and shifts cut the twenty-four bits of a group into sixes |
| `Base64.EncodeBuffer` | websocketpp/base64/base64.hpp:66-112 | the encoder loop computes the encoding of section 4 |
| `Base64.DecodeString` | websocketpp/base64/base64.hpp:131-174 | the decoder loop decodes the symbols before the first character outside the alphabet |
| `Base64.DecodeRest` | websocketpp/base64/base64.hpp:157-171 | the last partial group, with its NUL filler looked up in the alphabet |
| `HttpParser.TokenCharExactly` | websocketpp/http/constants.hpp:78-100 | the token table is exactly section 2.2 of RFC 2616: no control, no separator |
| `HttpParser.QuotedStringExactly` | websocketpp/http/parser.hpp:91-127 | a quoted and escaped value reads back as itself, with everything after it left alone, exactly when it does not end in a backslash |
| `HttpParser.LoneBackslashIsLost` | websocketpp/http/parser.hpp:110-126 | the value that is one backslash, written in quotes, is not read at all |
| `HttpParser.AllLwsOfBlank` | websocketpp/http/parser.hpp:139-177 | any mixture of spaces, tabs and folded lines is skipped completely, and nothing more |
| `HttpParser.AttributesOf` | websocketpp/http/parser.hpp:194-276 | any list of attributes, in any written form, reads back as its map, up to the comma or the end |
| `HttpParser.ParametersRoundTrip` | websocketpp/http/parser.hpp:292-377 | any non-empty list of parameters with attributes, with white space and folded lines wherever the grammar allows them and bare, quoted or absent values, reads back as itself |
| `HttpParser.MissingValue` | websocketpp/http/parser.hpp:247-268 | an equals sign with neither a token nor a whole quoted string behind it breaks the list of attributes, wherever the attribute stands |
| `HttpParser.MissingName` | websocketpp/http/parser.hpp:216-238 | so does a semicolon with no name behind it |
| `HttpParser.TrailingComma` | websocketpp/http/parser.hpp:362-374 | a comma with nothing behind it breaks the list of parameters, with the parameter before it kept |
| `HttpParser.BrokenParameter` | websocketpp/http/parser.hpp:316-353 | so do text that is no parameter and a parameter whose attributes are broken, and neither is kept |
| `HttpParser.ExtractToken` | websocketpp/http/parser.hpp:72-78 | the longest token and the cursor after it |
| `HttpParser.ExtractQuotedString` | websocketpp/http/parser.hpp:91-127 | the find-a-quote loop with its marker reads what the character-by-character definition reads, and returns the beginning exactly when there is no quoted string |
| `HttpParser.ExtractLws` | websocketpp/http/parser.hpp:138-151 | one folded line at most and then spaces and tabs; the cursor stays in range |
| `HttpParser.ExtractAllLws` | websocketpp/http/parser.hpp:163-177 | the fixed point of extract_lws; the cursor stays in range |
| `HttpParser.ExtractAttributes` | websocketpp/http/parser.hpp:194-276 | the loop reads what the definition reads, returns the beginning on a syntax error, and keeps the cursor in range |
| `HttpParser.ExtractParameters` | websocketpp/http/parser.hpp:292-377 | the same for parameter lists, on every input |
| `Uri.PrintThenParseExactly` | websocketpp/uri.hpp:274-285 | printing and parsing a URI gives back scheme, secure flag, host, port and resource, with a default port left out or not, exactly when the host has no colon or slash and no bracket in front |
| `Uri.ParsePrintParseExactly` | websocketpp/uri.hpp:51-168 | for every valid string: parsing, printing and parsing again gives the same URI if and only if the host parsed has no colon or slash and no bracket in front |
| `Uri.BracketedHostIsLost` | websocketpp/uri.hpp:84-119 | every bracketed host with a colon, so every IPv6 address, parses without its brackets, with any scheme and path, and what str prints of it does not parse back |
| `Uri.LoopbackIsLost` | websocketpp/uri.hpp:84-119 | ws://[::1]/ parses as host ::1 and port 80, and that URI is not read back from its print |
| `Uri.BracketsRefused` | websocketpp/uri.hpp:84-119 | an opening bracket that is not closed, or whose closing bracket is followed by anything but a path, a port or nothing, makes the string invalid |
| `Uri.GrammarParses` | websocketpp/uri.hpp:51-168 | everything the grammar of section 3 of RFC 6455 writes is read as what it says: the written port, or 80 or 443 as the scheme is plain or secure, "/" for an empty path; a written port is refused exactly when it is zero or above 65535 |
| `Uri.UnbracketedRoundTrip` | websocketpp/uri.hpp:51-168 | every string that is valid and whose host is not in brackets survives parsing, printing and parsing |
| `Uri.ParsedIsWellFormed` | websocketpp/uri.hpp:51-168 | a valid URI has one of four schemes, and that is how the string begins, the matching secure flag, a port from 1 to 65535 and a resource that begins with a slash |
| `Uri.PortRoundTrip` | websocketpp/uri.hpp:321-341 | a printed port, or the empty string for a default one, is the port again |
| `Uri.DecimalAppend` | websocketpp/uri.hpp:274-285 | the digits of a printed number come most significant first, without leading zeros |
| `Uri.DefaultPortsLeftOut` | websocketpp/uri.hpp:274-285 | str leaves out port 80 of ws and http and port 443 of wss and https, and prints every other port |
| `Uri.OtherHostsDiffer` | websocketpp/uri.hpp:80-137 | a host that keeps a colon, a slash or a leading bracket is never read back |
| `Uri.Uri.ParseHost` | websocketpp/uri.hpp:80-137 | both host loops, and the state they leave the parser in |
| `Uri.Uri.ParsePort` | websocketpp/uri.hpp:139-154 | the port loop, up to the path or the end |
| `Uri.Uri.ParseRest` | websocketpp/uri.hpp:80-168 | everything after the scheme, with the error cases leaving the URI invalid |
| `Uri.Uri.constructor` | websocketpp/uri.hpp:51-168 | the parsing constructor computes the parse of its string |
| `Keys.KeyCodesInjective` | cloudGame/include/libGetrtpcmd_copy.cpp:493-602 | no two keys share a usage, and the absent key 0 has usage 0 |
| `Keys.PressRefines` | cloudGame/include/libGetrtpcmd_copy.cpp:357-384 | a press adds a mapped key to the set unless five are held, keeps the slots distinct and mapped, and drops everything else |
| `Keys.ReleaseRefines` | cloudGame/include/libGetrtpcmd_copy.cpp:399-405 | a release takes the key out of the set and keeps the slots distinct and mapped |
| `Keys.SlotsRefineBoundedSet` | cloudGame/include/libGetrtpcmd_copy.cpp:349-417 | over any run of key events the non-empty slots are distinct mapped keys and equal a set of capacity five that drops presses when full |
| `Keys.ReportsExactly` | cloudGame/include/libGetrtpcmd_copy.cpp:349-417 | after any event the usages reported are exactly those of the held keys, each once, if and only if the event was not the press of a key outside the table or no key is held |
| `Keys.UnmappedPressReportsNothing` | cloudGame/include/libGetrtpcmd_copy.cpp:349-391 | from the start, with any sound tables: after one mapped key and then one unmapped key is pressed the first is held and was reported, and the report now carries no key |
| `Keys.ControlHidesA` | cloudGame/include/libGetrtpcmd_copy.cpp:349-391 | with the tables of the source: while A is held, pressing Control reports that no key is |
| `Keys.ModifierExactly` | cloudGame/include/libGetrtpcmd_copy.cpp:385-409 | over any run, the modifier slot holds k exactly when some event pressed k and since then no modifier and no key 0 was pressed and k was not released |
| `Keys.ModifierReported` | cloudGame/include/libGetrtpcmd_copy.cpp:385-410 | over any run from the start, the report after its last event carries the code of k exactly when k is the modifier still down, and no modifier exactly when none is |
| `Keys.ShiftReported` | cloudGame/include/libGetrtpcmd_copy.cpp:385-410 | with the tables of the source: after any events the report carries modifier 2 exactly when Shift is the modifier still down |
| `Keys.ModifierBits` | cloudGame/include/libGetrtpcmd_copy.cpp:593-601 | the modifier codes, apart from the table: left Control, Shift, Alt and GUI are 1, 2, 4 and 8, the right ones 16, 32, 64 and 128, key 0 is 0, and there is no other modifier |
| `Keys.CommonUsages` | cloudGame/include/libGetrtpcmd_copy.cpp:493-580 | the usages of the common keys, apart from the table: the letters from 4 on, the digits 1 to 9 from 30 on and 0 after them, F1 to F12 from 58 on, the digits 1 to 9 of the keypad from 89 on and 0 after them |
| `Keys.TablesAreSound` | cloudGame/include/libGetrtpcmd_copy.cpp:493-602 | the tables KeyCodeInit builds have what the other rows ask of a table: no two keys share a usage and no two modifiers a code, and key 0 stands for no key |
| `Keys.Keyboard.constructor` | cloudGame/include/libGetrtpcmd_copy.cpp:493-602 | KeyCodeInit fills the maps with exactly the listed pairs and leaves every slot empty |
| `Keys.Keyboard.KeyDown` | cloudGame/include/libGetrtpcmd_copy.cpp:349-391 | KeyDown on the array and the maps is the press step, adds no key to either map, and sends one report: the code of the modifier now in the slot, and the usages of the five slots, or none after a key outside the table |
| `Keys.Keyboard.KeyUp` | cloudGame/include/libGetrtpcmd_copy.cpp:392-417 | KeyUp empties exactly the slots of that key, and the modifier slot if it held it, adds no key to either map, and sends one report: the code of the modifier now in the slot and the usages of the five slots |
| `Keys.Keyboard.Press` | cloudGame/include/libGetrtpcmd_copy.cpp:359-377 | the search loop and the first-empty-slot loop: a key already held or a full table changes nothing, and otherwise the first empty slot, and no other, takes the key |

## Left out

- Connection, the strand: a step is a stretch between two points where another thread can step in; races on single memory words inside such a stretch are not modelled, nor is `terminate` run at the same moment on two threads.
- Connection, the iostream transport, which runs a dispatched handler at once on the calling thread (`websocketpp/transport/iostream/connection.hpp:580-583`): `write_frame` then is not on the strand.
- Connection, `pause_reading`, `resume_reading`, `interrupt`, pong and handshake timers: they would add cases and assumptions about overlapping transport reads. A timer that terminates is the step that ends a connection with any error.
- Connection, the processor for RFC 6455 and the transport: `processors/hybi13.hpp` and `transport/` are not part of this model; their outcomes are free.
- Connection, logging, HTTP error pages, the request side of the handshake beyond its effect on the state: they touch neither the queue nor the handlers.
- Connection, a close frame that the caller prepares and passes to `send`: what `send`, `ping` and `pong` push is taken not to be one.
- ConnectionObject, the steps between its handlers (issuing a read, timers, the stages of the handshake before its end): they are steps of `ConnectionMachine` only.
- FrameHeader, `set_fin` and the other setters: each flips one bit of one byte.
- EasySocket, callbacks that call back into the client during a dispatch, the ping thread, and `from_url`: a callback only records its message here.
- EasySocket, sockets: `recv` and `send` are scripts of results, of any length and content.
- Hybi00, a message manager that runs out of buffers: there is always one. Whether the session is open when a message is dispatched is a parameter.
- Utf8, or-ing the shifted code point with the tail bits is written as addition, since the bits are disjoint.
- Md5, the sixty-four rounds of `md5_process`: the compression function is a parameter.
- Md5, a `size_t` wrap-around of offset plus length, which needs an input of nearly 2^64 bytes.
- Base64.DecodeString: the array of four characters is a sequence of those read so far.
- HttpParser, the header and body parser classes and `strip_lws`: only the list extractors are modelled.
- Uri, numbers no int can hold: what `atoi` makes of them is a parameter, and every statement is for all its values.
- Uri, the other constructors, `get_query` and `get_authority`: they assemble fields.
- Keys, the device handle, mouse reports and `KeyPing`: reports are recorded and not sent.
- Keys, `KeyDown(0)`: key 0 is in both tables, so pressing it clears the modifier; the model does the same.
- `sha1`, Qt user interface, process control and the other application code: easy members, or behaviour of libraries that are not part of this model.
