# gws write path and close state machine, in Dafny

This project models the outbound half of the gws WebSocket engine and its
close/error state machine:

- how a connection turns a message into one final frame (`genFrame`, `compressData`);
- how the write entry points are gated on the connection's closed flag (`WriteMessage`, `doWrite`, `WriteAsync`);
- how `WriteClose`, `emitError` and `emitClose` close a connection exactly once;
- how a `Broadcaster` builds each variant of a message once and returns the buffers to the pool after its last write.

Frames follow section 5.2 of RFC 6455. Masking follows section 5.3. Close codes follow sections 7.4.1 and 7.4.2. The RSV1 bit marks a compressed message, as RFC 7692 defines.

Modules:

- `Wire`: bytes, the XOR mask, big-endian integers.
- `Utf8`: well-formed UTF-8, as Go's `utf8.Valid` checks it.
- `Errors`: status codes, the error values the close path tells apart, and the values of the internal package.
- `Header`: opcodes, the frame header encoder, and a reference header parser.
- `Frames`: the connection options, `isTextValid`, and `FrameFor`, which is the frame `genFrame` builds, as a function. It also holds a reference frame reader.
- `CloseCodes`: the pure decisions of `emitError` and `emitClose`.
- `Buffers`: a `bytes.Buffer` class with the in-place edits the frame builders make.
- `Gws`: the `Conn` and `Broadcaster` classes.

The socket is an effect. `Conn` keeps a ghost log of everything observable: each frame written, the deadline forced on an error, and each `OnClose` callback. The error a socket write returns is a parameter of the operation that writes.

The atomics become sequential steps:

- the compare-and-swap on `closed` is a test-and-set;
- `atomic.AddInt64` on the broadcaster's state is a plain update;
- the write queue is a list of tasks that `RunWriteTask` runs oldest first.

Mask keys come from a function of the draw count: every header a client generates draws the next key. `Conn.Valid` is preserved by every entry point of the connection: `EmitError`, `EmitClose`, `WriteClose`, `WriteMessage`, `WriteAsync`, `RunWriteTask` and `Broadcaster.Broadcast`. The internal steps `CasClosed` and `DoWrite` may break it on their own; their callers restore it. It states three things:

- exactly one `OnClose` once the connection is closed, and none before;
- at most one close-handshake frame;
- no frame written after `OnClose`.

`Broadcaster.Valid` states that the counter is `MaxInt32` (until `Release`) plus the pending writes. The pending writes are a ghost multiset `holders` of connections, one entry per queued write. It also states that `doClose` has run exactly once when `Release` has happened and no write is pending, and never otherwise.

`Linked(b, c)` ties the two classes together: `b.holders` counts connection `c` exactly as often as `c`'s write queue holds writes of `b`. `Broadcast` and `RunWriteTask` preserve it. So once `doClose` has run, no write of that broadcast is left in any queue.

## Model

| member | source | states |
|---|---|---|
| `Wire.MaskTwice` | writer.go:106-109 | masking twice with the same key restores the payload, so a receiver unmasks with the header's key |
| `Wire.XorTwice` | writer.go:106-109 | XOR with a key byte is its own inverse on bytes |
| `Wire.BigEndian` | conn.go:111 | the big-endian encoding of a number below 256^w has exactly w bytes |
| `Wire.FromBigEndian` | conn.go:137 | decoding w bytes gives a number below 256^w |
| `Wire.BigEndianRoundTrip` | conn.go:137 | decoding the big-endian encoding gives the number back |
| `Utf8.AsciiIsValid` | conn.go:84 | ASCII bytes are well-formed UTF-8 |
| `Utf8.ValidConcat` | conn.go:84 | the concatenation of well-formed UTF-8 is well-formed |
| `Utf8.FirstCharLength` | conn.go:84 | the character a sequence starts with is 0 to 4 bytes and lies within the sequence |
| `Errors.CodeBytes` | conn.go:111 | a status code opens the close payload as two bytes |
| `Wire.Mask` | writer.go:106-109 | masking keeps the payload length |
| `Utf8.ValidLeadByte` | conn.go:84 | well-formed UTF-8 never starts with a continuation byte or with 0xC0, 0xC1 or a byte from 0xF5 |
| `Utf8.ValidEndsOnBoundary` | conn.go:84 | well-formed UTF-8 never ends inside a character: its last byte is ASCII or a continuation byte |
| `Header.LengthField` | writer.go:101 | lengths up to 125 take one byte holding the length; up to 65535, three bytes opening with 126; beyond, nine bytes opening with 127; the extension reads back big-endian as the length |
| `Header.GenerateHeader` | writer.go:101 | a header has 2 to frameHeaderSize (14) bytes, the length section 5.2 of RFC 6455 prescribes for the payload length and the sender |
| `Header.HeaderRoundTrip` | writer.go:101 | parsing a generated header, followed by any bytes, recovers FIN, RSV1, opcode, mask bit, payload length, mask key and header size |
| `Header.LengthFieldBoundaries` | writer.go:101 | lengths 125, 126, 65535 and 65536 fall on the documented sides of the 7-, 16- and 64-bit forms |
| `Frames.IsTextValid` | conn.go:78-88 | a payload is refused only when checking is on, the opcode is text or close, and the payload is ill-formed UTF-8 |
| `Frames.IsTextValidCases` | conn.go:78-88 | isTextValid holds exactly when checking is off, or the opcode is neither text nor close, or the payload is well-formed UTF-8 |
| `Frames.Compresses` | writer.go:91 | only a connection with compression enabled compresses, and never a close, ping or pong frame |
| `Frames.CompressedFrame` | writer.go:113-133 | a frame is built only from compressor output within WriteMaxPayloadSize, with FIN and RSV1 set and a header of the length section 5.2 of RFC 6455 prescribes; otherwise the error is the compressor's or CloseMessageTooLarge |
| `Frames.FrameFor` | writer.go:85-111 | genFrame fails only with CloseUnsupportedData wrapping ErrTextEncoding, with CloseMessageTooLarge, or with the compressor's error; a text frame is built only from a payload isTextValid accepts |
| `Frames.FrameRoundTrip` | writer.go:85-111 | a built frame is the header then the sent payload: unchanged from a server, masked with the header's key from a client. It reads back as one final frame with the requested opcode, RSV1 exactly on the compressed path, and the sent payload |
| `Frames.RejectsInvalidText` | writer.go:87-89 | with checking on, an ill-formed text payload fails with CloseUnsupportedData wrapping ErrTextEncoding |
| `Frames.Utf8CheckOnlyForText` | writer.go:86-89 | for every opcode other than text the frame does not depend on UTF-8 checking |
| `Frames.ControlFramesNotCompressed` | writer.go:91-93 | a control frame never has RSV1 set |
| `Frames.PlainPathTooLarge` | writer.go:95-98 | off the compressed path a valid payload fails exactly when it exceeds WriteMaxPayloadSize, and then with CloseMessageTooLarge |
| `Frames.CompressedPathLimit` | writer.go:115-124 | on the compressed path a compressor error is returned as is, and the limit is checked against the compressed size |
| `Frames.FramePayloadWithinLimit` | writer.go:91-98 | every built frame announces a payload length of at most WriteMaxPayloadSize |
| `CloseCodes.ResponseCodeCases` | conn.go:99-109 | for `ResponseCode` and `ResponseErr`: a bare StatusCode answers with itself and OnClose gets CloseNormalClosure; an internal Error answers with its Code and OnClose gets its cause; anything else answers CloseNormalClosure and OnClose gets the error |
| `CloseCodes.CloseContent` | conn.go:111-115 | the close payload emitError sends is never longer than ThresholdV1 |
| `CloseCodes.CloseContentBounded` | conn.go:111-115 | the close payload is the start of code bytes ++ error text, cut to ThresholdV1 bytes exactly when longer; the code survives whole when ThresholdV1 >= 2 |
| `CloseCodes.ClassifyPeerCode` | conn.go:138-149 | the code emitClose answers a peer with is always one a peer may send |
| `CloseCodes.ClassifyPeerCodeMeaning` | conn.go:138-149 | refused peer codes answer CloseProtocolError; accepted codes below 3000 answer CloseNormalClosure; codes 3000-4999 are echoed; the answer is always an accepted code |
| `CloseCodes.ReadPeerClose` | conn.go:126-153 | from two bytes on, the answer is an accepted code and the reason is everything after the code; below two bytes the reason is empty and the answer is 0 exactly for an empty payload |
| `CloseCodes.ShortPeerClose` | conn.go:127-133 | an empty close payload gives codes 0 and 0; a single byte gives CloseProtocolError, that byte as the peer's code and an empty reason |
| `CloseCodes.LongPeerClose` | conn.go:134-152 | from two bytes on, the peer's code is the big-endian first two bytes, the reason the rest, and an ill-formed reason (checking on) answers CloseUnsupportedData |
| `CloseCodes.PeerReadsCloseContent` | conn.go:111-117 | a peer reading the close payload emitError builds recovers its code and the text cut to ThresholdV1 - 2 bytes |
| `Buffers.Buffer.constructor` | writer.go:103 | a buffer from the pool starts empty |
| `Buffers.Buffer.Of` | conn.go:123 | a buffer holding a received close payload |
| `Buffers.Buffer.Len` | writer.go:121 | the number of unread bytes |
| `Buffers.Buffer.Write` | writer.go:104-105 | appends to the unread bytes |
| `Buffers.Buffer.Next` | writer.go:131 | consumes and returns the first n unread bytes, or all of them if fewer |
| `Buffers.Buffer.Read` | conn.go:135-136 | like Next, reporting EOF exactly when nothing was left to read |
| `Buffers.Buffer.Reset` | conn.go:133 | drops every byte |
| `Buffers.Buffer.MaskFrom` | writer.go:127-129 | the unread bytes from an index on are replaced by their masked form, the ones before it unchanged |
| `Buffers.Buffer.CopyAt` | writer.go:130 | overwrites unread bytes from an index on with as much of the source as fits, nothing else changes |
| `Gws.QueuedForAppend` | writer.go:180 | queuing a task adds one to the count of a broadcaster's writes exactly when the task is a write of that broadcaster |
| `Gws.HeaderIntoPadding` | writer.go:130-131 | after the header is copied into the tail of the padding and the front is skipped, the buffer holds the header directly followed by the body |
| `Gws.TransitionCounts` | conn.go:116-120 | the events of one close transition hold exactly one OnClose, at most one close frame, and no write after OnClose |
| `Gws.Conn.constructor` | conn.go:46-61 | a new connection is open, has written nothing and has an empty write queue |
| `Gws.Conn.CasClosed` | conn.go:116 | succeeds exactly when the connection was open, and leaves it closed |
| `Gws.Conn.GenerateHeader` | writer.go:100-101 | the header of a final frame; a client draws the next mask key, a server draws none |
| `Gws.Conn.GenFrame` | writer.go:85-111 | the built buffer holds exactly FrameFor's frame, or no buffer and FrameFor's error; one mask key is used per client frame built |
| `Gws.Conn.FillFrame` | writer.go:102-110 | the buffer holds the header, then the payload, masked in place for a client |
| `Gws.Conn.CompressData` | writer.go:113-133 | after the header is copied into the padding's tail and the unused front is skipped, the buffer holds exactly header ++ compressed payload, masked for a client; or the compressor's error, or CloseMessageTooLarge when the compressed size exceeds the limit |
| `Gws.Conn.DoWrite` | writer.go:73-82 | writes the built frame whatever the closed flag, and returns the build error or else the socket's |
| `Gws.Conn.EmitError` | conn.go:94-121 | nil, or a closed connection, changes nothing; otherwise the connection closes, the close frame is written, the deadline forced and OnClose called once, with the reason the error maps to |
| `Gws.Conn.WriteMessage` | writer.go:62-69 | on a closed connection returns ErrConnClosed and writes nothing; otherwise writes the frame and closes on any error |
| `Gws.Conn.WriteAsync` | writer.go:43-59 | builds the frame now and queues its write; a build error closes the connection and is returned, with nothing queued |
| `Gws.Conn.Push` | writer.go:50 | appends one task to the write queue; the count of queued writes of every other broadcaster is unchanged, and the task's own broadcaster gains one |
| `Gws.Conn.WriteQueued` | writer.go:53-55 | on an open connection the frame is written, and a socket error closes the connection through emitError |
| `Gws.Conn.RunWriteTask` | writer.go:50-57 | runs the oldest queued write: skipped on a closed connection (checked with isClosed), else written and any socket error closes; a broadcast write removes this connection once from its broadcaster's holders and lowers the counter either way, the two stay linked, and its frame has not yet been handed back to the pool |
| `Gws.Conn.WriteClose` | writer.go:18-24 | closes through emitError with the given code and the reason as the error text |
| `Gws.Conn.WriteCloseRoundTrip` | writer.go:18-24 | the peer reads back the code and the reason cut to ThresholdV1 - 2 bytes |
| `Gws.Conn.ReadCloseCode` | conn.go:124-153 | the answer code, the peer's code and the unread reason are those ReadPeerClose gives for the payload |
| `Gws.Conn.EmitClose` | conn.go:123-159 | only the call that finds the connection open answers with a close frame carrying just the code and calls OnClose with the peer's code and reason; always returns CloseNormalClosure |
| `Gws.CloseRace` | conn.go:116-120 | an error, a peer close and WriteClose on one open connection: only the first closes it, so OnClose runs once and at most one close frame is written |
| `Gws.Broadcaster.constructor` | writer.go:154-162 | both slots empty, counter at MaxInt32, nothing pending |
| `Gws.Broadcaster.Variant` | writer.go:168-174 | the connection's variant (slot 1 with compression, slot 0 without) is built on first use only, with the frame or the error genFrame gives, and kept for later callers |
| `Gws.Broadcaster.Broadcast` | writer.go:167-189 | the connection's variant is built on first use only; a build error is returned on every call for that variant with the counter and holders untouched; otherwise the counter rises by one, the connection is added once to holders and the shared frame is queued; the broadcaster and the connection stay linked |
| `Gws.Broadcaster.DoClose` | writer.go:191-197 | every frame built without error is handed back to the pool, slot 0 first |
| `Gws.Broadcaster.TaskDone` | writer.go:184-186 | a completed write lowers the counter by one and removes its connection once from holders, running doClose when the counter reaches zero |
| `Gws.Broadcaster.Release` | writer.go:202-206 | lowers the counter by MaxInt32; doClose runs now exactly when no write is pending |
| `Gws.NoQueuedWriteAfterClose` | writer.go:184-197 | once doClose has run, a linked connection's queue holds no write of that broadcast, so no queued write can use a frame already handed back to the pool |
| `Gws.BroadcastOne` | writer.go:167-189 | a Broadcast on an open connection with an empty queue leaves at most one write of the broadcaster queued, counted once in holders |
| `Gws.RunOne` | writer.go:180-187 | running a connection's queued broadcast write empties its queue and removes it from holders |
| `Gws.BroadcastStep` | writer.go:167-189 | one Broadcast of a round moves a connection from idle to ready, and holders still hold only connections broadcast to so far |
| `Gws.RunStep` | writer.go:180-187 | one queued write of a round moves a connection from ready to idle, and holders hold only connections not yet run |
| `Gws.BroadcastEach` | writer.go:167-189 | Broadcast to any number of distinct connections, each with or without compression, leaves each with at most one queued write, linked to the broadcaster |
| `Gws.RunEach` | writer.go:180-206 | after Release, running every connection's queued write empties every queue and holders, and doClose has run exactly once |
| `Gws.BroadcastToAll` | writer.go:167-206 | broadcast to any number of connections, release, then every queued write: doClose runs exactly once, after the last write, the counter is zero and every built frame is handed back |

## Left out

- Socket I/O is an appended event. `internal.WriteN` is a `Wrote` event whose error is a parameter. `SetDeadline` is a `DeadlineNow` event. Out of scope: the read side (`ReadLoop`, `readMessage`), the other deadline setters, `SetNoDelay`, the address accessors and `NetConn`.
- Concurrency: goroutines, the worker queue's concurrency limit and the atomics are sequential steps. Interleavings of writes on different goroutines are not modelled.
- The unused `sync.Once` in the broadcast wrapper is not modelled.
- Compression: the compressor is a function of the configuration that returns the deflated bytes or an error. DEFLATE itself is not modelled.
- `WritePing`, `WritePong` and `WriteString` only call `WriteMessage` with a fixed opcode, so they are not separate members.
- The buffer pool: frames are byte sequences. The pool's index tokens are dropped, and a queued task holds the frame's bytes. A `Put` is a ghost record only in `Broadcaster`. Not proved: that every `Get` is matched by a `Put`. The error paths of `compressData` drop their buffer without returning it.
- `Gws.Broadcaster.DoClose`: an entry whose build failed is passed to `Put` with a nil buffer in the source. The model records no frame for it, taking the pool to ignore a nil buffer.
- `Gws.Broadcaster.Broadcast`: requires that `Release` has not happened. After `Release`, the source counter would leave its biased range.
- `Gws.Broadcaster.Broadcast`: the 64-bit counter is unbounded and does not wrap, as more than 2^63 - 2^31 pending writes cannot occur.
- `internal` is not part of this model. The following are taken from it as assumptions:
  - `StatusCode.Bytes` is taken as the 2-byte big-endian code for every code, 0 included.
  - `ThresholdV1` and the `Error()` texts of the internal error values are parameters (`Internals`).
  - An internal `Error` reports the text of the error it wraps.
  - `frameHeaderSize` is 14.
  - `isDataFrame` means continuation, text or binary.
  - `frameHeader.GenerateHeader` is written out per section 5.2 of RFC 6455.
  - `MaskXOR` is written out per section 5.3.
- Opcodes are 4-bit values. RSV2 and RSV3 are never set by the writer and are not modelled.
- The random source of mask keys is a parameter: a function from the draw count to a key.
- option_test.go checks option defaults, which are produced by code that is not part of this model. The echo example only wires callbacks. Neither is modelled.
