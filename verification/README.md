# AndroidDebug: a verified model

AndroidDebug puts a debug server on an Android device. A browser page lists directories and opens a
terminal; the terminal talks to the device over a hand-written WebSocket endpoint, and the device
starts the shell through a small native launcher. This project models the parts of it that compute:

- `Transport.dfy` - a connected socket. What each `read` hands over is a script, and every statement
  holds for all scripts, so for every way the network can cut the stream.
- `Bytes.dfy`, `Rfc6455.dfy` - byte order, the XOR transform, and the frame format of section 5.2 of
  RFC 6455, written from the standard and proved to be a bijection between frame lists and the streams
  that parse. The program is compared with this format, not with itself.
- `FrameHeads.dfy` - the header reader with its three length forms and in-place byte reversal, and the
  two header writers.
- `Examples.dfy` - the published examples of section 5.7 of RFC 6455, octet by octet.
- `Receive.dfy`, `Delivery.dfy` - `umask` and the two receive loops, over arrays as in the source; and
  the exact condition under which they deliver what the client sent.
- `Handshake.dfy` - the request line scanner and the handshake answer; `Accepting.dfy` - the same request
  read as header fields, and exactly which requests get the answer RFC 6455 asks for.
- `Lifecycle.dfy` - `conn` and `ser_fd` over whole runs, and how often each descriptor is closed.
- `Terminal.dfy` - `accept`, `run` and `send`, the two Java threads that call them, and the stand-alone echo
  server; and the theorems from the first byte of the request to the last frame.
- `BigNum.dfy` - normal form and word predicates of `openssl/bn.h`.
- `Marshal.dfy` - `argv`/`envp` over an explicit heap; `Descriptors.dfy` - closing descriptors in the
  child process.
- `Navigation.dfy`, `Query.dfy` - directory navigation with responses in flight, and the terminal page's
  query string.

Where the C code leaves defined behaviour (a running total beyond the 1024-byte buffer, a length the writer
has no code for, a request without a NUL in its buffer) the model stops with an outcome of its own, so no
precondition hides these cases, and the theorems say exactly when the outcomes occur. A header that is only
partly read is not one of them: the code goes on with what its locals held, and so does the model, for any
such contents.

Properties that hold only under a condition are stated with that condition as an equivalence:

- The receive loops unmask every chunk from the first key octet. The payloads come out right if and only
  if every frame fits the buffer and every chunk starts where the key looks the same as at its start;
  reads that stop at multiples of four are right for every key. `OutOfPhaseExample` is a legal frame that
  comes out wrong.
- The reader takes four key octets whatever the MASK bit says; it stays aligned if and only if the header
  is masked. Whatever the reads hand over, the loop leaves a payload at the next frame if and only if it
  fits the buffer and the reads stop at its end, none failing before. A frame without payload is read once all
  the same, and there that read has to find nothing; the theorems about sessions include such frames.
- The writers cover lengths below 0xFFFF. Section 5.2 of RFC 6455 gives 0xFFFF itself the 16-bit form; the
  code has none for it and writes twelve unset bytes.
- A request with a key gets the accept value of section 4.2.2 of RFC 6455 if and only if the program serves the
  key and the digest, whose length is taken with `strlen`, has no zero octet. A key field is served if and only
  if it is spelled as in the program, lines up to it and the line with the GUID fit 256 octets, and exactly one
  octet of white space stands between the colon and the key, and none behind it (when no other line has that
  spelling); RFC 6455 allows the others too.
- The terminal and the echo server are right from request to last frame if and only if the request is answered
  so, every frame fits and every chunk is in phase; `TerminalRightIff` and `EchoServerRightIff`.
- A descriptor is closed once if a run ends before its global is overwritten, and once more if its setup failed.
  Each is closed exactly once if and only if those that reach the end of a run are those whose setup did not
  fail. A `listen` that fails closes the socket and still reports a port, so the run that follows closes it
  again; descriptors are counted by the call they came from, since numbers are handed out again.
- `main` passes 4444 to `passive_server` as if it were a port, though it is used as a descriptor there, and its
  `ser_fd` is what that returns: a port or -999. The second number `main` closes was never a descriptor.
- `BN_is_zero`, `BN_abs_is_word` and `BN_is_word` are right on some words that are not in normal form; the lemmas say on
  which. `BN_is_odd` is right on all.
- The launcher's early returns release nothing: the heap is as before if and only if both arrays were
  marshalled to the end or nothing had been allocated.
- A listing response is applied to the selection at the time it arrives. The invariant of the two paths is
  kept by exactly the events called admissible; `StaleResponseExample` is a run in which a Storage response
  empties the ANR path. A row of a listing keeps it if and only if its entry is a directory or a plain file.
  Under one selection the directory asked for last is shown in the end if and only if the last response to
  arrive was for it; `OvertakenExample` is the other case.

Nothing here runs the program.

## Model

| member | source | states |
|---|---|---|
| Bytes.XorIsBitwise | libdebug/src/main/jni/websocket/websocket.c:194-198 | Each of the eight bits of the result is set exactly when it differs in the operands |
| Bytes.MaskIsBitwise | libdebug/src/main/jni/websocket/websocket.c:194-198 | Octet i of transformed data differs from octet i of the data in exactly the bits that are set in octet i mod 4 of the key |
| Bytes.MaskTwice | libdebug/src/main/jni/websocket/websocket.c:194-198 | Masking from one phase and unmasking from another is the identity exactly when the key octets that meet are equal; with equal phases it is an involution |
| Bytes.MaskSplits | libdebug/src/main/jni/websocket/websocket.c:194-198 | The transform of section 5.3 of RFC 6455 can be cut anywhere if the phase is carried over the cut |
| Bytes.LittleEndianOfReverse | libdebug/src/main/jni/websocket/websocket.c:170-175 | The swap loop followed by a little-endian copy yields the big-endian value |
| Rfc6455.LayoutOfHeader | libdebug/src/main/jni/websocket/websocket.c:17-36 | FIN, reserved bits, opcode, MASK, seven-bit length and key stand where the figure of section 5.2 of RFC 6455 has them |
| Rfc6455.LayoutOfLength | libdebug/src/main/jni/websocket/websocket.c:17-36 | The extended length is two or eight bytes, the most significant first |
| Rfc6455.LayoutOfPayload | libdebug/src/main/jni/websocket/websocket.c:17-36 | Behind the header stands the payload, as it is or transformed bit by bit with the key |
| Rfc6455.ParseOfEncodeHeader | libdebug/src/main/jni/websocket/websocket.c:17-36 | Every header, in any of the three length forms, masked or not, is read back from its bytes whatever follows |
| Rfc6455.EncodeOfParseHeader | libdebug/src/main/jni/websocket/websocket.c:17-36 | What parses as a header is, bit for bit, the encoding of the header it parses to |
| Rfc6455.ParseOfEncodeFrames | libdebug/src/main/jni/websocket/websocket.c:17-36 | A stream of whole frames parses into exactly those frames |
| Rfc6455.EncodeOfParseFrames | libdebug/src/main/jni/websocket/websocket.c:17-36 | A stream that parses is the encoding of the frames it parses into |
| Rfc6455.EncodingIsInjective | libdebug/src/main/jni/websocket/websocket.c:17-36 | Two lists of frames have the same bytes exactly when they are equal: a stream has at most one reading |
| Rfc6455.EncodingIsPrefixFree | libdebug/src/main/jni/websocket/websocket.c:17-36 | One frame's bytes begin another's only if the frames are equal |
| Rfc6455.MinimalFormIsShortest | libdebug/src/main/jni/websocket/websocket.c:17-36 | A header is as short as any for its length exactly when it uses the minimal length form |
| Transport.Connection.Read | libdebug/src/main/jni/websocket/websocket.c:356-361 | A read hands over some bytes of the stream, in order, and leaves the rest of the buffer alone |
| FrameHeads.SwapExtendedLength | libdebug/src/main/jni/websocket/websocket.c:170-174 | The four in-place exchanges reverse the eight length bytes |
| FrameHeads.RecvExtendedLength | libdebug/src/main/jni/websocket/websocket.c:156-176 | The extended length read is the big-endian value of the bytes that arrived |
| FrameHeads.RecvFrameHead | libdebug/src/main/jni/websocket/websocket.c:138-185 | The header reader, on every stream and every script, yields the fields of the specification, its failures, and the stream it leaves |
| FrameHeads.ReceiveOfEncodeHeader | libdebug/src/main/jni/websocket/websocket.c:138-185 | The reader inverts the encoding of every masked header below 2^64 and leaves exactly what follows it |
| FrameHeads.ReceiveOfUnmaskedHeader | libdebug/src/main/jni/websocket/websocket.c:138-185 | An unmasked header gives its own fields, and the next four bytes of the stream are taken as its key |
| FrameHeads.AlignedIffMasked | libdebug/src/main/jni/websocket/websocket.c:178-182 | Every header of either kind gives its fields and its length, and the reader stops where it ends exactly when it is masked |
| FrameHeads.SendFrameHead | libdebug/src/main/jni/websocket/websocket.c:200-232 | What is written is the minimal header of an unmasked final text frame exactly for lengths below 0xFFFF |
| FrameHeads.SendFrameLength | libdebug/src/main/jni/websocket/websocket.c:234-266 | The same header as the other writer, exactly for lengths from 0 to 0xFFFE, and a two-byte header with the low byte of a negative one |
| FrameHeads.WrittenHeaderReadsBack | libdebug/src/main/jni/websocket/websocket.c:141-266 | Every length the writers put in a header is read back, by the format of RFC 6455 and by the program's own reader, and no header for it is shorter |
| FrameHeads.HeadFailsIff | libdebug/src/main/jni/websocket/websocket.c:138-185 | For any reads the header read fails exactly when one of them gives nothing |
| FrameHeads.CutKey | libdebug/src/main/jni/websocket/websocket.c:178-182 | A key of which only some bytes arrive is filled up with what the local held |
| FrameHeads.CutLength | libdebug/src/main/jni/websocket/websocket.c:156-176 | A length of which one byte arrives has that byte as its high one and the local's as its low one |
| Receive.Umask | libdebug/src/main/jni/websocket/websocket.c:194-198 | The first `len` bytes are transformed in place from phase 0 and the bytes behind them are unchanged |
| Receive.ReadChunk | libdebug/src/main/jni/websocket/websocket.c:356-363 | One pass delivers the bytes read, unmasked from phase 0; the stale bytes toggled behind them have no part in it |
| Receive.EchoPayload | libdebug/src/main/jni/websocket/websocket.c:291-308 | The echo's inner loop writes exactly the chunks of the specification and leaves the stream where it does |
| Receive.DeliverPayload | libdebug/src/main/jni/websocket/websocket.c:352-383 | The terminal's inner loop hands exactly those chunks to onReceiveData, in order |
| Receive.EchoLoop | libdebug/src/main/jni/websocket/websocket.c:278-311 | The echo loop's output and end, for every stream and script |
| Receive.DeliverLoop | libdebug/src/main/jni/websocket/websocket.c:339-386 | The calls to onReceiveData and the loop's end, for every stream and script |
| Delivery.ChunkRightIffInPhase | libdebug/src/main/jni/websocket/websocket.c:356-363 | A chunk at an offset is unmasked right exactly when the key octets seen from the offset and from 0 agree over its length |
| Delivery.PayloadRightIffInPhase | libdebug/src/main/jni/websocket/websocket.c:354-383 | A payload comes out right exactly when each of its chunks is in phase |
| Delivery.AlignedCutInPhase | libdebug/src/main/jni/websocket/websocket.c:354-383 | Reads that stop at multiples of four are in phase for every key |
| Delivery.PayloadIsRead | libdebug/src/main/jni/websocket/websocket.c:354-383 | For every cut of a payload, the inner loop ends with the total equal to the payload length and the stream at the next frame |
| Delivery.FrameIsRead | libdebug/src/main/jni/websocket/websocket.c:354-383 | The same for every frame that fits, an empty one included when the read after its header finds nothing |
| Delivery.LongPayloadOverruns | libdebug/src/main/jni/websocket/websocket.c:352-363 | A payload longer than the buffer makes the running total outgrow it, however it is cut |
| Delivery.LongFrameStops | libdebug/src/main/jni/websocket/websocket.c:339-386 | The first frame beyond the buffer stops the loop behind the frames before it, all seen, by overrun or by the echo having no header for the length |
| Delivery.ReadsAreUnique | libdebug/src/main/jni/websocket/websocket.c:354-383 | For any reads, also ones past the frame, the chunks are the bytes of each read unmasked from the first key octet, up to the first of three reasons to stop, and nothing else is |
| Delivery.AllFramesSeen | libdebug/src/main/jni/websocket/websocket.c:339-386 | For every list of frames that fit and every cut, each header read starts at its frame and the loop ends at the end of the stream |
| Delivery.AllRightIffInPhase | libdebug/src/main/jni/websocket/websocket.c:354-383 | The chunks of a session joined are the payloads joined exactly when every chunk is in phase |
| Delivery.DeliversIffInPhase | libdebug/src/main/jni/websocket/websocket.c:339-386 | The terminal's loop ends by itself having delivered exactly the payloads if and only if every frame fits and every chunk is in phase |
| Delivery.AlignedReadsDeliver | libdebug/src/main/jni/websocket/websocket.c:339-386 | With reads at multiples of four every list of frames that fit is delivered, for every key, and the stream is used up |
| Delivery.EchoIsFrames | libdebug/src/main/jni/websocket/websocket.c:278-311 | The echo's output is the encoding of one text frame for each frame received |
| Delivery.EchoesIffInPhase | libdebug/src/main/jni/websocket/websocket.c:278-311 | The echo ends by itself exactly when every frame fits; its output then parses, and into the payloads sent exactly when every chunk is in phase |
| Delivery.AlignedIffReadsStop | libdebug/src/main/jni/websocket/websocket.c:354-383 | For any reads at all, the next header starts at the next frame exactly when the payload fits the buffer and the reads stop at its end, or, for an empty one, the one read finds nothing |
| Delivery.OutOfPhaseExample | libdebug/src/main/jni/websocket/websocket.c:363 | A legal two-byte frame read in two parts that comes out wrong |
| Examples.UnmaskedText | libdebug/src/main/jni/websocket/websocket.c:398-421 | The frame of "Hello" in section 5.7 of RFC 6455, octet by octet |
| Examples.MaskedText | libdebug/src/main/jni/websocket/websocket.c:194-198 | The masked frame of "Hello" there, octet by octet |
| Examples.LongHeaders | libdebug/src/main/jni/websocket/websocket.c:17-36 | The headers of 256 and 65536 octets there |
| Examples.HelloIsDelivered | libdebug/src/main/jni/websocket/websocket.c:336-386 | The octets of the masked example on the wire are delivered as "Hello" |
| Handshake.ReadLine | libdebug/src/main/jni/websocket/websocket.c:77-86 | The position behind the first CRLF at or after `level`, or -1 when there is none, and the line before it |
| Handshake.ScanIsUnique | libdebug/src/main/jni/websocket/websocket.c:107-134 | The lines the loop reads are the only ones that hold no CRLF and rebuild the text up to the blank line or its end |
| Handshake.ScanStopsAtBlankLine | libdebug/src/main/jni/websocket/websocket.c:134 | Nothing behind the blank line is looked at |
| Handshake.ScanOfLine | libdebug/src/main/jni/websocket/websocket.c:107-134 | A line ends at octets 13 and 10, and the reading at the second such pair in a row or at the end of the text |
| Handshake.ContainsAnywhere | libdebug/src/main/jni/websocket/websocket.c:112 | The name is found wherever it stands in the line |
| Handshake.ContainsOnlyThere | libdebug/src/main/jni/websocket/websocket.c:112 | And only where the line can be cut around it |
| Handshake.AnswerOfLine | libdebug/src/main/jni/websocket/websocket.c:113-125 | For any naming line and any digest: hashed is what stands behind the first nineteen octets of line and GUID, and encoded is the digest up to its first zero octet |
| Handshake.ResponseReadsBack | libdebug/src/main/jni/websocket/websocket.c:120-129 | The response, read line by line as a client does, is the status line, the two upgrade fields and the accept field with the value, ended by a blank line |
| Handshake.LongLineBreaks | libdebug/src/main/jni/websocket/websocket.c:77-86 | A line of 256 octets or more before the naming one leaves defined behaviour |
| Handshake.SilentIffNoLineNamesKey | libdebug/src/main/jni/websocket/websocket.c:112-133 | There is no response exactly when no line read names the key and none is too long |
| Handshake.FirstNamingLineDecides | libdebug/src/main/jni/websocket/websocket.c:112-133 | The first line that names the key decides the one response, whatever follows |
| Handshake.AnswerRequest | libdebug/src/main/jni/websocket/websocket.c:107-134 | The loop writes the response that the lines of the text call for, at most one |
| Handshake.Shakehands | libdebug/src/main/jni/websocket/websocket.c:88-136 | One read, and the answer to the C string the buffer then holds, stale bytes included |
| Handshake.StaleBytesDoNotMatter | libdebug/src/main/jni/websocket/websocket.c:91-102 | A request whose blank line arrived is scanned the same whatever the buffer held before |
| Accepting.LineAcceptedIff | libdebug/src/main/jni/websocket/websocket.c:112-125 | A line that names the key is answered with the accept value of a key exactly when that key stands from the fixed offset on, line and GUID fit, and the digest has no zero octet |
| Accepting.LinesAcceptedIff | libdebug/src/main/jni/websocket/websocket.c:107-134 | The lines are answered with it exactly when the first that names the key is such a line and none up to it is too long |
| Accepting.RequestAcceptedIff | libdebug/src/main/jni/websocket/websocket.c:88-136 | For every complete request that carries a key in a header field, over any stale buffer: the answer is the one RFC 6455 asks for exactly when the program serves that key, a NUL ends the text, and the digest has no zero octet |
| Accepting.KeyFieldServedIff | libdebug/src/main/jni/websocket/websocket.c:112-116 | The key of a header field, in any case and padding, is served exactly when the field has the program's spelling, one octet of white space before the key and none behind it, and the lines fit |
| Accepting.FieldValueIs | libdebug/src/main/jni/websocket/websocket.c:112-116 | A field's value is what stands between the white space behind its first colon and that at its end |
| Lifecycle.TraceIsOfRun | libdebug/src/main/jni/websocket/websocket.c:317-396 | Over every run of calls the globals and the `close` calls are those of the descriptors' calls of origin, number for number |
| Lifecycle.CloseCount | libdebug/src/main/jni/websocket/websocket.c:317-396 | Over every run the descriptor of each call is closed once if a run ends before another call of its kind, and once more if its setup failed |
| Lifecycle.ClosedOnceIff | libdebug/src/main/jni/websocket/websocket.c:387-395 | Every descriptor is closed exactly once if and only if the ones that a run's end reaches are the ones whose setup did not fail |
| Lifecycle.InTurnClosedOnceIff | libdebug/src/main/java/com/snailstudio/xsdk/debug/serv/req/DatabaseHandler.java:433-445 | For terminals that do not overlap, every descriptor is closed exactly once if and only if no socket whose setup failed is accepted from |
| Lifecycle.OneTerminal | libdebug/src/main/jni/websocket/websocket.c:387-395 | Behind any run one terminal closes its connection and then its listening socket, and a second run closes nothing |
| Lifecycle.TwiceClosedExample | libdebug/src/main/jni/websocket/tcp_server.c:33-37 | A socket closed by its failed setup is closed again by the run that follows |
| Lifecycle.ReissuedNumberExample | libdebug/src/main/jni/websocket/websocket.c:387-395 | A number handed out twice and closed twice, both times for the first call; the second is never closed |
| Terminal.SendsParseUniquely | libdebug/src/main/jni/websocket/websocket.c:398-421 | Any series of complete sends is a stream with one reading as frames: one text frame a call, in order |
| Terminal.TermWebSocket.Send | libdebug/src/main/jni/websocket/websocket.c:398-421 | Nothing is written without a connection; otherwise the text frame of the first `jlength` bytes, exactly for lengths below 0xFFFF |
| Terminal.TermWebSocket.Accept | libdebug/src/main/jni/websocket/websocket.c:326-334 | The connection is recorded and gets the answer its request buffer calls for |
| Terminal.TermWebSocket.Run | libdebug/src/main/jni/websocket/websocket.c:336-396 | The receive loop's deliveries; when it ends by itself both descriptors are closed and unset, and otherwise the globals stay |
| Terminal.TermWebSocket.ServeTerminal | libdebug/src/main/java/com/snailstudio/xsdk/debug/serv/req/DatabaseHandler.java:715-728 | Handshake, response, deliveries and descriptors of accept followed by run, as one specification gives them |
| Terminal.TermWebSocket.RelayOutput | libdebug/src/main/java/com/snailstudio/xsdk/debug/serv/terminal/TerminalHelper.java:90-109 | What the shell puts out is written as one text frame a read, in order, or not at all without a connection |
| Terminal.EchoServer | libdebug/src/main/jni/websocket/websocket.c:268-315 | The answer to the request buffer, its response, then the echo of what follows, then the connection and the number `passive_server` returned closed |
| Terminal.TerminalRightIff | libdebug/src/main/jni/websocket/websocket.c:326-396 | From request to last frame: the client gets the answer RFC 6455 asks for, the loop ends by itself and the payloads are delivered, if and only if key, digest, frames and reads are as stated |
| Terminal.UnansweredIsServed | libdebug/src/main/jni/websocket/websocket.c:326-396 | A request that names no key is not answered, and its frames are delivered under the same conditions all the same |
| Terminal.EchoServerRightIff | libdebug/src/main/jni/websocket/websocket.c:268-315 | Under exactly those conditions the echo server ends by itself and its whole output is that response and then each payload in a text frame, in order |
| BigNum.BIGNUM.CorrectTop | libdebug/src/main/jni/websocket/include/openssl/bn.h:762-771 | Words unchanged, number unchanged, normal form reached, and the only `top` for which this holds |
| BigNum.BIGNUM.ZeroEx | libdebug/src/main/jni/websocket/include/openssl/bn.h:387-392 | The number becomes zero in normal form |
| BigNum.ValueOfMore | libdebug/src/main/jni/websocket/include/openssl/bn.h:733-741 | A word more counts its value times 2 to the 64 for each word below it |
| BigNum.WordIsPower | libdebug/src/main/jni/websocket/include/openssl/bn.h:665-666 | A word of 64 bits has 2 to the 64 values |
| BigNum.NormalFormIsUnique | libdebug/src/main/jni/websocket/include/openssl/bn.h:733-741 | Word lists in normal form have equal values exactly when they are equal |
| BigNum.NormalFormsCompare | libdebug/src/main/jni/websocket/include/openssl/bn.h:733-741 | Nonnegative numbers in normal form are equal exactly when `top` and the words in use are |
| BigNum.IsZeroRightIff | libdebug/src/main/jni/websocket/include/openssl/bn.h:381 | The predicate decides zero exactly when no word or some nonzero word is in use |
| BigNum.IsOddRight | libdebug/src/main/jni/websocket/include/openssl/bn.h:384 | The predicate decides oddness, in normal form or not |
| BigNum.AbsIsWordRightIff | libdebug/src/main/jni/websocket/include/openssl/bn.h:379-380 | For each word the predicate decides whether it is the absolute value, except that it denies the right one when the words above it are in use and zero |
| BigNum.IsWordRightIff | libdebug/src/main/jni/websocket/include/openssl/bn.h:382-383 | The same for the number with its sign, and for one |
| BigNum.NormalFormDecides | libdebug/src/main/jni/websocket/include/openssl/bn.h:379-383 | In normal form the word predicates decide the number, negative zero counting as zero |
| BigNum.NumBytesIsLeast | libdebug/src/main/jni/websocket/include/openssl/bn.h:376 | The octet count is the least that holds the value |
| BigNum.ExpandIsExact | libdebug/src/main/jni/websocket/include/openssl/bn.h:665-666 | The array is left alone exactly when every value of that many bits fits its words |
| Marshal.String8.Set | libdebug/src/main/jni/terminal/process.cpp:45-57 | The old buffer is freed and the new one holds the low bytes and a NUL |
| Marshal.NarrowedIs | libdebug/src/main/jni/terminal/process.cpp:45-57 | A string is seen up to the first character with a zero low byte, each character as its low byte |
| Marshal.PlainText | libdebug/src/main/jni/terminal/process.cpp:45-57 | Text of one-byte characters without NUL is seen as it is |
| Marshal.BuildVector | libdebug/src/main/jni/terminal/process.cpp:216-235 | The vector with copies of all strings and a terminator, or those made before the first unreadable string |
| Marshal.ReadFromMade | libdebug/src/main/jni/terminal/process.cpp:223-234 | Read up to its null, the vector gives every argument, narrowed and cut at its first NUL, in order |
| Marshal.BuiltReads | libdebug/src/main/jni/terminal/process.cpp:223-257 | A finished vector is null-terminated and reads as the arguments |
| Marshal.VectorOfText | libdebug/src/main/jni/terminal/process.cpp:223-257 | For plain text the program finds its arguments as they were given, in order |
| Marshal.CommandOfText | libdebug/src/main/jni/terminal/process.cpp:206-211 | And its command, unless that could not be read or copied |
| Marshal.FreeVector | libdebug/src/main/jni/terminal/process.cpp:261-266 | Every string and the vector are freed, each once |
| Marshal.CreateSubprocessInternal | libdebug/src/main/jni/terminal/process.cpp:201-275 | What the launched program reads, and for every outcome the exact blocks still live: none after a launch |
| Marshal.NothingLeakedIff | libdebug/src/main/jni/terminal/process.cpp:219-251 | The heap is as before exactly when the launch was reached or nothing had been allocated |
| Marshal.LeakedCounts | libdebug/src/main/jni/terminal/process.cpp:219-251 | In numbers, the blocks each early return leaves: the vector and the copies made so far, and a finished first vector with all of its copies |
| Descriptors.AtoiOfDecimal | libdebug/src/main/jni/terminal/process.cpp:96-99 | `atoi` reads a descriptor back from its decimal name, and out of a longer text |
| Descriptors.AtoiOfDigits | libdebug/src/main/jni/terminal/process.cpp:96-99 | Digits are read in base ten, the last one least |
| Descriptors.AtoiOfText | libdebug/src/main/jni/terminal/process.cpp:96-99 | White space and one sign before the digits and anything behind them; without digits the result is 0 |
| Descriptors.CloseNonstandard | libdebug/src/main/jni/terminal/process.cpp:92-119 | The descriptors closed, in order, and the ones left open, for any listing |
| Descriptors.ClosedInOrder | libdebug/src/main/jni/terminal/process.cpp:105-118 | Numbers are closed in the order of the listing |
| Descriptors.SurvivorsIffListed | libdebug/src/main/jni/terminal/process.cpp:105-118 | Exactly the standard descriptors and the one to keep stay open if and only if every other open one is listed |
| Descriptors.ProcListingLeavesSurvivors | libdebug/src/main/jni/terminal/process.cpp:101-118 | For the kernel's listing, in any order, exactly the survivors stay open and each other descriptor is closed once |
| Descriptors.ChildKeeps | libdebug/src/main/jni/terminal/process.cpp:92-119 | For the kernel's listing: of the open descriptors 0, 1, 2 and the one named in the environment stay open, and no other |
| Navigation.ParentOfChild | libdebug/src/main/assets/ws/js/app.js:290-302 | Going back from a child gives the directory it was entered from |
| Navigation.ChildOfParent | libdebug/src/main/assets/ws/js/app.js:290-302 | Every directory but the root is a named child of where going back leads, which is strictly shorter |
| Navigation.BackUndoesEnter | libdebug/src/main/assets/ws/js/app.js:270-302 | Entering a child and going back restores both paths, for either selection |
| Navigation.BacksReachRoot | libdebug/src/main/assets/ws/js/app.js:290-302 | Repeated steps back reach the selection's root after as many steps as there are directories below it, and no earlier |
| Navigation.AnswerIsWellFormed | libdebug/src/main/java/com/snailstudio/xsdk/debug/serv/req/DatabaseHandler.java:627-632 | The server answers every absolute path with a well-formed one, and a well-formed one with itself |
| Navigation.NamesOf | libdebug/src/main/java/com/snailstudio/xsdk/debug/serv/req/DatabaseHandler.java:627-632 | A path's names, as it is put together from slashes and names |
| Navigation.AnswerIsPath | libdebug/src/main/java/com/snailstudio/xsdk/debug/serv/req/DatabaseHandler.java:627-632 | The answer to any absolute path is the directory path of the same names |
| Navigation.RequestIsForShown | libdebug/src/main/assets/ws/js/app.js:256-310 | Opening, selecting, entering and going back make one request, exactly in the cases named, and it asks for the path the page then shows |
| Navigation.AnswerStays | libdebug/src/main/assets/ws/js/app.js:507-518 | The answer to that request leaves the page there |
| Navigation.BackShowsParent | libdebug/src/main/assets/ws/js/app.js:290-310 | Back and the answer to its request: the page shows the parent directory |
| Navigation.EnterShowsDirectory | libdebug/src/main/assets/ws/js/app.js:270-288 | The same for entering a directory |
| Navigation.SelectShowsPath | libdebug/src/main/assets/ws/js/app.js:187-254 | And for selecting Storage or ANR, which shows the path it was left at |
| Navigation.LoadShowsDirectory | libdebug/src/main/assets/ws/js/app.js:108-126 | And for a page opened on a directory |
| Navigation.GoodIffAdmissible | libdebug/src/main/assets/ws/js/app.js:270-302 | A step keeps both paths well formed, and the ANR path in its directory, exactly when it is admissible |
| Navigation.RunStaysGood | libdebug/src/main/assets/ws/js/app.js:187-310 | Over every run of admissible events, responses in any order, the paths stay good |
| Navigation.RunFromStart | libdebug/src/main/assets/ws/js/app.js:187-310 | From the start, every run that never turns to ANR and opens only well-formed directories keeps the paths good |
| Navigation.RowIsGoodIff | libdebug/src/main/java/com/snailstudio/xsdk/debug/serv/req/DatabaseHandler.java:659-690 | A click on a row keeps the paths good exactly when the entry is a directory, whose child path is entered, or a plain file, which changes nothing |
| Navigation.OtherIsEntered | libdebug/src/main/java/com/snailstudio/xsdk/debug/serv/req/DatabaseHandler.java:659-690 | An entry that is neither becomes the current path without a slash at its end, and the answer shows it as a directory |
| Navigation.SelectionsDoNotMix | libdebug/src/main/assets/ws/js/app.js:279-299 | What happens under one selection never changes the other's path |
| Navigation.DeliveredInOrder | libdebug/src/main/assets/ws/js/app.js:507-518 | Responses that arrive in order leave the last requested path in place |
| Navigation.LastAskedShownIff | libdebug/src/main/assets/ws/js/app.js:252-268 | For every run of clicks and responses under one selection that leaves nothing pending, the directory asked for last is shown exactly when the last response to arrive was for it |
| Navigation.OvertakenExample | libdebug/src/main/assets/ws/js/app.js:507-518 | Two directories entered whose responses overtake each other: the page ends up in the first |
| Navigation.StaleResponseExample | libdebug/src/main/assets/ws/js/app.js:511-518 | A response that arrives after the selection changed sets the wrong path, and going back then empties it |
| Navigation.Page.EnterFile | libdebug/src/main/assets/ws/js/app.js:270-288 | A file opens a window and changes no path; a directory becomes the selection's path and is requested |
| Navigation.Page.BackDirPath | libdebug/src/main/assets/ws/js/app.js:290-310 | The selection's path loses its last name, unless it is the root |
| Navigation.Page.HandleFileList | libdebug/src/main/assets/ws/js/app.js:507-518 | The response's path is stored under the selection of the moment |
| Query.SplitOfJoin | libdebug/src/main/assets/ws/js/app_terminal.js:63 | Parts without the separator are got back from their join |
| Query.JoinOfSplit | libdebug/src/main/assets/ws/js/app_terminal.js:63 | A split text is the join of parts that do not hold the separator |
| Query.GetRequest | libdebug/src/main/assets/ws/js/app_terminal.js:58-69 | The map of the specification, or no result when a value cannot be decoded |
| Query.PartIs | libdebug/src/main/assets/ws/js/app_terminal.js:64-66 | The key ends at the first equals sign and the value at the second; a part without one has the text of a missing value |
| Query.RequestedIs | libdebug/src/main/assets/ws/js/app_terminal.js:58-69 | For every url: nothing without a question mark, else exactly the keys of the parts, each with the value of its last part, unless some value cannot be decoded |
| Query.LastValuesAre | libdebug/src/main/assets/ws/js/app_terminal.js:64-66 | The value kept for a key is the last one given |
| Query.QueryRoundTrip | libdebug/src/main/assets/ws/js/app_terminal.js:58-69 | Reading the query of a list of pairs gives the last value of each key |
| Query.RoundTripIffKeysPlain | libdebug/src/main/assets/ws/js/app_terminal.js:58-69 | It does so exactly when no key holds a separator |
| Query.PortRoundTrip | libdebug/src/main/assets/ws/js/app.js:49 | The address opened for a terminal gives the page its port back |

## Left out

- Transport.Connection.Write: sends all it is given; short and failing writes are not modelled.
- Marshal.BuildVector: the copy of each string gets its memory, because the source does not look whether it did; the vectors and the command may fail to. A missing Java array is the empty one, as in the source, and a missing command is an unreadable one.
- Terminal.TermWebSocket.RelayOutput: the connection does not change while it runs, and the shell's reads are a parameter.
- Terminal.TermWebSocket.Send: complete sends one after the other; header and payload are two writes without a lock, and two sends at the same time are not modelled.
- Terminal.TermWebSocket.Run: closes the descriptors when the loop ends by itself; where the C code leaves defined behaviour nothing is said of what follows.
- Accepting.RequestAcceptedIff: SHA-1 and base64 are parameters: digests have twenty octets, no line of the request has the digest of another key, and base64 is injective, writes no CR and fits its 32-byte buffer.
- Navigation.BuildFileRow: only what a row's link passes on, and names without quotes, which the page would cut.
- BigNum.NumBits: `BN_num_bits` and `bn_expand2` have no bodies in the repository; the first is taken by its meaning, and of the second only when it is called. `bn_pollute` exists in debug builds only.
- Query.GetRequest: `decodeURIComponent` is a parameter, and the properties that every JavaScript object has are not modelled.
- Sockets, `accept`, `bind`, `listen`, `fork`, `execv`, ptys and signals: calls into the system; the descriptors they hand out and the result of the launch are parameters.
- The port scan of `tcp_server.c`; whether it closed the socket it was given is a parameter.
- Logging, which prints buffers that need not end in a NUL.
- `errno`, exceptions and messages of the launcher: the outcome only says that memory ran out.
- Widths of C integers beyond the bounds stated: totals stay below 2049, send lengths below 2^31, payload lengths below 2^64.
- The page's tables, dialogs and database requests: user interface.
- The other OpenSSL headers, which declare functions whose bodies are not in the repository.
