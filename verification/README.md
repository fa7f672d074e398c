# Verification of streamf's byte-stream engines

This Dafny project models four parts of streamf that move bytes under a protocol and proves what they
promise, for every input, every chunking of the streams and every interleaving of goroutines:

1. **WebSocket framing** (`third-party/websocket`, RFC 6455). The writer splits messages into frames in a
   reusable buffer, masks them in place and sets each header against its payload, while other goroutines
   write control frames on the same wire. The reader takes arbitrary chunks, answers control frames and
   skips what the application leaves unread. `Masking`, `Frames`, `Reading`, `Streams`, `ReadLimits`,
   `ReadConns`, `WriteConns`, `Exchange`, `Sharing` (several connections on one pool of write buffers), `Octets` (the same on
   the wire, in numbers).
2. **UDP over TCP** (`internal/network/udp.go`, `dialer/udp.go`). Datagrams travel as two-byte
   little-endian lengths and bytes; a listener hands them to one session per source address through
   bounded queues that drop their oldest entry. `UdpFraming` (framing and the decoding loop),
   `UdpSessions` (the listener as a state machine), `UdpOwnership`, `UdpDelivery`, `UdpSafety`,
   `UdpTable`, `UdpFlow`, `UdpRuns` (its invariants, and what they mean for whole runs), `UdpProgress`
   (what every state can still lead to).
3. **SNI sniffing** (`sniproxy`). A TLS ClientHello is read into a pool buffer, its server name parsed, and
   the bytes replayed. `ClientHello`, `SniConns`, `Pools`.
4. **Relays** (`internal/network/bridging.go`, `internal/httpmux/websocket.go`) on top of 1. `Relay`,
   `Sources`, `Sinks`.

Two further pieces of the WebSocket package are included: the extension header parser (`Extensions`,
`ExtensionTexts`) and the writer that holds back the last four bytes of a stream (`TruncWriters`).

## How to read it

Objects whose methods update fields are classes with those fields (`ReadConn`, `MessageReader`,
`WriteConn`, `MessageWriter`, `TcpFromUdp`, `SniConn`, `Pool`, `TruncWriter`, `WebsocketStream`), buffers are
arrays filled in place, and loops carry invariants. Their contracts speak of functions over plain
sequences: `Reading.ReadAll` is what a reader makes of a byte stream, `Frames.Fold` the messages a sequence
of frames amounts to, `UdpFraming.Decode` the datagrams of a stream, `ClientHello.Parse` the name in a
message, `Extensions.Headers` the extensions in header lines. The theorems are about those functions, and
about `UdpRuns.Reaches`, the runs of the listener's state machine; what the functions mean on the wire is
stated over octets, without them, in `Octets`, `UdpFraming` (`FrameOctets`, `DecodeOctets`,
`StreamOctets`), `SniConns` and `ExtensionTexts`. Inductive proofs are written out: wherever
Dafny would add an induction hypothesis of its own, `{:induction false}` keeps it from doing so.

Transports are byte sequences delivered in nondeterministic pieces. A failed transport write has taken any
number of bytes short of the whole frame. Masking keys, handler outcomes (`Config.pingFails`,
`Config.pongFails`, `Config.closeFails`), the result of UTF-8 validation (`Config.utf8`), memory alignment and mutex order are
arbitrary. 64-bit wrap-around of `readLength` is explicit (`Bytes.Int64`). Words are little-endian. Slices are
shorter than 2^62 bytes.

Findings, each with its exact condition and an input:

- A message the application abandons counts against the read limit of the next one: `NextReader` resets
  `readLength` before it skips the remaining frames, not after (`ReadLimits.AfterAbandonedMessage`,
  `ReadLimits.UnreadMessageRefusesNext`).
- On a transport that reports the end of the stream together with its last bytes, a message cut behind a
  frame without FIN looks complete to its reader, and a relay passes it on as a whole message
  (`ReadConns.EarlyEndReport`, `Exchange.EndsOpen` in `Exchange.ReadBack`, `Exchange.EarlyEndMisleads`).
- Two length reads of the ClientHello parser are not covered by its guards. On a whole record of 43 bytes, or
  one that ends one byte behind the session id, parsing panics in a goroutine without a recover, which stops
  the process, so nothing is replayed (`ClientHello.StaysInside`, `SniConns.CrashesExactly`,
  `SniConns.CrashExample`).
- A ClientHello without an extension block, which TLS 1.2 allows, is reported as an invalid compression list
  instead of as having no SNI (`ClientHello.ParseSerialise`, `ClientHello.NoExtensionBlock`).
- `truncWriter.Write` returns the number of bytes it was given only if they all fit behind those held
  (`TruncWriters.TruncWriter.Write`, `TruncWriters.ShortCount`).

## Model

| member | source | states |
|---|---|---|
| Masking.MaskBytesByte | third-party/websocket/mask_safe.go:10-16 | The byte loop leaves b[lo..hi] masked as MaskSeq says, the rest alone, and returns the next key position |
| Masking.MaskBytesWord | third-party/websocket/mask.go:15-59 | The head/word/tail form has the same effect and result as the byte loop for every key, position, length, alignment and word size 4 or 8 |
| Masking.MaskWords | third-party/websocket/mask.go:35-49 | The word loop, with the key rotated to the position and read as one word, masks the words byte for byte |
| Masking.WordXor | third-party/websocket/mask.go:45-49 | Exclusive-or of two little-endian words is the bytewise exclusive-or of their bytes |
| Masking.MaskTwice | third-party/websocket/conn.go:1079-1081 | Masking again with the same key and position undoes masking |
| Masking.MaskConcat | third-party/websocket/conn.go:1079-1081 | Masking a + b is masking a and then b from the position a leaves, so chunked unmasking undoes one-shot masking |
| Frames.Raw | third-party/websocket/conn.go:583-628 | The wire form of a frame for either role is valid and stands for that frame |
| Frames.CloseIsLast | third-party/websocket/conn.go:410-412 | A legal run of frames has at most one close frame, and nothing after it (section 5.5.1 of RFC 6455) |
| Streams.CountIsExact | third-party/websocket/conn.go:937-951 | Adding a frame to readLength in wrapping int64 refuses it exactly when the true sum passes 2^63 - 1 or the limit, and otherwise gives the true sum |
| Streams.AdvanceHeader | third-party/websocket/conn.go:827-935 | Parsing the header bytes of any valid frame of the right role recovers its opcode, FIN bit, length and key, in each of the three length forms |
| Streams.AdvanceAccepts | third-party/websocket/conn.go:811-1000 | advanceFrame passes a frame exactly when the fragmentation automaton accepts it, its bits fit the role, its length is in bounds and its handler succeeds |
| Streams.AcceptsExactlyLegalRuns | third-party/websocket/conn.go:811-1000 | The frame sequences read without error are exactly the runs of the RFC 6455 fragmentation automaton (sections 5.2, 5.4, 5.5), both directions |
| Streams.OneFrame | third-party/websocket/conn.go:1023-1112 | One acceptable frame advances reading exactly as it advances the automaton: message extended, finished or untouched |
| Streams.ReadsFrames | third-party/websocket/conn.go:1023-1112 | Any accepted run followed by any bytes is read as the messages the run forms, then as those bytes would be from there |
| Streams.RoundTrip | third-party/websocket/conn.go:573-1112 | Whatever legal frames a peer of the opposite role writes, fragmented and interleaved with pings and pongs in any way under any keys, are read as exactly the messages they form |
| Streams.CloseEndsReading | third-party/websocket/conn.go:981-998 | After a well-formed close frame nothing more is read, whatever follows, and its code is reported |
| Streams.Truncation | third-party/websocket/conn.go:1065-1112 | From any strict prefix of a legal stream the reader yields the messages wholly in it and the start of the next, and the end of that one is never reported |
| Streams.CutFrame | third-party/websocket/conn.go:377-386 | A frame cut anywhere yields the payload bytes present and an unexpected end |
| Reading.InMessageStep | third-party/websocket/conn.go:868-877 | Inside a message the next data frame can only be a continuation |
| Reading.ReadChunk | third-party/websocket/conn.go:1073-1091 | Taking any part of the current payload first changes nothing in what the message delivers, unmasking included |
| Reading.PayloadEndChunk | third-party/websocket/conn.go:1073-1091 | Taking any part of the current payload first changes nothing in the state the reader has when the last byte of the stream is payload |
| Reading.NextKeepsEnd | third-party/websocket/conn.go:1023-1060 | Nor does opening the next message |
| ReadLimits.AdvanceCounts | third-party/websocket/conn.go:937-951 | An accepted data frame raises readLength by exactly its payload length, and never past the limit |
| ReadLimits.DeliveredWithinCap | third-party/websocket/conn.go:1065-1091 | What a message still delivers, with what it has delivered, stays within the limit |
| ReadLimits.ReadLimitHolds | third-party/websocket/conn.go:937-951 | No message NextReader opens delivers more than the limit, for every stream and every state |
| ReadLimits.SkippingCounts | third-party/websocket/conn.go:1031-1036 | Skipping an unread message leaves its remaining frames counted in readLength |
| ReadLimits.SkipsQuiet | third-party/websocket/conn.go:1031-1060 | Pings and pongs between messages change neither what NextReader finds behind them nor readLength |
| ReadLimits.AfterAbandonedMessage | third-party/websocket/conn.go:1031-1060 | After an unread message the next one, behind any pings and pongs, opens if and only if its first frame fits under the limit together with the frames skipped; after a message read to its end, if and only if it fits by itself |
| ReadLimits.UnreadMessageRefusesNext | third-party/websocket/conn.go:1031-1060 | Concrete streams: leaving a two-frame message unread makes the reader refuse a next message it accepts otherwise |
| ReadConns.ReadConn.constructor | third-party/websocket/conn.go:292-331 | A new connection is at a message boundary with nothing counted |
| ReadConns.ReadConn.ReadBytes | third-party/websocket/conn.go:377-386 | Takes exactly n bytes, or all that is left with an error |
| ReadConns.ReadConn.SetReadRemaining | third-party/websocket/conn.go:335-342 | A negative count is refused and leaves readRemaining as it was |
| ReadConns.ReadConn.HandleProtocolError | third-party/websocket/conn.go:1002-1013 | Sends one close frame with code 1002 and at most 125 bytes, and returns the violation or, when that frame cannot be written, the write error |
| ReadConns.ReadConn.AdvanceFrame | third-party/websocket/conn.go:811-1000 | Skips the rest of the last frame and computes Reading.Advance: same fields, same stream position, same error, that of a close frame that cannot be written included; the control frames it answers with are exactly those the frame calls for |
| ReadConns.ReadConn.CheckHeader | third-party/websocket/conn.go:834-887 | The accumulated header errors are empty exactly when the header is acceptable, and readFinal is set by data and continuation frames |
| ReadConns.ReadConn.ReadLength | third-party/websocket/conn.go:901-920 | The 7, 16 or 64 bit length, a set top bit being an error |
| ReadConns.ReadConn.FinishFrame | third-party/websocket/conn.go:933-1000 | Data frames are counted against the limit, with a 1009 close frame exactly when the count passes it without wrapping; control payloads are read whole and unmasked |
| ReadConns.ReadConn.Process | third-party/websocket/conn.go:969-998 | A ping is answered with its payload, a close with its code, a bad close with 1002; a ping, pong or close handler that fails fails the step |
| ReadConns.ReadConn.NextReader | third-party/websocket/conn.go:1023-1060 | Computes Reading.NextReader; an error once set stays and is returned unchanged |
| ReadConns.MessageReader.ReadPayload | third-party/websocket/conn.go:1073-1091 | Delivers and unmasks a chunk of the current frame; the message it belongs to is the chunk and what follows; an end reported with it comes in the state PayloadEnd gives the stream |
| ReadConns.MessageReader.Read | third-party/websocket/conn.go:1065-1112 | The current reader delivers the message piece by piece and reports io.EOF only at its true end, or early in the state PayloadEnd gives the stream; a reader left behind or on a failed connection changes nothing |
| ReadConns.EarlyEndReport | third-party/websocket/conn.go:1073-1091 | With the end of the stream reported together with payload, the report is right if and only if the payload does not complete a frame without FIN |
| WriteConns.WireGrows | third-party/websocket/conn.go:388-414 | A whole frame the automaton accepts extends a legal wire to a legal wire |
| WriteConns.WireTorn | third-party/websocket/conn.go:402-409 | A failed write leaves whole frames and one part of the next |
| WriteConns.FrameInPlace | third-party/websocket/conn.go:597-638 | Header right-justified, key and masked payload side by side in the buffer are the wire form of the frame |
| WriteConns.NextInMessage | third-party/websocket/conn.go:573-587 | The frame of the bytes buffered and extra is the next the automaton takes, and extends or ends the message |
| WriteConns.WriteConn.constructor | third-party/websocket/conn.go:292-331 | A new connection has written nothing; its buffer is the one given, with or without a pool, or one of the asked size or 4096 and 14 for the header, or none with a pool |
| WriteConns.WriteConn.WriteFatal | third-party/websocket/conn.go:367-375 | The first write error stays |
| WriteConns.WriteConn.Send | third-party/websocket/conn.go:388-414 | The critical section: nothing after an error; otherwise one whole frame, or part of one and the connection failed; a close frame ends writing |
| WriteConns.WriteConn.WriteControlLocked | third-party/websocket/conn.go:424-487 | One whole control frame at most, refused when not a control type or over 125 bytes; messages in progress are untouched |
| WriteConns.WriteConn.WriteControl | third-party/websocket/conn.go:424-487 | On success its frame is the last on the wire; a type other than 8, 9 and 10 and a length over 125 are refused with errors of their own, and nothing else is; a timeout changes nothing, and any other error is the one the connection keeps; messages are untouched in all cases |
| WriteConns.WriteConn.OthersWrite | third-party/websocket/conn.go:1164-1202 | Any number of control frames from other goroutines between two critical sections keeps the wire legal and the message in progress as it was |
| WriteConns.WriteConn.Write | third-party/websocket/conn.go:388-414 | The data writer adds its frame to whatever control frames came before, or fails and leaves at most part of it |
| WriteConns.WriteConn.WriteAlone | third-party/websocket/conn.go:633-645 | The same between the two changes of isWriting; with one data writer the flag is never found set |
| WriteConns.WriteConn.EndPrevious | third-party/websocket/conn.go:491-499 | The previous message, if open, is on the wire whole, or the connection has failed with at most a beginning of it in flight |
| WriteConns.WriteConn.BeginMessage | third-party/websocket/conn.go:490-525 | As EndPrevious; then bad types and failed connections are refused without holding a buffer, and otherwise the new writer has one |
| WriteConns.WriteConn.TakeBuffer | third-party/websocket/conn.go:516-523 | A buffer from the pool or a new one; the pool no longer has it |
| WriteConns.WriteConn.NextWriter | third-party/websocket/conn.go:535-547 | As BeginMessage, failures included, and the new writer is the current one; exactly the types other than 1, 2, 8, 9 and 10 are bad; Valid keeps gets == puts + 1 exactly while a writer is live |
| WriteConns.WriteConn.WriteMessage | third-party/websocket/conn.go:775-798 | On success the message is on the wire whole, after the previous one if that was open, and a server writes it as one frame; on failure there is in flight what was before, a beginning of the previous message or a beginning of this one, and no buffer is held |
| WriteConns.WriteConn.WriteFast | third-party/websocket/conn.go:777-788 | The server path: one frame from the buffer and the rest of the data, with the same promise |
| WriteConns.WriteConn.WriteBuffered | third-party/websocket/conn.go:790-797 | The client path through a message writer, with the same promise |
| WriteConns.MessageWriter.EndMessage | third-party/websocket/conn.go:557-569 | The first error ends the message and puts its buffer back, once |
| WriteConns.MessageWriter.PutHeader | third-party/websocket/conn.go:583-618 | The header ends where the key or payload begins and leaves everything from there on alone |
| WriteConns.MessageWriter.PutMask | third-party/websocket/conn.go:620-623 | Key in place, payload masked in place, header space untouched |
| WriteConns.MessageWriter.BuildFrame | third-party/websocket/conn.go:573-628 | The buffer from framePos on, with extra behind it, is the wire form of the frame of the buffered bytes |
| WriteConns.MessageWriter.Transmit | third-party/websocket/conn.go:629-658 | The frame reaches the wire and the message grows or is done, or writing has failed with at most part of it written |
| WriteConns.MessageWriter.FlushFrame | third-party/websocket/conn.go:573-658 | Not final: buffer kept and emptied, next frame a continuation. Final: message on the wire, buffer back. Error: message ended, buffer back, oversize control frames refused before anything is written |
| WriteConns.MessageWriter.NCopy | third-party/websocket/conn.go:660-672 | As much as fits of what is asked, after a flush that is made only when the buffer is full |
| WriteConns.MessageWriter.Fill | third-party/websocket/conn.go:688-698 | All of p is buffered or flushed, in order, exactly once |
| WriteConns.MessageWriter.Write | third-party/websocket/conn.go:674-699 | Extends the message by p or ends it; on an ended message changes nothing, another message's buffer included |
| WriteConns.MessageWriter.WriteString | third-party/websocket/conn.go:701-717 | As Write |
| WriteConns.MessageWriter.ReadFrom | third-party/websocket/conn.go:719-742 | Extends the message by everything the source delivers and reports how the source ended, or ends the message with a beginning of it |
| WriteConns.MessageWriter.Close | third-party/websocket/conn.go:744-749 | The message is on the wire whole, or ended by the error; a second Close changes nothing |
| Octets.WrittenOctets | third-party/websocket/conn.go:583-638 | Any frame as either role writes it, octet by octet: 0x80 for FIN, the opcode, the length in the shortest of three forms, 0x80 and the key for a client |
| Octets.ServerOctets | third-party/websocket/conn.go:63-84 | For every payload of at most 125 octets a server writes text as 0x81, binary as 0x82, close, ping and pong as 0x88, 0x89 and 0x8A, and fragments as 0x01, 0x02, 0x00 and 0x80, then the length and the payload |
| Octets.MaskedOctet | third-party/websocket/mask_safe.go:10-16 | Octet i of a masked payload, bit by bit, from octet i mod 4 of the key |
| Octets.HeaderOctets | third-party/websocket/conn.go:827-887 | Of all 65536 pairs of first octets exactly those pass that have the mask bit of the role and are 01, 81, 02 or 82 between messages, 00 or 80 within one, or 88, 89 or 8A with a length of at most 125 |
| Octets.Refused | third-party/websocket/conn.go:827-887 | Every other pair, whatever follows it, is a protocol error |
| Octets.DataOctets | third-party/websocket/conn.go:853-953 | The four openings are read as type 1 or 2 and the two continuations as type 0, with the FIN bit, length and payload they carry |
| Octets.LimitOctets | third-party/websocket/conn.go:937-951 | One that takes the message past the limit is refused as such |
| Octets.PingPongOctets | third-party/websocket/conn.go:955-980 | 0x89 and 0x8A are read as ping and pong with their payload at any point of a message, which stays as it is |
| Octets.CloseOctets | third-party/websocket/conn.go:211-232 | A close with code c and a text is reported with c if and only if the text is UTF-8 and c is 1000 to 1003, 1007 to 1013 or 3000 to 4999; otherwise it is a protocol error |
| Octets.BareCloseOctets | third-party/websocket/conn.go:981-998 | A close of no or one octet is reported as 1005 |
| Octets.PingAnswered | third-party/websocket/conn.go:1189-1202 | A ping is answered by one frame, a pong of the same payload whose first octet is 0x8A; a pong by none |
| Octets.CloseAnswered | third-party/websocket/conn.go:1164-1175 | A valid close is answered by one frame, a close with the same two code octets; an invalid one by a close with 03 EA |
| Octets.BareCloseAnswered | third-party/websocket/conn.go:1255-1269 | A close without a code is answered by one without a code |
| Octets.RefusalAnswered | third-party/websocket/conn.go:1002-1013 | A protocol error is answered by a close with 03 EA, a message over the limit by a close with 03 F1 |
| Octets.MessageOctets | third-party/websocket/conn.go:1023-1112 | An unfragmented message on the wire is read as one message of its type and payload |
| Octets.FragmentedOctets | third-party/websocket/conn.go:1023-1112 | So is one in two fragments with a ping between them |
| Octets.CutOctets | third-party/websocket/conn.go:1073-1091 | A message frame cut anywhere in its payload gives exactly the octets before the cut and an unexpected end |
| Octets.EndOctets | third-party/websocket/conn.go:1073-1091 | A stream that ends with the last octet of a nonempty data frame ends open if and only if the frame has no FIN |
| Octets.SkippedPastEnd | third-party/websocket/conn.go:813-819 | Passing over the rest of an unread frame that is not there as a whole is an end of the stream |
| Octets.Unanswered | third-party/websocket/conn.go:811-1000 | Data frames, pongs that fail and ends of the stream are not answered |
| Octets.CloseRoundTrip | third-party/websocket/conn.go:1255-1269 | What an endpoint sends with FormatCloseMessage is reported by its peer with the same code, behind all messages written before it, whatever follows |
| Octets.WriteOctets | third-party/websocket/conn.go:775-798 | A message of a server, of any of the five types and any length, ends the wire with 0x80 plus its type, its length and its payload; other types are refused |
| Octets.ReceiveControl | third-party/websocket/conn.go:955-998 | A control frame read by the one half of a connection has its answer at the end of the wire of the other, unless that write fails |
| Exchange.ReadOne | third-party/websocket/conn.go:1065-1112 | Reading a message with any buffers gives its payload and its end; an early end comes in the state PayloadEnd gives the stream |
| Exchange.EarlyEnding | third-party/websocket/conn.go:1073-1091 | What a stream that ends in or behind a frame amounts to: the message, when the frame had FIN, otherwise a message cut short |
| Exchange.ReadBack | third-party/websocket/conn.go:1023-1112 | Reading a stream with any chunks and any buffers gives ReadAll of it; over a transport that reports the end together with payload it gives that or what EarlyOutcome makes of it in the state PayloadEnd gives the stream, and then its messages differ exactly when the stream ends right behind a frame without FIN |
| Exchange.EarlyEndMisleads | third-party/websocket/conn.go:1085-1090 | The stream 1, 1, 97 read from its start: the message is cut, the early report is io.EOF, and the outcome counts it as whole |
| Exchange.CutFrameCompletesNothing | third-party/websocket/conn.go:811-1112 | A frame cut short, over the limit or not, completes no message and yields only a beginning of its own |
| Exchange.WireReadsBack | third-party/websocket/conn.go:367-487 | Any prefix of a connection's wire, torn last frame included, is read as a prefix of the messages written and the start of the next; all of it as exactly those messages |
| Exchange.WritePieces | third-party/websocket/conn.go:674-742 | A message cut anywhere into Write, WriteString and ReadFrom calls is the concatenation |
| Exchange.WriteOne | third-party/websocket/conn.go:535-798 | A message written in any of the ways is done, or at most a beginning of it is in flight |
| Exchange.SendAll | third-party/websocket/conn.go:573-798 | The messages whose writing succeeded are done, in order; of the one that failed at most a beginning is in flight |
| Exchange.Converse | third-party/websocket/conn.go:573-1112 | End to end, for either role, any buffer size, pool or none, any interleaved control frames, any transport failure, any cut and either kind of transport: the peer reads a prefix of the messages sent and a beginning of the next, which passes for whole only over an eager transport on a wire cut right behind a frame without FIN; exactly the messages when the connection has no write error and the wire is not cut |
| Sharing.SharingIsSafe | third-party/websocket/conn.go:490-570 | Whatever one connection does with its own buffer and those of the pool leaves another one on that pool sound, with no buffer common to the two |
| Sharing.OneTurn | third-party/websocket/conn.go:490-570 | A message written on one connection leaves another on the same pool, perhaps in the middle of a message, its fields, writers and buffer as they were |
| Sharing.TakeTurns | third-party/websocket/conn.go:490-570 | Two connections on one pool that write their messages in any order have each the messages of its own done, all of them unless it fails, and never a buffer in common |
| Relay.ForwardMessage | internal/network/bridging.go:80-92 | A message is passed on whole, or what was delivered of a cut one is closed off as a message, or writing has failed |
| Relay.CopyMessage | internal/network/bridging.go:84-88 | A new message gets all that its reader delivers; without an error of the reader that is the message whole, or as an early end has cut it short |
| Relay.ForwardWebsocket | internal/network/bridging.go:67-94 | Exactly the complete input messages are written, in order, type and payload unchanged, whatever the fragmentation and the transport, then at most the message an input error or an early end cut short; all of them unless writing fails |
| Relay.CopyBuffer | internal/network/bridging.go:168-206 | What is written is a beginning of the source, all of it when nothing fails, and the count is exact |
| Relay.ReadWebsocket | internal/network/bridging.go:96-127 | The payload bytes of the messages reach the writer in order, over either kind of transport, all of them unless it fails |
| Relay.WriteWebsocket | internal/network/bridging.go:128-142 | The messages sent, with what is in flight, are a beginning of the source; all of it, and nothing in flight, unless writing fails |
| Relay.Tunnel | internal/network/bridging.go:96-142 | Stream to WebSocket to stream delivers a prefix of the source under any failure, any cut and either kind of transport; the whole source when the connection has no write error, the wire is not cut and the sink does not fail |
| Relay.WebsocketStream.Read | internal/httpmux/websocket.go:33-48 | Delivers the concatenated payloads over any transport and for any buffer; a read of no bytes without an error passes the end of a message, of which there are finitely many; an error comes with or after the last byte |
| Relay.WebsocketStream.ReadToEnd | internal/httpmux/websocket.go:33-48 | Reading with buffers of any sizes comes to an end, with all payload bytes of the stream in order |
| Relay.WebsocketStream.Write | internal/httpmux/websocket.go:26-32 | One binary message per write, counted only when written |
| Sources.ReadFull | sniproxy/sniff.go:24-55 | io.ReadFull over any chunking fills the slice with the next bytes of the stream, or drains it |
| Sources.Source.Read | third-party/websocket/conn.go:719-740 | A reader, be it a byte stream or a message over either kind of transport, delivers its bytes in order; its end is io.EOF when it is a true one, and over a transport that reports ends on their own only then |
| Sources.NoMorePayload | third-party/websocket/conn.go:1073-1091 | At the end of the stream a message is whole if its last frame is read and has FIN, and otherwise cut short |
| UdpFraming.DecodeFrames | internal/network/udp.go:313-346 | Decoding any framed datagrams followed by part of a frame gives the nonempty ones, for every length up to 65535 |
| UdpFraming.FrameOctets | internal/network/udp.go:230-230 | A frame is the two low-order octets of the length, the lowest first, and the datagram, for any length |
| UdpFraming.DecodeOctets | internal/network/udp.go:313-346 | Such octets give that datagram unless it is empty, then what follows gives; anything short of them gives nothing |
| UdpFraming.TakeBuffer | internal/network/udp.go:303-312 | A pool buffer when the pool has them large enough, otherwise a new one |
| UdpFraming.DecodeLoop | internal/network/udp.go:297-357 | The decoding loop writes out a beginning of the datagrams of its stream, all of them unless the socket fails, however the buffer is replaced; the buffer it took is in the pool again, once |
| UdpFraming.TcpFromUdp.Read | dialer/udp.go:177-203 | Delivers the frames of the nonempty datagrams in order, in any pieces; an error of the socket loses nothing, a lasting one comes when all is delivered, and an empty read tells whether Close was called |
| UdpFraming.TcpFromUdp.Close | dialer/udp.go:278-287 | The frame in the buffer is still delivered, nothing after it |
| UdpFraming.TcpFromUdp.Receive | dialer/udp.go:194-200 | A datagram becomes a frame in the buffer without changing what is outstanding |
| UdpFraming.StreamOctets | dialer/udp.go:177-203 | The stream of any datagrams, one by one: length octets and bytes, an oversized one cut to the first size bytes, an empty one passed over |
| UdpFraming.PrefixDecodes | dialer/udp.go:245-272 | Any prefix of a framed stream decodes to a prefix of its datagrams |
| UdpFraming.Deliver | dialer/udp.go:177-277 | Encoder with a failing socket, stream cut and chunked in any way, decoder: the nonempty datagrams of what was read, in order, a prefix of them when the sink fails; all datagrams when no socket fails and nothing is cut |
| UdpOwnership.MovingKeepsOwned | internal/network/udp.go:101-143 | Moving buffers between places, and giving back one that is held nowhere any more, keeps one holder per buffer and none for a pooled one |
| UdpOwnership.RunKeepsOwned | internal/network/udp.go:101-143 | Every step of run keeps each buffer in one place |
| UdpOwnership.DispatchKeepsOwned | internal/network/udp.go:152-188 | Every step of onMessage keeps each buffer in one place |
| UdpOwnership.PutKeepsOwned | internal/network/udp.go:224-260 | Every step of putRead keeps each buffer in one place, dropping included |
| UdpOwnership.SessionKeepsOwned | internal/network/udp.go:261-283 | Every step of a reader or closer keeps each buffer in one place |
| UdpDelivery.TakeKeeps | internal/network/udp.go:271-282 | Taking a message from the queue keeps the order and content of what is delivered |
| UdpDelivery.DeliverKeeps | internal/network/udp.go:263-270 | Returning any part of the current frame keeps what has been returned and what is left equal to the frames taken |
| UdpDelivery.PushKeeps | internal/network/udp.go:237-245 | Queueing the newest datagram keeps the queue within its bound and in order |
| UdpDelivery.DropKeeps | internal/network/udp.go:247-257 | Dropping the oldest drops one whole frame and keeps the rest in order |
| UdpSafety.MemoryKeepsSessions | internal/network/udp.go:116-141 | Writing a buffer held elsewhere changes nothing in any queue or slot |
| UdpSafety.WritingKeepsDelivering | internal/network/udp.go:230-230 | Writing the length makes the frame of the datagram at hand and touches no other |
| UdpTable.DispatchKeepsTable | internal/network/udp.go:152-188 | Each select of onMessage keeps table, offered session and sessions in agreement |
| UdpTable.StepKeepsTable | internal/network/udp.go:152-188 | Every step of every goroutine does |
| UdpFlow.StepKeepsFlow | internal/network/udp.go:101-188 | No step loses, doubles or reorders a datagram between socket and session while both goroutines run |
| UdpRuns.StepsKeepSafe | internal/network/udp.go:101-283 | All invariants hold at every state of every run, by induction over its steps |
| UdpRuns.RunsAreSafe | internal/network/udp.go:101-371 | All invariants hold in every state reached from the start, in every interleaving |
| UdpRuns.NextCanHand | internal/network/udp.go:165-171 | In every run, a message whose session is known can be handed to it |
| UdpRuns.OfferedCanHand | internal/network/udp.go:172-184 | In every run, so can one whose session Accept takes |
| UdpRuns.PutNeverBlocks | internal/network/udp.go:224-260 | In every run, putRead has a step to take at each of its stages: a full queue never holds up the listener |
| UdpRuns.ReaderNeverBlocks | internal/network/udp.go:263-270 | In every run, a reader with a frame can take any number of its bytes, or none |
| UdpRuns.ReadersGetWholeFrames | internal/network/udp.go:224-283 | In every run a reader has got a prefix of the frames of a selection of its datagrams, each numbered above the one before, the queue is within its bound, and the newest datagram is queued or taken once putRead returns on an open session |
| UdpRuns.ReadersDecode | internal/network/udp.go:224-283 | In every run, decoding what a reader has got gives exactly the nonempty datagrams finished so far |
| UdpRuns.PutOnce | internal/network/udp.go:101-283 | In every run, a buffer is put back only by its one holder, is not in the pool already, and nothing in the listener holds it afterwards |
| UdpRuns.NoneLostByStep | internal/network/udp.go:101-283 | A pool buffer held by the listener stays held until it is put back |
| UdpRuns.TableIsExact | internal/network/udp.go:152-188 | In every run, with the listener open and onMessage at its select, a session is in the table if and only if its first Close has not returned, and there is one such session per address |
| UdpRuns.NothingLostOnTheWay | internal/network/udp.go:101-188 | In every run, the datagrams handed to sessions are a prefix of those received, and with those still waiting all of them while the listener is open |
| UdpRuns.DatagramsGoHome | internal/network/udp.go:165-184 | In every run, a session's datagrams are those handed to it, in order, each from its own address |
| UdpProgress.TakeEnabled | internal/network/udp.go:272-279 | In every run, a reader with an empty slot can take from a queue that holds even one message |
| UdpProgress.HeadDelivered | internal/network/udp.go:261-283 | In every run, the datagram at the head of a queue can be returned whole, directly behind what has been read, by steps of its reader alone |
| UdpProgress.AnyDatagramArrives | internal/network/udp.go:101-283 | No dead end: from every state of every run with the listener open, a datagram of any content from any address, known or not, can be received and returned to its last byte by the reader of a session of that address |
| UdpProgress.GoroutinesReturn | internal/network/udp.go:101-188 | From every state of every run with the listener closed, run and onMessage can both return |
| UdpProgress.CloseReturns | internal/network/udp.go:359-371 | From every state of every run, the first Close of any session can return, and while the listener is open no table entry then names it |
| UdpProgress.OthersAreFree | pool/pool.go:37-59 | Other users of the pool may take any free buffer, write anything to it and put it back, and the listener may be closed at any time |
| UdpProgress.OnlyPutsFree | internal/network/udp.go:101-283 | A buffer becomes free by nothing but the puts PutOnce speaks of |
| Pools.Pool.Get | pool/pool.go:37-45 | A buffer of at least the size of the pool, and of a pool that no buffer was put back to twice one nobody else gets |
| Pools.Pool.Put | pool/pool.go:47-59 | Keeps the buffer unless it is too small; no buffer is in the pool twice afterwards if and only if none was and this one was not in it |
| ClientHello.ParseClientHello | sniproxy/sniff.go:64-132 | The parser with its cursor computes Parse, which works on what is left of the message |
| ClientHello.ParseExtensions | sniproxy/sniff.go:105-173 | The extension loop computes FromExtensions and ends, its position growing by at least 4 |
| ClientHello.ParseNames | sniproxy/sniff.go:133-166 | The server name branch computes FromNames |
| ClientHello.ParseSerialise | sniproxy/sniff.go:64-173 | For every well-formed ClientHello, the first name of the first server_name extension, SNI not found when there is none, and an invalid compression list when there is no extension block (section 4.1.2 of RFC 8446, section 3 of RFC 6066) |
| ClientHello.NoExtensionBlock | sniproxy/sniff.go:98-103 | A concrete TLS 1.2 hello without extensions: well-formed, and reported as an invalid compression list |
| ClientHello.ServerNameRead | sniproxy/sniff.go:117-173 | A hello whose first server_name extension has any body whatever, behind any other extensions: parsing is reading that body |
| ClientHello.FirstOctets | sniproxy/sniff.go:64-78 | Messages too short, of another record type or another handshake type are refused as such, by their octets |
| ClientHello.BodyOctets | sniproxy/sniff.go:80-116 | By positions: which of session identifier, cipher suites, compression methods and extensions reaches past the end of the message is what is reported |
| ClientHello.ExtensionOctets | sniproxy/sniff.go:117-172 | One round of the extension loop, by octets: the two lengths that are refused, the type 0 0 that has the names, and the step over any other |
| ClientHello.NameOctets | sniproxy/sniff.go:133-166 | What reading it gives, by its octets: which lengths and which name type are refused, with which error, and the name otherwise |
| ClientHello.ScanBlock | sniproxy/sniff.go:117-172 | The extension loop over any written extensions, whatever follows them |
| ClientHello.StaysInside | sniproxy/sniff.go:82-96 | Parsing stays inside the buffer if and only if the message does not end right before, or one byte into, the two lengths its guards leave out |
| SniConns.ReadClientHello | sniproxy/sniff.go:22-63 | What is kept and what is still in the stream are the original stream, for every outcome that leaves the connection open; closed, the number of bytes kept and the error are given by the bytes of the stream |
| SniConns.SniffingIs | sniproxy/sniff.go:24-63 | By its bytes: a stream closes the connection if and only if it has no whole record header, or starts a record of at least 38 bytes it does not complete; otherwise five bytes or the whole record are kept, with the error that goes with each |
| SniConns.ReadRecord | sniproxy/sniff.go:42-55 | The rest of the record behind the header, in the pool buffer or in a larger one, or the end of the stream |
| SniConns.CrashesExactly | sniproxy/sniff.go:82-96 | Parsing panics if and only if the stream starts with a whole ClientHello record of 43 bytes, or one that ends one byte behind the session id |
| SniConns.CrashExample | sniproxy/sniff.go:85-85 | A record of length 38, whatever its random bytes and whatever follows: kept, and parsed past its end |
| SniConns.SniffSni | sniproxy/sniff.go:11-21 | As ReadClientHello, and the name is Parse of the record; crashed on exactly the streams Crashes names |
| SniConns.SniConn.Read | sniproxy/listener.go:415-431 | Replays the kept bytes and then the connection, in any pieces; the buffer goes to the pool when its last byte is delivered, if it is of pool size, and not before or again; a read into an empty slice gives what the connection answers |
| SniConns.SniffsHello | sniproxy/sniff.go:11-63 | A well-formed hello at the head of any stream is kept whole and gives its host name |
| SniConns.SniffAndReplay | sniproxy/listener.go:295-431 | Closed and crashed are given by the bytes of the client stream, both ways; in every other case, TLS or not, everything read through SniConn, in reads of any sizes, is the original stream from byte 0 |
| TruncWriters.TruncWriter.Write | third-party/websocket/compression.go:67-93 | While downstream takes what it is given, bytes passed on and then those held are all bytes written, and exactly min(4, total) are held; the count returned is the number written if and only if they all fit behind the bytes held |
| TruncWriters.ShortCount | third-party/websocket/compression.go:80-92 | On a writer that holds four bytes, a fifth is taken, passes one on, and counts 0 |
| TruncWriters.TruncWriter.PassOn | third-party/websocket/compression.go:80-92 | As many held bytes go as new ones come, then the new ones but for the last four |
| TruncWriters.Shifted | third-party/websocket/compression.go:89-91 | Shifting the held bytes loses and reorders nothing |
| Extensions.ScanSpace | third-party/websocket/util.go:117-125 | Removes exactly the leading octets 32 and 9 |
| Extensions.ScanToken | third-party/websocket/util.go:129-137 | Splits off exactly the leading token octets, by the list of them |
| Extensions.TokenOctets | third-party/websocket/util.go:35-115 | The token octets are the letters, the digits and the fifteen signs of RFC 2616, section 2.2, listed by their codes |
| Extensions.ScanTokenOrQuoted | third-party/websocket/util.go:141-174 | The slice form and, from the first escape, the copying form both compute NextTokenOrQuoted |
| Extensions.ScanEscaped | third-party/websocket/util.go:150-170 | The copy never outgrows its buffer of one byte less than the text, and is the unescaped value |
| Extensions.ParseExtensions | third-party/websocket/util.go:228-283 | The nested loops with their jumps compute Headers, each taking some of its input |
| Extensions.ScanParams | third-party/websocket/util.go:250-271 | The parameter loop computes Params |
| ExtensionTexts.UnquoteSpelled | third-party/websocket/util.go:145-173 | Unquoting undoes quoting, however many bytes are escaped |
| ExtensionTexts.ParamRead | third-party/websocket/util.go:251-271 | A parameter with any spacing and an absent, token or quoted value is read as its key and value |
| ExtensionTexts.HeaderRead | third-party/websocket/util.go:243-281 | Every list of extensions, however spaced, quoted and escaped, is read back as the same list of maps |
| ExtensionTexts.HeadersRead | third-party/websocket/util.go:228-283 | So are lists spread over several headers |
| ExtensionTexts.MapOfDistinct | third-party/websocket/util.go:250-270 | With distinct keys the map has the name and exactly the parameters, each with its own value |
| ExtensionTexts.ItemThenAny | third-party/websocket/util.go:243-283 | A well-formed extension before a comma is taken whatever follows |
| ExtensionTexts.JunkAfterName | third-party/websocket/util.go:272-274 | One with anything but a semicolon or a comma behind its name is not taken, nor is the rest of its header |
| ExtensionTexts.NoKey | third-party/websocket/util.go:257-260 | Nor is one with a parameter that has no key |
| ExtensionTexts.JunkAfterValue | third-party/websocket/util.go:267-269 | Nor is one with anything but a semicolon or a comma behind a value |
| ExtensionTexts.Unclosed | third-party/websocket/util.go:141-174 | A quoted value that nothing closes is read as empty, and the rest of the header with it |
| ExtensionTexts.OneParam | third-party/websocket/util.go:228-283 | A name, a semicolon, a space, a key, an equals sign and a value are read as one map, for any tokens |
| ExtensionTexts.DeflateHeader | third-party/websocket/util.go:228-283 | permessage-deflate; client_max_window_bits=15 is read as its map |
| Bytes.FromBEOfBE | third-party/websocket/conn.go:605-613 | Big-endian encoding round trip |
| Bytes.FromLEOfLE | internal/network/udp.go:230-230 | Little-endian encoding round trip |

## Left out

- DEFLATE and the compressed message path: the codec is a library; `newCompressionWriter` and `newDecompressionReader` are nil here, so RSV1 is an error.
- `WritePreparedMessage`, two concurrent data writers, and the panics that detect them: the package asks for one data writer.
- Deadlines, tickers, idle timers and the sniff timeout: a timeout is a write that fails, a WriteControl that gives up, or a session closed at any step.
- The panic after a thousand reads on a failed connection.
- `tokenListContainsValue` and ASCII case folding: they add only easy members to the scanners proved here.
- `rt.ReadFrom` and `WriteTo` fast paths of `readWebsocket` and `forwarding`: standard-library copying.
- Pool `Get` and `Put` around the relay loops; one Get and one Put on a straight line.
- `udpListener`'s goroutines and `udpToTcp.putRead`/`Read`/`Close` are steps of a state machine on values, not methods on objects: that is what allows any interleaving, and what is lost is the text of the select loops. A rendezvous with onMessage and the table update that follows it are one step.
- The reply direction of a UDP session shares its decoding loop with `tcpFromUdp.run` (`UdpFraming.DecodeLoop`); its pipe is a byte stream, and the signals to the idle timer are left out.
- Other users of the write buffer pool between two calls on a connection: `Sharing.OthersKeepValid` says what they may do, `Sharing.TakeTurns` runs two connections on one pool; a step of one inside a call of another is not modelled.
- Configuration, dialers, bridges, routing, logging, the HTTP handshake.
- WriteConns.WriteConn.WriteControl: a deadline already passed and one that passes while waiting are the same outcome.
- WriteConns.WriteConn.constructor: a buffer given by the caller is longer than a header, as every caller in the package has it.
- ReadConns.ReadConn.HandleProtocolError: the text of the error is arbitrary.
- UdpRuns.ReadersDecode: requires datagrams of at most 65535 bytes, which is all UDP can carry.
- Exchange.Converse: stated for readers whose ping and pong handlers do not fail and for messages within the reader's limit; outside those the reader stops by design (`Streams.AcceptsExactlyLegalRuns`, `ReadLimits.ReadLimitHolds`).
- Relay.CopyBuffer: a writer's count lies between 0 and what it was given, so the branch for an impossible count is written out but never taken.
- ClientHello.ParseSerialise: a hello spread over several records is not covered; the source reads one record only.
