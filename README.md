# SJNetSock: the packet codec and the framing layer, in Dafny

SJNetSock is a small C++ socket library for Linux. Application code fills a
`DataPacket` with integers and strings. A `Socket` sends the packet as one
length-prefixed frame. On the other side, a `Socket` reassembles frames from
whatever pieces `recv` returns and hands them back one per call.

This project models that byte-level core and proves its properties:

- `sj.dfy` (module `Sj`): the byte, `Status` (`ERROR`, `OK`, `UNAVAILABLE`),
  `Mode` (`BLOCKING`, `NON_BLOCKING`), and how a failed `recv`/`send` is
  classified.
- `scalar.dfy` (module `ScalarCodec`): the in-memory form of `int8_t` …
  `int64_t`. A value is stored as its two's-complement bit pattern, lowest
  address first (the host is taken to be little-endian). The bit pattern is
  written as the number `x mod 2^N`, and its bytes as base-256 digits, rather
  than as Dafny bit-vectors. This is the same representation, stated with
  arithmetic the solver handles cheaply.
- `datapacket.dfy` (module `Packet`): the queue of a `DataPacket` as a
  sequence. Functions state what each `operator<<` / `operator>>` does to it.
  Lemmas prove round trips, FIFO order and the round trip of any sequence of
  writes. Class `DataPacket` performs the same byte-by-byte steps in place and
  is proved against those functions.
- `transport.dfy` (module `Transport`): the frame format, the reassembler
  `Receive` as a function of the residual buffer and the `recv` results, and
  class `Socket` with `ReceiveInto` and `SendTo` proved against it. Lemmas
  prove conservation of bytes, the success and failure exits, and delivery of
  frames however the stream is cut into reads.
- `aswritten.dfy` (module `AsWritten`): six places where the C++ does not do
  what it evidently means, each modelled as written, with a lemma that
  exhibits the difference (see "## Findings").

The OS is not modelled. Each `recv` outcome is an element of a
`seq<RecvResult>` handed to `ReceiveInto`. Each `send` outcome is a
`SendResult` parameter of `SendTo`, and the bytes that would be sent are
returned as `wire`. When the given `recv` results run out before a call
returns, the model reports `None`. The real call would wait or read again.

Where the C++ has a defect, the main model uses the evidently intended
behaviour, and `aswritten.dfy` records the code as written. One example is
the integer reader. The evident intent is a read that does nothing when
fewer than sizeof(T) bytes are queued. The code reads from any non-empty
queue (SJNetSock.hpp:94). `Packet.ReadScalar` does nothing in that case, and
`AsWritten.ReadGuardTooWeak` shows what the code does.

## Model

| member | source | states |
|---|---|---|
| Sj.FailureStatus | SJNetSock.cpp:114-121 | a failed call is never OK; it is UNAVAILABLE exactly when the socket is non-blocking and errno is EAGAIN or EWOULDBLOCK, otherwise ERROR |
| ScalarCodec.TwosComplement | SJNetSock.hpp:83-85 | the bit pattern of an intN is the unique number below 2^N congruent to the value modulo 2^N |
| ScalarCodec.OfTwosComplement | SJNetSock.hpp:95-99 | every N-bit pattern is the bit pattern of a value of the type |
| ScalarCodec.MemoryBytes | SJNetSock.hpp:83-85 | the in-memory form of a value has exactly sizeof(T) bytes |
| ScalarCodec.FromMemory | SJNetSock.hpp:95-99 | filling a variable's bytes yields a value of that variable's type |
| ScalarCodec.MemoryByteAt | SJNetSock.hpp:83-86 | byte i of a value's memory holds bits 8i..8i+7 of its bit pattern (little-endian layout) |
| ScalarCodec.MemoryRoundTrip | SJNetSock.hpp:81-104 | storing a value's bytes back into a variable of its type gives the value |
| ScalarCodec.MemoryOfFromMemory | SJNetSock.hpp:95-99 | every byte pattern of sizeof(T) bytes is the memory of the value built from it |
| ScalarCodec.MemoryInjective | SJNetSock.hpp:83-85 | two values of one type with the same bytes are equal |
| ScalarCodec.CharAsInt8 | SJNetSock.cpp:33 | casting a char to int8_t keeps its single byte |
| ScalarCodec.Int8AsChar | SJNetSock.cpp:47-48 | an int8_t read into a char keeps its byte, and is zero exactly when the char is '\0' |
| Packet.ReadScalar | SJNetSock.hpp:92-104 | with at least sizeof(T) bytes queued, the queue is the read value's bytes followed by the new queue; with fewer, value and queue are unchanged |
| Packet.TakeString | SJNetSock.cpp:43-53 | the result holds no 0; if a 0 is queued the queue is the string, that 0, then the rest; otherwise every byte is taken and nothing is left |
| Packet.ScalarRoundTrip | SJNetSock.hpp:81-104 | a written integer is read back and exactly its bytes are consumed, whatever follows |
| Packet.ReadEmptyIsNoOp | SJNetSock.hpp:94 | a read from an empty queue leaves destination and queue as they were |
| Packet.StringRoundTrip | SJNetSock.cpp:31-53 | a string without 0 bytes is read back, consuming its bytes and the terminator, whatever follows |
| Packet.ItemRoundTrip | SJNetSock.cpp:27-53 | any one written integer or 0-free string is read back by the read of the same shape |
| Packet.SerializeRoundTrip | SJNetSock.cpp:27-53 | reading back the same sequence of types in the same order reproduces every written value and leaves what followed |
| Packet.FifoPair | SJNetSock.hpp:79-104 | a written before b is read before b, and the queue is then empty |
| Packet.DataPacket.constructor | SJNetSock.cpp:21 | a new packet's queue is empty |
| Packet.DataPacket.AllDataReaded | SJNetSock.cpp:24-26 | OK exactly when the queue is empty, otherwise ERROR; the queue is not changed |
| Packet.DataPacket.Write | SJNetSock.hpp:81-90 | the value's sizeof(T) bytes are appended in address order and the earlier contents are unchanged |
| Packet.DataPacket.Read | SJNetSock.hpp:92-104 | the value read and the queue left are those of ReadScalar |
| Packet.DataPacket.WriteString | SJNetSock.cpp:31-37 | the string's bytes and then one 0 are appended |
| Packet.DataPacket.ReadString | SJNetSock.cpp:43-53 | the string read and the queue left are those of TakeString |
| Transport.DeclaredLength | SJNetSock.cpp:76-86 | the first two bytes read as a uint16 never exceed 65535 |
| Transport.LengthPrefix | SJNetSock.cpp:128-130 | the prefix is two bytes and declares the length modulo 2^16 |
| Transport.PrefixOfDeclared | SJNetSock.cpp:76-86 | any two bytes are the prefix of the length they declare |
| Transport.EncodeFrame | SJNetSock.cpp:127-137 | a frame is two bytes longer than its payload, declares the payload length modulo 2^16 and carries the payload after the prefix |
| Transport.ExtractFrame | SJNetSock.cpp:75-98 | a frame is found exactly when two bytes and the declared payload are buffered; the payload is then the declared number of bytes after the prefix, the rest is everything after it, and the buffer is that frame followed by the rest |
| Transport.FrameRoundTrip | SJNetSock.cpp:73-137 | a frame of at most 65535 payload bytes is taken back intact and what followed it stays buffered |
| Transport.OversizedFrameIsCut | SJNetSock.cpp:128 | a larger payload's length wraps, and the receiver takes only the first length-mod-2^16 bytes as the frame |
| Transport.ExtractFromStream | SJNetSock.cpp:75-98 | any buffered prefix of a stream that starts with a frame yields no frame while shorter than the frame, and exactly that frame once as long |
| Transport.ClassifyRecv | SJNetSock.cpp:111-124 | a raw read is OK exactly when recv returned bytes, and then carries them; a failed one carries none and its status is FailureStatus |
| Transport.Receive | SJNetSock.cpp:73-110 | one call uses at most the given recv results; a non-OK result hands out no payload; a failed call used at least one read |
| Transport.CompleteFrameReturnedAtOnce | SJNetSock.cpp:75-97 | with a whole frame buffered, the call returns OK with the payload r[2..2+L] and residual r[2+L..] without reading |
| Transport.FailedReadReturned | SJNetSock.cpp:102-106 | a failed raw read on an incomplete buffer ends the call with its own status and the residual unchanged |
| Transport.ReceiveConserves | SJNetSock.cpp:73-110 | what a call consumed is exactly the frame returned followed by the new residual; a call returning without a frame leaves no complete frame buffered |
| Transport.BlockingNeverUnavailable | SJNetSock.cpp:114-121 | a blocking socket never reports UNAVAILABLE |
| Transport.FrameProgress | SJNetSock.cpp:73-110 | on a stream starting with a frame, one call either returns that frame keeping the rest, or returns UNAVAILABLE keeping everything read |
| Transport.ChunkedDelivery | SJNetSock.cpp:73-110 | however a frame is cut into reads, with UNAVAILABLE answers anywhere, calling again on UNAVAILABLE returns it intact and keeps what follows |
| Transport.TwoFramesInOrder | SJNetSock.cpp:73-110 | two frames sent back to back come back in order from two calls, with an empty residual |
| Transport.PeekLength | SJNetSock.cpp:76-86 | the length copied byte by byte is the declared length |
| Transport.PushBytes | SJNetSock.cpp:89-94 | the bytes are appended to the packet's queue in order |
| Transport.Socket.constructor | SJNetSock.cpp:57 | a new socket has descriptor -1, the given mode and an empty residual buffer |
| Transport.Socket.ReceiveInto | SJNetSock.cpp:73-110 | status, reads used and new residual are those of Receive, and the payload is appended to the packet |
| Transport.Socket.SendTo | SJNetSock.cpp:127-137 | the bytes sent are the frame of the whole packet, the packet is empty afterwards, and the status is OK or FailureStatus of the send |
| AsWritten.CompleteAsWritten | SJNetSock.cpp:88 | the test as written holds exactly when the buffer is no longer than the frame it declares |
| AsWritten.GuardInverted | SJNetSock.cpp:88 | except for a buffer holding exactly one frame, the test as written is true exactly when no complete frame is buffered |
| AsWritten.GuardCounterexamples | SJNetSock.cpp:88-94 | [5,0,1] passes the test with one of five payload bytes present; [1,0,9,9] fails it with a whole frame present |
| AsWritten.CopyCountAsWritten | SJNetSock.cpp:108 | the count copied is one less than the bytes read, and 2^64-1 when none were read |
| AsWritten.AppendAsWritten | SJNetSock.cpp:108 | copying through `end()` is defined only for a one-byte read, which writes nothing; the buffer is then unchanged, and any other read makes an undefined write |
| AsWritten.AppendAllAsWritten | SJNetSock.cpp:102-108 | over any run of reads the buffer is never changed, and the run stays defined exactly when every read was one byte |
| AsWritten.WholeFrameNeverCompletes | SJNetSock.cpp:88-108 | from an empty buffer no run of reads ever holds even a length prefix as written, so no frame is ever returned; the corrected reassembler returns a one-byte frame read in one piece |
| AsWritten.DrainAsWritten | SJNetSock.cpp:132-135 | the loop copies the first half of the queue, rounded up, and leaves the rest queued |
| AsWritten.SentAsWritten | SJNetSock.cpp:128-137 | the vector sent has length-mod-2^16 bytes; no write falls outside it only when two plus half the queue fits |
| AsWritten.SendShort | SJNetSock.cpp:129-135 | packets under 4 bytes overrun the vector; the bytes one larger send hands over are not the packet's frame and are not a complete frame on their own |
| AsWritten.SendCounterexample | SJNetSock.cpp:129-135 | the packet 1,2,3,4 goes out as 4,0,1,2 with 3,4 left queued, instead of 4,0,1,2,3,4 |
| AsWritten.ReadGuardAsWritten | SJNetSock.hpp:94 | the guard as written admits exactly the queues an int8 read needs |
| AsWritten.ReadGuardTooWeak | SJNetSock.hpp:94 | for int8 the guard as written is the right one; for wider types a short non-empty queue passes it, where the corrected read does nothing |
| AsWritten.StringStepAsWritten | SJNetSock.cpp:46-50 | one pass pops the queue's head into the character if the queue is non-empty, and otherwise leaves queue and character as they were; a non-zero character is appended to the text, a 0 leaves the text unchanged |
| AsWritten.StringRunAsWritten | SJNetSock.cpp:46-50 | n passes pop min(n, queue length) bytes and append at most n bytes after the text kept so far |
| AsWritten.RunTakesPrefix | SJNetSock.cpp:46-50 | on a 0-free queue, n passes take the first n bytes |
| AsWritten.ExhaustedReaderSpins | SJNetSock.cpp:46-50 | on an empty queue with a non-zero character, n passes keep the earlier text, append exactly n copies of that character, and change nothing else |
| AsWritten.UnterminatedStringNeverEnds | SJNetSock.cpp:43-53 | on a non-empty queue without a 0, the loop condition holds after every number of passes, where the corrected reader returns the whole queue |

## Left out

- The OS calls `socket`, `bind`, `connect`, `listen`, `accept4`, `recv`, `send`, `sendto`, `shutdown` and `close` (SJNetSock.cpp:62-72, :112, :150-153, :178): they are foreign calls. Their outcomes are inputs, and only their OK / UNAVAILABLE / ERROR classification is modelled.
- The destination address of `sendTo` and its `inet_aton` branch (SJNetSock.cpp:142-151): address parsing is a foreign call, and that branch cannot be taken, since `inet_aton` returns 0, not -1, on failure.
- `getFD`, `asignFD`, `getMode` and `close` (SJNetSock.cpp:165-183): accessors and a syscall wrapper, used only by the facades and by the unreachable branch at SJNetSock.cpp:146-149.
- The facades `TCPClientSocket`, `TCPListenSocket` and `UDPSocket` (SJNetSock.cpp:187-394): they only guard syscalls with `fd != -1` tests.
- SJNetSockApi.hpp is not part of this model: it is a draft without logic that does not compile.
- The unsigned `operator<<` / `operator>>` overloads (SJNetSock.hpp:60-63, :70-73): they are declared but never defined.
- The 65537-byte size of one raw read's scratch buffer (SJNetSock.cpp:102): a `Received` result may carry any number of bytes, and no property depends on the bound.
- Transport.Socket.ReceiveInto: when the given recv results run out, it returns None. The real call reads again, and on a connection that keeps returning 0 bytes (end of stream) it never returns.
- Transport.Socket.SendTo: the bytes are returned rather than passed to `send`, and a partial `send` is not modelled, since the source ignores the count `send` returns.
- Transport.Socket.SendTo: a payload over 65535 bytes is still sent whole behind a wrapped length. Transport.OversizedFrameIsCut states how a receiver then splits it.
- The erase of the consumed bytes (SJNetSock.cpp:96) and the in-place list and queue operations are modelled as reassigning sequences. Iterators and aliasing between packets are not modelled.
- Undefined behaviour in the code as written (reading past a buffer or an empty queue, writing past a vector, `copy_n` through `end()`) is modelled only up to the point where it occurs.

## Findings

| source | as written | input that shows it | evidently intended | confidence | as-written member | corrected member |
|---|---|---|---|---|---|---|
| SJNetSock.cpp:88 | frame taken when `declared >= size - 2` | buffer [5,0,1] is taken as a frame with 4 payload bytes missing; buffer [1,0,9,9] is never taken | `declared <= size - 2` | high, not executed | AsWritten.GuardCounterexamples | Transport.ExtractFrame |
| SJNetSock.cpp:108 | copies `readedBytes - 1` bytes through the list's `end()` | one read of [1,0,7]: the copy writes through `end()` (undefined) and inserts nothing, so from an empty buffer no frame ever completes; a read of 0 bytes gives a count of 2^64-1 | append all `readedBytes` bytes at the end of the buffer | high, not executed | AsWritten.WholeFrameNeverCompletes | Transport.Receive |
| SJNetSock.cpp:129 | vector of `dataSize` bytes | an empty packet: the two-byte length is copied into an empty vector | a vector of `dataSize + 2` bytes | high, not executed | AsWritten.SendShort | Transport.Socket.SendTo |
| SJNetSock.cpp:132 | loop while `i < data.size()` as the queue shrinks | packet 1,2,3,4 is sent as 4,0,1,2 and 3,4 stay queued | copy every queued byte | high, not executed | AsWritten.SendCounterexample | Transport.Socket.SendTo |
| SJNetSock.hpp:94 | read when `data.size() != 0` | a queue of one byte read as int16_t pops two bytes from a one-byte queue | read only when `data.size() >= sizeof(T)` | high, not executed | AsWritten.ReadGuardTooWeak | Packet.ReadScalar |
| SJNetSock.cpp:46-50 | `currentChar` keeps its last value when the queue is empty | queue [65] (a string without terminator): the loop's condition never becomes false; the string grows until memory runs out | stop when the queue is exhausted | medium, not executed | AsWritten.UnterminatedStringNeverEnds | Packet.DataPacket.ReadString |
