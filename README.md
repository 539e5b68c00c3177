# tcpcan protocol core in Dafny

A model of the protocol layer of tcpcan, a CAN-over-TCP bridge. The model proves facts about it.

- **Codec** (`Codec`, codec.dfy): a CAN message travels as a fixed 13-byte record, packed with `'>Bi8s'`:
  - the flag byte, where 0x80 means an extended ID, 0x40 means remote or error frame (one shared bit), and the length is or-ed into the low nibble;
  - the arbitration ID as a big-endian signed 32-bit integer;
  - the data, truncated or zero-padded to 8 bytes.

  Packing fails (`StructError`) when the ID is outside the signed 32-bit range. It also fails when the data is 256 bytes or longer, because the or-ed flag value then no longer fits the `B` field. Unpacking reads the first 13 bytes, or reports `NeedMoreData`. The connection-closed event encodes to nothing.
- **Framer** (`Framer`, framer.dfy): the `Connection` object.
  - It holds a send buffer, a receive buffer and a `closed` flag.
  - It drops a received chunk that is exactly the 13-byte heartbeat record.
  - It appends any other non-empty chunk to the receive buffer.
  - It decodes at most one event per `next_event` call.
  - `FramerState` and its functions (`Receive`, `QueueSend`, `AddSend`, `TakeSend`, `Step`) are the specification.
  - The class `Framer.Connection` changes its fields in place. Each of its methods is proved to follow the matching function.
- **Client** (`Client`, client.dfy):
  - The address handling of `create_connection`.
  - The bus object `TcpcanBus`, which owns a `Connection`. The socket is replaced by a script of what successive reads see (`Data(bytes)`, or `Quiet` for a `select` that finds nothing readable) and a log of what each `sendall` writes.
  - `_next_event` is a `while` loop over that script. It is proved equal to the recursive specification `Drive`/`Wait`.

Points a reader of the source should know:
- **Bytes deleted after a decode.** `next_event` deletes `1 + len(event)` bytes after a decode, and `len(event)` is 13, so 14 bytes go (connection.py:84, events.py:136-137), one more than the 13-byte record (events.py:81). The extra byte looks like a leftover of the event-ID byte whose read is commented out at connection.py:68. The model reproduces the 14-byte deletion. `Framer.BackToBackLosesSecond` proves the consequence: when two encoded records arrive back to back, the first is decoded and the second loses its flag byte. The 12 bytes left do not decode on their own, and the next byte to arrive completes a misaligned record (`Framer.PollComplete`).
- **The extended-ID bit.** Because the length is or-ed into the whole flag byte, data of 128 bytes or more also sets the 0x80 bit. The extended-ID bit therefore reflects `id_type` only below that length, and `Codec.FlagByte` states exactly that.
- **The shared flag bit.** Decoding copies the shared 0x40 bit into both `is_remote_frame` and `is_error_frame`, and sets `dlc` to the low nibble, so the round trip gives back `Codec.AsDecoded(m)` and not `m` itself.

## Model

| member | source | states |
|---|---|---|
| Codec.Int32BigEndian | can/interfaces/tcpcan/events.py:113-114 | the 'i' field: four bytes whose big-endian unsigned value is the 32-bit two's-complement pattern of the ID |
| Codec.Int32FromBigEndian | can/interfaces/tcpcan/events.py:121 | reading the 'i' field gives a value in the signed 32-bit range |
| Codec.Int32RoundTrip | can/interfaces/tcpcan/events.py:113-121 | unpacking the packed ID gives the ID back, for every ID in range |
| Codec.Int32BytesRoundTrip | can/interfaces/tcpcan/events.py:113-121 | packing the unpacked ID gives the same four bytes back, for every four bytes |
| Codec.Pad8 | can/interfaces/tcpcan/events.py:81 | the '8s' field is 8 bytes: the first min(len, 8) data bytes, then zeros |
| Codec.KindFlags | can/interfaces/tcpcan/events.py:103-110 | the flag bits before the length is or-ed in: 0x80 iff id_type, 0x40 iff remote or error, the low six bits clear |
| Codec.FlagByte | can/interfaces/tcpcan/events.py:103-112 | bit 0x80 is set iff id_type for data shorter than 128 bytes; bit 0x40 is set iff remote or error for data shorter than 64 bytes; the low nibble is the data length for data shorter than 16 bytes; bits 0x30 are those of the length |
| Codec.Encode | can/interfaces/tcpcan/events.py:94-116 | packing succeeds iff the data is shorter than 256 bytes and the ID is a signed 32-bit integer, and then gives exactly 13 bytes |
| Codec.EncodeLayout | can/interfaces/tcpcan/events.py:81-116 | field by field: byte 0 is the flag byte above, bytes 1..4 the big-endian ID, bytes 5.. the first min(len, 8) data bytes followed by zero fill |
| Codec.FromBuffer | can/interfaces/tcpcan/events.py:119-125 | unpacking reports NeedMoreData iff the buffer has fewer than 13 bytes |
| Codec.FromBufferFields | can/interfaces/tcpcan/events.py:121-133 | decoded fields: dlc = flags & 0x0F, data = the first min(dlc, 8) data bytes, timestamp 0, ID from bytes 1..4, extended iff bit 0x80, remote = error = bit 0x40 |
| Codec.DecodeReadsOneFrame | can/interfaces/tcpcan/events.py:121 | `unpack_from` reads only the first 13 bytes of a longer buffer |
| Codec.EncodeEvent | can/interfaces/tcpcan/events.py:24-31 | ConnectionClosed encodes to the empty string; a CAN message encodes as `CanMessage.encode` |
| Codec.EventLength | can/interfaces/tcpcan/events.py:136-137 | `__len__`: 13 for a CAN message (the struct size), 0 for ConnectionClosed |
| Codec.EventLengthIsEncodedLength | can/interfaces/tcpcan/events.py:136-137 | `__len__` equals the length of the encoding: 13 for a CAN message, 0 for ConnectionClosed |
| Codec.DecodeEncode | can/interfaces/tcpcan/events.py:94-134 | for at most 8 data bytes and an in-range ID, decoding the encoding gives the same ID, extended flag and data, dlc = len(data), remote = error = remote or error, timestamp 0 |
| Codec.EncodeDecode | can/interfaces/tcpcan/events.py:94-134 | a 13-byte record with bits 0x30 clear, dlc at most 8 and zero bytes after the data is exactly the encoding of the message it decodes to |
| Framer.Initial | can/interfaces/tcpcan/connection.py:15-19 | a fresh connection has both buffers empty and is not closed |
| Framer.DropFront | can/interfaces/tcpcan/connection.py:84 | `del buf[:n]` keeps the bytes after the first n, or none when there are fewer |
| Framer.Receive | can/interfaces/tcpcan/connection.py:22-34 | an empty chunk sets closed and leaves the buffers alone; the heartbeat chunk changes nothing; any other chunk is appended to the receive buffer; closed never goes back to false |
| Framer.QueueSend | can/interfaces/tcpcan/connection.py:42-43 | the encoded bytes go to the end of the send buffer; the rest is untouched |
| Framer.AddSend | can/interfaces/tcpcan/connection.py:36-43 | `add_send_data` fails, changing nothing, iff the event does not encode; otherwise the send buffer becomes old ++ encoding and the rest is untouched |
| Framer.TakeSend | can/interfaces/tcpcan/connection.py:45-55 | `next_data` returns the whole send buffer and leaves it empty |
| Framer.Step | can/interfaces/tcpcan/connection.py:57-85 | `next_event`: with an empty buffer, ConnectionClosed iff closed (else None), with the state unchanged; with 1..12 bytes, None and the state unchanged; with 13 or more bytes, the message of the first 13 and the first min(14, size) bytes removed |
| Framer.Connection.constructor | can/interfaces/tcpcan/connection.py:15-20 | the object starts in the initial state |
| Framer.Connection.ReceiveData | can/interfaces/tcpcan/connection.py:22-34 | the new state is `Receive` of the old one |
| Framer.Connection.AddSendData | can/interfaces/tcpcan/connection.py:36-43 | succeeds iff the event encodes; the new state is `QueueSend` of the old one, or unchanged on failure |
| Framer.Connection.NextData | can/interfaces/tcpcan/connection.py:45-55 | the returned bytes and the new state are `TakeSend` of the old state |
| Framer.Connection.NextEvent | can/interfaces/tcpcan/connection.py:57-85 | the returned event and the new state are `Step` of the old state |
| Framer.DataReady | can/interfaces/tcpcan/connection.py:87-92 | `data_ready` holds iff the send buffer is non-empty |
| Framer.Connection.IsDataReady | can/interfaces/tcpcan/connection.py:87-92 | `data_ready` holds iff the send buffer is non-empty |
| Framer.FeedAll | can/interfaces/tcpcan/connection.py:22-34 | successive `receive_data` calls leave the send buffer alone, only ever append to the receive buffer and never clear closed |
| Framer.ClosedMonotone | can/interfaces/tcpcan/connection.py:19-29 | after any sequence of chunks, closed is set iff it was set before or one chunk was empty |
| Framer.EmptyBufferAnswerRepeats | can/interfaces/tcpcan/connection.py:63-66 | with an empty receive buffer, asking again gives the same answer; closed gives ConnectionClosed |
| Framer.EncodedIsNotHeartBeat | can/interfaces/tcpcan/connection.py:20-31 | an encoded message with at most 8 data bytes is never the heartbeat chunk |
| Framer.SingleChunkDelivery | can/interfaces/tcpcan/connection.py:31-85 | an encoded message fed as one chunk into an empty receive buffer is decoded by the next `next_event`, and the buffer is empty again |
| Framer.RecordChunk | can/interfaces/tcpcan/connection.py:31-85 | any 13-byte chunk other than the heartbeat, fed into an empty receive buffer, is decoded by the next `next_event`, which empties the buffer |
| Framer.ReceiveOneByte | can/interfaces/tcpcan/connection.py:31-32 | a one-byte chunk is always appended |
| Framer.PollPartial | can/interfaces/tcpcan/connection.py:79-81 | a byte that leaves fewer than 13 bytes buffered gives no event and is kept |
| Framer.PollComplete | can/interfaces/tcpcan/connection.py:79-85 | the byte that completes 13 gives the record's message and empties the buffer |
| Framer.FeedAndPoll | can/interfaces/tcpcan/connection.py:22-85 | feeding bytes one per chunk and polling after each gives one answer per byte |
| Framer.FeedPartialByte | can/interfaces/tcpcan/connection.py:79-81 | while the buffer stays short of a record, the fed byte's answer is None and the byte is kept |
| Framer.FeedRecordLast | can/interfaces/tcpcan/connection.py:79-85 | feeding the last byte of a record answers its message and empties the buffer |
| Framer.FeedRecordTail | can/interfaces/tcpcan/connection.py:79-85 | with the first j bytes of a record buffered, feeding the rest one byte at a time answers None until the last byte, then the record's message |
| Framer.ByteAtATimeDelivery | can/interfaces/tcpcan/connection.py:22-85 | an encoded message fed byte by byte yields None at each of the first 12 prefixes and the message after the 13th, and the connection ends as it started |
| Framer.BackToBackLosesSecond | can/interfaces/tcpcan/connection.py:84 | two back-to-back records: the first is decoded, 14 bytes are removed, the 12 bytes left are the second record without its flag byte, and they do not decode on their own |
| Framer.TwoRecords | can/interfaces/tcpcan/connection.py:79-85 | any two 13-byte chunks other than the heartbeat: the first decodes and the 12 bytes after the 14th are left undecoded |
| Framer.DataReadyAfterQueue | can/interfaces/tcpcan/connection.py:36-92 | after queuing a message data is ready; after `next_data` it is not |
| Client.Split | can/interfaces/tcpcan/client.py:13 | `str.split(':')`: at least one piece, no piece holds ':', joining the pieces gives the string back, no ':' gives the string itself |
| Client.SplitAfterHost | can/interfaces/tcpcan/client.py:13 | splitting after a separator-free first piece peels that piece off |
| Client.DecimalValue | can/interfaces/tcpcan/client.py:15 | `int()` of a string of k decimal digits is a natural number below 10^k |
| Client.DecimalString | can/interfaces/tcpcan/client.py:15 | a number's decimal spelling is a digit string |
| Client.DecimalRoundTrip | can/interfaces/tcpcan/client.py:15 | `int()` of a number's decimal spelling is the number |
| Client.ParseAddress | can/interfaces/tcpcan/client.py:12-17 | no ':' gives (address, default port); the host has no ':' and is a prefix of the address; only an address with ':' can have an invalid port |
| Client.HostIsPrefix | can/interfaces/tcpcan/client.py:13-15 | the first piece of a split is a prefix of the string |
| Client.ParseHostPort | can/interfaces/tcpcan/client.py:13-15 | "host:port" and "host:port:more" give (host, int(port)) when the port piece is a digit string and the ValueError of `int()` when it is not; the third and later pieces are ignored |
| Client.HostAndPortPieces | can/interfaces/tcpcan/client.py:13 | the first two pieces of "host:port" or "host:port:more" are the host and the port |
| Client.ParseFormatted | can/interfaces/tcpcan/client.py:12-15 | a host and a number written as "host:number" parse back to the same pair |
| Client.Drive | can/interfaces/tcpcan/client.py:49-62 | `_next_event`: an event already available is returned without reading; without a timeout the result is never None; reads only consume the script; the send buffer is untouched; closed stays set |
| Client.Wait | can/interfaces/tcpcan/client.py:56-62 | the loop body: with a timeout, a `select` that finds nothing returns None with the framer unchanged |
| Client.DriveTimesOut | can/interfaces/tcpcan/client.py:57-58 | with a timeout and no event buffered, a `select` that finds nothing gives None and leaves the framer as it was |
| Client.DriveFeedsFirstChunk | can/interfaces/tcpcan/client.py:56-61 | without a timeout and with no event available, the first chunk read is fed to the framer and the loop goes on |
| Client.OneByteChunks | can/interfaces/tcpcan/client.py:59 | a byte string delivered one byte per read |
| Client.EmptyReads | can/interfaces/tcpcan/client.py:59 | k reads of zero bytes |
| Client.DriveSpinsAfterClose | can/interfaces/tcpcan/client.py:56-61 | after the peer closed with 1..12 bytes buffered, zero-length reads never end the loop: any number of them leaves `_next_event` still running with the framer unchanged |
| Client.DriveSingleChunk | can/interfaces/tcpcan/client.py:55-62 | an encoded message read as one chunk is returned, consuming exactly that chunk |
| Client.DriveEndOfStream | can/interfaces/tcpcan/client.py:59-62 | a zero-length read on an idle connection gives ConnectionClosed and sets closed |
| Client.DriveReadsChunk | can/interfaces/tcpcan/client.py:59-61 | with no event available, a one-byte chunk is read and fed |
| Client.DriveRecordTail | can/interfaces/tcpcan/client.py:56-62 | with j bytes of a record buffered, the loop reads the other bytes one at a time and returns the record's message |
| Client.DriveRecordLast | can/interfaces/tcpcan/client.py:59-62 | the read that completes a record makes `_next_event` return its message |
| Client.DriveByteAtATime | can/interfaces/tcpcan/client.py:56-62 | an encoded message read one byte per read is returned after its 13th byte, and the connection ends as it started |
| Client.RecvAsWritten | can/interfaces/tcpcan/client.py:73-80 | `recv` as written returns the message for a CAN message, and for None or ConnectionClosed fails on the undefined `events.RemoteException` |
| Client.RecvIntended | can/interfaces/tcpcan/client.py:73-80 | `recv` as intended: the message for a CAN message, None on timeout, CanRemoteError on ConnectionClosed, never the attribute failure |
| Client.RecvAsWrittenDiffers | can/interfaces/tcpcan/client.py:76 | the two readings of `recv` differ exactly on a timeout and on ConnectionClosed |
| Client.TcpcanBus.constructor | can/interfaces/tcpcan/client.py:41 | the bus starts with a fresh Connection, the given script and an empty write log, so nothing is pending to be sent |
| Client.TcpcanBus.NextEvent | can/interfaces/tcpcan/client.py:49-62 | the loop's outcome, framer state and remaining script are those of `Drive`; nothing is written and the send buffer stays empty |
| Client.TcpcanBus.Recv | can/interfaces/tcpcan/client.py:64-80 | the outcome is `RecvIntended` of the `Drive` result, and the new state is that of `Drive` |
| Client.TcpcanBus.SendEvent | can/interfaces/tcpcan/client.py:91-94 | succeeds iff the event encodes; then exactly the event's encoding is written, in one write, since the send buffer is empty between calls and is drained again; on failure nothing is written |
| Client.TcpcanBus.Send | can/interfaces/tcpcan/client.py:82-89 | succeeds iff the message encodes; then exactly `CanMessage(msg).encode()` is written, in one write |

## Left out

- Socket and `select` I/O are not modelled: `socket.create_connection`, `setsockopt(TCP_NODELAY)`, `select.select`, `recv(13)` and `sendall`. They are replaced by the script of reads (`Client.Incoming`) and the write log (`outbox`). A script can hold any chunk of at most 13 bytes.
- Client.Drive: the end of the script stands for a call that never returns, because it blocks on the socket or spins on zero-length reads (`Client.DriveSpinsAfterClose`). The model reports `ScriptEnded` there.
- Client.TcpcanBus.SendEvent: the `OSError` that `sendall` can raise is not modelled, and neither is its wrapping into `CanRemoteError`. A write always succeeds.
- `CanRemoteError` is represented as an outcome of `Client.RecvIntended`, not as an exception. A failing `struct.pack` is a `Codec.StructError` result, not an exception.
- `shutdown` is not modelled. It depends on the socket half-close and real timeouts, and it loops without a bound.
- `send_periodic` is not modelled, because `CyclicSendTask` is not part of this model.
- `Connection.__iter__` is not modelled. Its generator never ends once the connection is closed and the buffer is empty.
- Logging calls are not modelled.
- `BaseEvent.from_buffer` is not modelled, because `next_event` only ever decodes with `CanMessage`.
- `__eq__` is replaced by Dafny's structural equality on datatypes.
- The float timestamp is an `int`. Decoding always sets it to 0, and encoding ignores it.
- `can.Message` is not part of this model. `Codec.Message` stands for it, with only the fields the codec reads or writes.
- `can/interface.py` and `can/__init__.py` are not modelled: they are a backend registry and import glue.
- Client.ParseAddress: `int()` is modelled only for non-empty strings of ASCII digits. Signs, surrounding whitespace, underscores and other Unicode digits, all of which `int()` also accepts, give `InvalidPort` here.
- Client.ParseAddress: `DEFAULT_PORT` comes from `can.interfaces.remote`, which is not part of this model. It is a parameter of the function.
- Codec.FlagByte: each bit fact is stated for the lengths whose binary digits do not reach that bit. From 128 bytes of data the length itself sets bit 0x80, from 64 bytes it can set bit 0x40, and from 16 bytes it no longer fits the low nibble.
- Framer.Connection.NextData: the bytearray it returns is a value here. `next_data` hands over the old buffer object and installs a new one, so no aliasing is lost.

## Findings

| source | as written | input that shows it | evidently intended | confidence | as-written member | corrected member |
|---|---|---|---|---|---|---|
| can/interfaces/tcpcan/client.py:76 | `recv` tests `isinstance(event, events.RemoteException)` before the ConnectionClosed and None cases, but events.py defines no `RemoteException`, so the lookup raises AttributeError | `_next_event` returns None after a timeout, or returns ConnectionClosed after a zero-length read | None on timeout, `CanRemoteError` on ConnectionClosed (lines 77-80 and the docstring) | high; not executed | Client.RecvAsWritten, Client.RecvAsWrittenDiffers | Client.RecvIntended |
