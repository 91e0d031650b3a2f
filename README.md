# OpenRCT2 network packets and connection framing, in Dafny

This project models the core of OpenRCT2's multiplayer network layer. It covers two pieces:

- `NetworkPacket`: a packet with a header, a growable byte body, a read cursor and a transfer counter.
- `NetworkConnection`: one peer's connection, which does the following:
  - reassembles inbound packets from arbitrarily chunked socket reads (`ReadPacket`);
  - serialises outbound packets and resumes partial sends (`SendPacket`);
  - keeps the outbound deque and its authentication gate (`QueuePacket`, `SendQueuedPackets`);
  - charges traffic to per-group counters (`RecordPacketStats`);
  - keeps the disconnect flag, the liveness timer and the last disconnect reason.

The files are:

- `wire.dfy` (module `Wire`): bytes, 16- and 32-bit network byte order, and C strings.
- `packet.dfy` (module `Packets`): the command codes, the pre-authentication allow-list and the `Packet` class.
- `socket.dfy` (module `Sockets`): the socket as an oracle value. The socket has:
  - the peer's byte stream still to be received;
  - a plan of answers for the coming receives;
  - a plan of how many bytes each coming send accepts;
  - a log of requested lengths;
  - the bytes the peer will see.

  A property proved for every plan holds for every behaviour of the real socket.
- `framing.dfy` has two modules:
  - `Framing`: the wire format, and `ReadPacket` as a pure, resumable state machine (`HeaderStep`, `BodyStep`, `ReadStep`).
  - `FrameFeeding`: the framing round trip.
- `connection.dfy` (module `Connections`) has:
  - the `Connection` class, whose methods update its fields and counter arrays as the source does, except that ReadPacket's header phase stores each header chunk at the running offset: the corrected behaviour of the first finding below;
  - the outbound queue of packet values;
  - `Drain`, the value-level specification of `SendQueuedPackets`, and its lemmas.

`Connection.ReadPacket` (a method) is proved equal to `Framing.ReadStep` (a function). The framing and conservation theorems are stated about `ReadStep`. `Connection.SendQueuedPackets` (a loop) is proved equal to `Connections.Drain`, and the queue-order and conservation theorems are stated about `Drain`.

## Model

| member | source | states |
|---|---|---|
| Wire.CString | src/openrct2/network/NetworkPacket.cpp:69-72 | The bytes a C string denotes are its prefix before the first NUL (what strlen measures); they contain no NUL, and a string without NUL is its own C string |
| Wire.FromBE16Inverse | src/openrct2/network/NetworkConnection.cpp:59 | Converting two raw bytes from network order gives the value whose network encoding is those two bytes |
| Wire.FromBE32Inverse | src/openrct2/network/NetworkConnection.cpp:60 | Converting four raw bytes from big-endian gives the value whose big-endian encoding is those four bytes |
| Wire.BE16RoundTrip | src/openrct2/network/NetworkConnection.cpp:112 | Decoding the network-order encoding of a 16-bit value gives the value back |
| Wire.BE32RoundTrip | src/openrct2/network/NetworkConnection.cpp:113 | Decoding the big-endian encoding of a 32-bit value gives the value back |
| Packets.CommandRequiresAuth | src/openrct2/network/NetworkPacket.cpp:45-61 | A command needs authentication exactly when it is not Ping, Auth, Token, GameInfo, ObjectsList, Scripts, MapRequest or Heartbeat; every other named command needs it |
| Packets.FirstNul | src/openrct2/network/NetworkPacket.cpp:95-100 | The position the scan stops at: no NUL before it, a NUL at it unless it is the end of the body |
| Packets.StringRoundTrip | src/openrct2/network/NetworkPacket.cpp:88-109 | A NUL-free string followed by a terminator is found again by the scan, whatever bytes precede or follow it |
| Packets.ReadStringAsWritten | src/openrct2/network/NetworkPacket.cpp:88-109 | ReadString as written, with the byte past the end of the body as a parameter: the cursor passes the end of the body exactly when no NUL lies in the rest of the body and the byte past the end is 0 |
| Packets.ReadStringOverrun | src/openrct2/network/NetworkPacket.cpp:102-106 | On the one-byte body "a", ReadString as written returns "a" and leaves the cursor at 2, one past the body's end |
| Packets.Packet.constructor | src/openrct2/network/NetworkPacket.cpp:18-21 | A new packet has header (size 0, the given id), an empty body and both counters 0; GetCommand returns the id |
| Packets.Packet.Clear | src/openrct2/network/NetworkPacket.cpp:38-43 | Empties the body and zeroes both counters; the header is unchanged |
| Packets.Packet.Write | src/openrct2/network/NetworkPacket.cpp:63-67 | The body becomes the old body followed by the first `size` bytes given; the cursor is unchanged and stays within the body |
| Packets.Packet.WriteString | src/openrct2/network/NetworkPacket.cpp:69-72 | Appends the C string and one NUL, growing the body by its length plus one; a string without NUL is appended as is |
| Packets.Packet.Read | src/openrct2/network/NetworkPacket.cpp:74-86 | Fails with the cursor unchanged when fewer than `size` bytes remain; otherwise returns exactly the next `size` bytes and advances the cursor by `size`; the cursor never passes the body's end |
| Packets.Packet.ReadString | src/openrct2/network/NetworkPacket.cpp:88-109 | Cursor at the end: fails and does not move. A NUL ahead: returns the bytes up to the first one and leaves the cursor just past it. No NUL ahead: fails with the cursor at the end of the body |
| Packets.WriteThenReadString | src/openrct2/network/NetworkPacket.cpp:69-109 | WriteString followed by ReadString from where the string starts returns the C string and advances the cursor by its length plus one |
| Framing.EncodeHeader | src/openrct2/network/NetworkConnection.cpp:104-115 | The serialised header is six bytes: the network-order size plus 4, wrapping at 16 bits, then the big-endian id |
| Framing.Frame | src/openrct2/network/NetworkConnection.cpp:115-116 | The send buffer is six bytes longer than the body |
| Framing.FrameParts | src/openrct2/network/NetworkConnection.cpp:115-116 | The send buffer is the encoded header followed by the whole body |
| Framing.DecodeHeaderFields | src/openrct2/network/NetworkConnection.cpp:58-64 | The decoded id is the one whose big-endian bytes were received; the decoded size is the raw size less 4, or 0 when the raw size is below 4 |
| Framing.HeaderRoundTrip | src/openrct2/network/NetworkConnection.cpp:59-64 | For a size of at most 65531, decoding the serialised header gives the header back: the subtraction undoes the compatibility addition |
| Framing.OversizedHeaderDecodesEmpty | src/openrct2/network/NetworkConnection.cpp:111 | A size of 65532 or more wraps on the wire and decodes as size 0 |
| Framing.StoreHeaderBytes | src/openrct2/network/NetworkConnection.cpp:43-51 | The corrected header store of the first finding: a received header chunk lands after the header bytes already received, not at the start of the header as lines 43-45 are written |
| Framing.StoreHeaderBytesResumes | src/openrct2/network/NetworkConnection.cpp:43-51 | Storing a header in two chunks gives the same storage as storing it in one |
| Framing.StoreHeaderBytesAsWritten | src/openrct2/network/NetworkConnection.cpp:43-45 | As written, every header chunk is stored at the start of the header storage |
| Framing.SplitHeaderAsWritten | src/openrct2/network/NetworkConnection.cpp:43-45 | A Ping header for a 10-byte body that arrives as 3 + 3 bytes decodes as size 0 when stored as written, and correctly when stored at the running offset |
| Framing.Taken | src/openrct2/network/NetworkConnection.cpp:51 | The stream bytes the inbound packet has taken in number BytesTransferred |
| Framing.BodyStep | src/openrct2/network/NetworkConnection.cpp:69-99 | The body phase keeps the inbound invariant (BytesTransferred equals 6 plus the body length, at most 6 plus Size, header normalised) and never touches the header |
| Framing.BodyStepKeeps | src/openrct2/network/NetworkConnection.cpp:76-95 | The body phase moves bytes from the front of the socket's stream into the body, in order, losing and inventing none; it reports Success exactly when the body is complete |
| Framing.BodyStepCases | src/openrct2/network/NetworkConnection.cpp:72-96 | A complete body returns Success with nothing changed. Otherwise one receive asks for min(missing, 65536) bytes; a failed receive returns its status with the packet unchanged; a successful one appends the bytes and grows BytesTransferred by their count |
| Framing.HeaderStep | src/openrct2/network/NetworkConnection.cpp:37-67 | The header phase keeps the inbound invariant. It stores each chunk at the running offset, the corrected behaviour of the first finding |
| Framing.HeaderStepKeeps | src/openrct2/network/NetworkConnection.cpp:39-67 | The header phase moves bytes from the front of the stream into the packet, in order, losing and inventing none, and reports Success exactly when the packet is complete |
| Framing.HeaderStepCases | src/openrct2/network/NetworkConnection.cpp:39-64 | One receive asks for exactly the missing header bytes. A failed receive returns its status with the packet unchanged. A partial header is stored and MoreData returned without normalising. A complete header is normalised and the body phase runs in the same call |
| Framing.EmptyBodyCompletesWithHeader | src/openrct2/network/NetworkConnection.cpp:64-95 | A header whose corrected size is 0 completes the packet, with an empty body, in the call that finishes the header |
| Framing.ReadStep | src/openrct2/network/NetworkConnection.cpp:33-100 | A ReadPacket call keeps the inbound invariant and never lowers BytesTransferred |
| Framing.ReadStepKeeps | src/openrct2/network/NetworkConnection.cpp:33-100 | A ReadPacket call conserves the stream (packet bytes + socket bytes) and reports Success exactly when the packet is complete |
| Framing.PollConserves | src/openrct2/network/NetworkConnection.cpp:33-100 | Any number of ReadPacket calls keep the invariant and conserve the stream |
| FrameFeeding.FeedingStep | src/openrct2/network/NetworkConnection.cpp:33-100 | While a frame is being fed, each ReadPacket call takes at least one byte, reports only Success or MoreData, and reports Success exactly at the frame's end |
| FrameFeeding.FeedingPoll | src/openrct2/network/NetworkConnection.cpp:33-100 | A frame part way in is completed by polling with enough calls left |
| FrameFeeding.FramingRoundTrip | src/openrct2/network/NetworkConnection.cpp:33-116 | The buffer SendPacket serialises for a body of at most 65531 bytes, fed to a cleared inbound packet in any chunking (one byte per call included), ends in Success within 6 plus the body length calls. The sent id and body come out, and the bytes after the frame stay in the socket |
| Connections.GroupIndex | src/openrct2/network/NetworkConnection.cpp:241-247 | Every statistics group has an index into the four counters |
| Connections.TrafficGroup | src/openrct2/network/NetworkConnection.cpp:224-237 | GameAction is charged to Commands and Map to MapData; every other command goes to Base, and none directly to Total |
| Connections.AddTraffic | src/openrct2/network/NetworkConnection.cpp:223-248 | Charging a packet raises its group and Total by BytesTransferred cut to 32 bits and leaves every other counter unchanged |
| Connections.PendingAppend | src/openrct2/network/NetworkConnection.cpp:154 | What the queue owes the wire after a packet is appended is what it owed before followed by that packet's unsent bytes |
| Connections.SendStep | src/openrct2/network/NetworkConnection.cpp:118-123 | Recording a partial send at the head moves bytes from what the queue owes to the wire, and nothing else |
| Connections.PopStep | src/openrct2/network/NetworkConnection.cpp:171-173 | Popping a head whose whole frame is on the wire loses nothing the queue owes |
| Connections.PendingOfUnsentQueue | src/openrct2/network/NetworkConnection.cpp:169-175 | A queue with no packet started owes exactly the frames of its packets, in queue order |
| Connections.SentTrafficAppend | src/openrct2/network/NetworkConnection.cpp:126-129 | Completing one more packet charges its whole frame on top of the earlier ones |
| Connections.SentTrafficTotal | src/openrct2/network/NetworkConnection.cpp:239-243 | Completing a run of packets raises Total by their charged sizes and leaves a group none of them belongs to unchanged |
| Connections.Drain | src/openrct2/network/NetworkConnection.cpp:169-175 | The value specification of SendQueuedPackets yields four counters and never lengthens the queue |
| Connections.OfferHead | src/openrct2/network/NetworkConnection.cpp:118-125 | Offering a packet its unsent bytes moves the accepted ones from what the packet owes to the wire; the packet stays within its frame and owes nothing once complete |
| Connections.DrainConserves | src/openrct2/network/NetworkConnection.cpp:169-175 | The bytes on the wire followed by what the queue still owes are unchanged by a round: bytes go out in queue order, none lost or invented |
| Connections.DrainCharges | src/openrct2/network/NetworkConnection.cpp:169-175 | The sent counters after a round are the old ones charged, in queue order, with the whole frame of exactly the popped packets |
| Connections.LeftBehindPop | src/openrct2/network/NetworkConnection.cpp:171-173 | What remains of the queue behind the head remains, in the same sense, of the whole queue |
| Connections.DrainLeaves | src/openrct2/network/NetworkConnection.cpp:169-175 | The queue a round leaves is a suffix of the old queue, except that its head may have progressed; that head is still short of its frame's end, so the round stopped at the first incomplete packet |
| Connections.SuffixEntries | src/openrct2/network/NetworkConnection.cpp:171-173 | Behind its head, what remains of a queue after pops holds the old queue's packets at their old positions, in order |
| Connections.DrainKeeps | src/openrct2/network/NetworkConnection.cpp:169-175 | A round keeps every queued packet within its frame and keeps every packet behind the head unsent |
| Connections.StoredReason | src/openrct2/network/NetworkConnection.cpp:198-212 | Null clears the reason; any other string, an empty one included, is stored as its first at most 255 bytes before its terminator, and a short NUL-free string unchanged |
| Connections.Connection.constructor | src/openrct2/network/NetworkConnection.cpp:23-26 | A new connection is unauthenticated with an empty queue, no disconnect request, no reason, zero counters, and the liveness timer reset at `now` |
| Connections.Connection.ResetLastPacketTime | src/openrct2/network/NetworkConnection.cpp:177-191 | After a reset at `now`, outside a DEBUG build the peer counts as recently heard exactly up to tick now + 7000 |
| Connections.Connection.Disconnect | src/openrct2/network/NetworkConnection.cpp:159-167 | After Disconnect, the disconnect flag is set and IsValid is false whatever the socket status |
| Connections.Connection.SetLastDisconnectReason | src/openrct2/network/NetworkConnection.cpp:193-212 | GetLastDisconnectReason then returns StoredReason of the argument |
| Connections.Connection.RecordPacketStats | src/openrct2/network/NetworkConnection.cpp:221-249 | Exactly the sent (or received) counters change, as AddTraffic charges the packet's command and BytesTransferred |
| Connections.Connection.ReadBody | src/openrct2/network/NetworkConnection.cpp:69-99 | The body phase on the connection's fields equals BodyStep. On Success the time is `now` and the received counters are charged; otherwise time and counters are unchanged |
| Connections.Connection.ReadPacket | src/openrct2/network/NetworkConnection.cpp:33-100 | One ReadPacket call on the connection's fields equals ReadStep on the old state and socket, and keeps the invariant. On Success the time is `now` and the received counters are charged; otherwise time and counters are unchanged. Header chunks are stored at the running offset, the corrected behaviour of the first finding |
| Connections.Connection.SendPacket | src/openrct2/network/NetworkConnection.cpp:102-131 | Offers the socket the frame from BytesTransferred on and advances BytesTransferred by the accepted count (possibly 0). Reports completion exactly when BytesTransferred reaches 6 plus the body length, and charges the sent counters only then |
| Connections.Connection.QueuePacket | src/openrct2/network/NetworkConnection.cpp:133-157 | A gated packet leaves the queue unchanged. Otherwise the packet is enqueued with Size set to the body length mod 2^16: at the back; at index 1 for a front insertion behind a partly sent head; else at index 0. Packets already queued keep their order, a partly sent head stays the head, and only the head may be in flight |
| Connections.Connection.SendHead | src/openrct2/network/NetworkConnection.cpp:171-173 | One pass of the loop pops the head exactly when its send completes, and advances Drain by one step |
| Connections.Connection.SendQueuedPackets | src/openrct2/network/NetworkConnection.cpp:169-175 | The socket, the queue and the sent counters afterwards are those Drain gives for the old ones; the queue stays within its frames |

## Left out

- The socket implementation (`ReceiveData`, `SendData`, `GetStatus`) is foreign I/O. It is an oracle value: its answers come from plans fixed in advance, and its status is a field.
- `platform_get_ticks` is the OS clock. It is a `now` parameter of ReadPacket, ResetLastPacketTime, ReceivedPacketRecently and the constructor.
- The `#ifndef DEBUG` bypass in ReceivedPacketRecently is a `debugBuild` parameter, not a build configuration.
- Connections.Connection.ReceivedPacketRecently: ticks are unbounded, so the 32-bit wrap of `_lastPacketTime + 7000` is not modelled.
- Connections.Connection.ReceivedPacketRecently and Connections.Connection.IsValid have no contract of their own. Their meaning is stated by ResetLastPacketTime's and Disconnect's ensures.
- Framing.HeaderStep reassembles the header at the running offset, BytesTransferred (`StoreHeaderBytes`). This is the corrected behaviour; the source receives every chunk at the start of the header (NetworkConnection.cpp:43-45). The as-written store is `Framing.StoreHeaderBytesAsWritten`, and `Framing.SplitHeaderAsWritten` shows where the two differ.
- Connections.Connection.ReadPacket follows `Framing.HeaderStep`, so it too stores each header chunk at the running offset, not at the start of the header as NetworkConnection.cpp:43-45 is written. The as-written store is `Framing.StoreHeaderBytesAsWritten` / `Framing.SplitHeaderAsWritten`.
- Connections.NetworkAuth has two values, `Ok` and `NotOk`. The source's other authentication states are merged into `NotOk`, because QueuePacket only tests `AuthStatus == NetworkAuth::Ok` (NetworkConnection.cpp:135), so the merge loses nothing observable.
- The formatted overload `SetLastDisconnectReason(rct_string_id, void*)` depends on localisation and `format_string`, which are not part of this model.
- `String::Set` is not part of this model. It is taken to store the first bytes of the C string, at most 255, followed by a terminator (`StoredReason`).
- `new[]` / `delete[]` of the reason buffer are not modelled. The reason is an optional byte string.
- The 64 KiB stack buffer is kept only as the bound on one body receive.
- `NetworkPacket.h` (the packed header layout) is not part of this model. The header in flight is an explicit 6-byte big-endian encoding. The inbound header's raw storage and its normalised value are two fields, where the source reinterprets one struct.
- `NetworkTypes.h` is not part of this model. The command codes are assumed to follow the enumeration's declaration order; nothing proved depends on their values beyond their being distinct.
- The `GetData()` pointer accessors only return a pointer.
- Queued packets are values with header, body and BytesTransferred. The read cursor, which the connection never uses, is dropped.
- Connections.Connection.QueuePacket: the argument is not modified. The value stored in the queue carries the rewritten size. The source sets the size on the argument just before moving it away, so no caller sees the difference.
- Connections.Connection.QueuePacket requires the packet's BytesTransferred to lie within its frame. This keeps the queue invariant SendPacket relies on; beyond it, SendPacket's `size_t` subtraction would wrap.
- Connections.Connection.SendPacket requires BytesTransferred within the frame. This is the queue invariant; the source has no guard, and its `buffer.size() - BytesTransferred` would wrap.
- Connections.Connection.RecordPacketStats takes the two fields of the packet it reads (command and BytesTransferred) instead of the packet.
- The width of the Stats counters is not part of this model. They are unbounded; only the `uint32_t` cut of the packet size is modelled.
- The session layer that calls ReadPacket until it stops reporting MoreData is not part of this model. `Framing.Poll` stands for it, with an explicit bound on the number of calls.

## Findings

| source | as written | input that shows it | evidently intended | confidence | as-written member | corrected member |
|---|---|---|---|---|---|---|
| src/openrct2/network/NetworkConnection.cpp:43-45 | Every header receive writes into the start of the header storage (`buffer` is the header's address, not advanced by BytesTransferred) | A Ping with a 10-byte body whose header arrives as 3 bytes, then 3 bytes: the second chunk overwrites the first and the size decodes as 0 | Receive the missing header bytes at offset BytesTransferred, so that a header split across reads is reassembled | not executed | Framing.SplitHeaderAsWritten | Framing.StoreHeaderBytes |
| src/openrct2/network/NetworkPacket.cpp:102-106 | When no NUL lies between the cursor and the end of the body, the check after the scan reads `str[stringLen]`, the byte one past the end | Body "a" (one byte, no terminator), cursor 0, with a 0 byte in memory after it: returns "a" and moves BytesRead to 2, past the body | Fail when the scan reaches the end of the body, leaving BytesRead at the end | not executed | Packets.ReadStringOverrun | Packets.Packet.ReadString |
