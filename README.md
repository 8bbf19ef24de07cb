# UAVCAN v1.0 CAN transmitter, modelled in Dafny

This project models the transmit side of the canadensis CAN transport (`canadensis_can/src/tx.rs`).
A `Transmitter` owns a frame queue, an MTU, and two 64-bit counters. `push` works in these steps:

1. It computes how many frames the transfer needs and how much zero padding the last frame gets.
2. It reserves room for all the frames in the queue, and fails with `OutOfMemoryError` before queueing anything if there is no room.
3. It runs the payload and the padding through the transfer CRC and through a breakdown that splits the bytes into frames, each ending in a tail byte.
4. For a multi-frame transfer it then feeds the CRC, most significant byte first.
5. It queues the last frame.

Every frame carries the same timestamp and the same 29-bit CAN ID. `make_can_id` builds that ID from the priority, the subject or service fields and the source node. An anonymous message has no source node, so it uses a pseudo-ID: the payload XORed into 0x55, truncated to 7 bits, and stepped down past the diagnostic IDs 126 and 127.

Modules:

- `Core` (core.dfy): routing fields with their bit widths, headers, transfers.
- `Can` (can.dfy): CAN IDs, frames, MTUs, CAN FD data lengths, and the frame statistics (frame count and last-frame padding).
- `Crc` (crc.dfy): CRC-16/CCITT-FALSE, the transfer CRC of section 4.2.2 of the UAVCAN/Cyphal Specification v1.0.
- `Queue` (queue.dfy): a bounded frame queue standing in for the `FrameSink`.
- `Breakdown` (breakdown.dfy): splitting a byte stream into frames with tail bytes. A full frame is handed out only when the next byte arrives, so the last frame stays in the breakdown until `finish`.
- `Tx` (tx.dfy): `Transmitter`, `make_can_id`, `encode_common_service_fields` and `make_pseudo_id`, plus the reference functions they are proved against:
  - `TransferStream`: payload, padding, and CRC bytes.
  - `TransferFrames`: the frames of a transfer.
  - `DecodeCanId`: how a receiver reads an ID.
  - `PseudoId`: the pseudo-ID in closed form.
- `Properties` (properties.dfy): what a receiver sees of the queued frames.

The `Transmitter` methods carry these specifications:

- `Push` states the whole new state:
  - the queue gains exactly `TransferFrames(transfer, mtu)` when they fit, and is unchanged otherwise;
  - exactly one counter goes up, with wrap-around at 2^64;
  - the ghost history of outcomes records the result.
- The class invariant ties each counter to the number of successes or failures in that history, modulo 2^64.
- `PushInner` reserves room, then calls `FeedStream`, which calls `FeedPadded` and `FeedCrc`, which hold the two loops. Their invariants connect the CRC accumulator, the breakdown state and the queue contents to prefixes of `TransferStream`.

Three facts about the code that the model makes explicit:

- The CRC covers the payload and the padding (tx.rs:99-106).
- A 20-byte payload on classic CAN takes four frames: 20 payload bytes and 2 CRC bytes at 7 bytes per frame (`Properties.TwentyBytesOnClassicCan`).
- A CAN ID decoder with error reporting belongs to the receive side, which is not part of this model. `Tx.DecodeCanId` is only a reference reader used to state what `make_can_id` encodes.

## Model

| member | source | states |
|---|---|---|
| Tx.Transmitter.constructor | canadensis_can/src/tx.rs:43-50 | The MTU is the byte count of the given `Mtu`; both counters start at 0 with an empty history; the queue is the one given. |
| Tx.Transmitter.SetMtu | canadensis_can/src/tx.rs:55-57 | Only the MTU changes: counters, history and queue contents stay as they were. |
| Tx.Transmitter.Push | canadensis_can/src/tx.rs:65-87 | Succeeds exactly when all frames of the transfer fit. On success the queue gains exactly those frames and only the transfer counter goes up (wrapping). On failure the queue is unchanged and only the error counter goes up (wrapping). |
| Tx.Transmitter.Record | canadensis_can/src/tx.rs:77-86 | Records the outcome in the history. On success only the transfer counter goes up, on failure only the error counter, each wrapping at 2^64. The class invariant is kept. |
| Tx.Transmitter.PushInner | canadensis_can/src/tx.rs:89-135 | Fails with OutOfMemory exactly when the reserved frame count does not fit, and then changes nothing. Otherwise it appends exactly `TransferFrames(transfer, mtu)` to the queue. |
| Tx.Transmitter.FeedPadded | canadensis_can/src/tx.rs:99-118 | After the payload and padding loop, the CRC is the CRC of payload plus padding. The breakdown has been fed exactly those bytes, `frames` counts the frames queued so far, and the queue holds exactly those non-last frames. |
| Tx.Transmitter.FeedStream | canadensis_can/src/tx.rs:99-131 | The breakdown has been fed exactly `TransferStream`: the padded payload, then the CRC bytes exactly when a frame was already queued. The queue holds exactly the stamped non-last frames, fewer than were reserved. |
| Tx.Transmitter.FeedCrc | canadensis_can/src/tx.rs:119-131 | Feeding the CRC bytes extends the breakdown's input by exactly those bytes, and the queue ends with exactly the frames completed so far. |
| Tx.Transmitter.AddAndQueue | canadensis_can/src/tx.rs:113-117 | One byte goes to the breakdown. A frame the breakdown completes is queued, and that push cannot fail because the room was reserved. The queue keeps matching the completed frames. |
| Tx.QueuedTransfer | canadensis_can/src/tx.rs:132-133 | Queueing the last frame after the stamped non-last frames gives exactly `TransferFrames`. |
| Tx.PaddedStep | canadensis_can/src/tx.rs:101-106 | The next byte (a payload byte, then zero) extends the prefix fed so far, the CRC of the longer prefix is one more `Add`, and the prefix needs no more frames than the whole. |
| Tx.Transmitter.PushFrame | canadensis_can/src/tx.rs:138-150 | Queues `Frame(timestamp, id, data)` exactly when the queue has room, and changes nothing otherwise. |
| Tx.Transmitter.TransferCount | canadensis_can/src/tx.rs:167-169 | The number of successful pushes in the history, modulo 2^64. |
| Tx.Transmitter.ErrorCount | canadensis_can/src/tx.rs:175-177 | The number of failed pushes in the history, modulo 2^64. |
| Tx.WrappingIncrement | canadensis_can/src/tx.rs:79 | Adds one below 2^64 - 1, and wraps 2^64 - 1 to 0. |
| Tx.WrappingIncrementCounts | canadensis_can/src/tx.rs:79 | A counter equal to n mod 2^64, after `wrapping_add(1)`, equals (n + 1) mod 2^64. |
| Tx.OccurrencesSnoc | canadensis_can/src/tx.rs:77-86 | Recording one more outcome adds one to the count of that outcome and leaves the other count unchanged. |
| Tx.EncodeCommonServiceFields | canadensis_can/src/tx.rs:215-222 | Service ID in bits 14-22, destination in bits 7-13, bit 25 set, and no other bit set. |
| Tx.RawCanId | canadensis_can/src/tx.rs:180-208 | The value assembled from priority, source and route fields is below 2^29, so the conversion at line 210 never fails. |
| Can.CanIdTryFrom | canadensis_can/src/tx.rs:210 | Succeeds exactly for values below 2^29, and then keeps the value. |
| Tx.DecodeCanId | canadensis_can/src/tx.rs:180-208 | Reference reader: bit 25 clear is a message, the priority is bits 26-28 and the source bits 0-6. |
| Tx.RouteOf | canadensis_can/src/tx.rs:184-207 | Messages get a message route and services a service route, with the header's priority. A header with a source keeps it. A message without one is anonymous, and its source is `PseudoId(payload)`, which is never diagnostic-reserved. A service route's request flag tells requests from responses. |
| Tx.MakeCanId | canadensis_can/src/tx.rs:180-211 | `DecodeCanId` of the result gives back the transfer's route: priority, kind, subject or service, destination, request flag or anonymous flag, and source (the pseudo-ID when anonymous). Bit 23 is clear. Message IDs have bits 21 and 22 set and bit 7 clear, so together with the decoded fields every one of the 29 bits is fixed. |
| Tx.RawCanIdRoute | canadensis_can/src/tx.rs:183-208 | The value assembled for each header kind decodes to that header's route; bit 23 is clear, and a message ID has bits 21 and 22 set and bit 7 clear. |
| Tx.MessageRawCanIdRoute | canadensis_can/src/tx.rs:184-198 | A message ID decodes to its priority, subject, anonymous flag and source; bits 21 and 22 are set and bits 7 and 23 are clear. |
| Tx.ServiceRawCanIdRoute | canadensis_can/src/tx.rs:199-207 | A request or response ID decodes to its priority, request flag, service, destination and source. |
| Tx.MessageIdFields | canadensis_can/src/tx.rs:184-198 | In the message layout each field is read back from its own bits, bit 25 is clear, bits 21 and 22 are set, bits 7 and 23 are clear, and the value stays below 2^29. |
| Tx.ServiceIdFields | canadensis_can/src/tx.rs:199-207 | In the service layout each field is read back from its own bits; bit 24 is the request flag and the value stays below 2^29. |
| Tx.PseudoId | canadensis_can/src/tx.rs:225-235 | The pseudo-ID is not diagnostic-reserved. It is the largest such ID not above the 7-bit truncation of 0x55 XOR the payload. |
| Tx.MakePseudoId | canadensis_can/src/tx.rs:225-235 | The fold-then-decrement loop returns exactly `PseudoId(payload)`. |
| Tx.XorFold | canadensis_can/src/tx.rs:227-229 | Folding XOR from the left over a state and the bytes gives the state XORed with `XorAll` of the bytes, an independent fold from the right. |
| Tx.XorAllAppend | canadensis_can/src/tx.rs:227-229 | The XOR of a concatenation is the XOR of the two parts' XORs. |
| Tx.XorAllRemove | canadensis_can/src/tx.rs:227-229 | Taking one byte out of a sequence takes it out of the XOR. |
| Tx.XorAllPermutation | canadensis_can/src/tx.rs:227-229 | Two byte sequences with the same multiset of bytes have the same XOR. |
| Tx.PseudoIdOrderFree | canadensis_can/src/tx.rs:225-235 | Reordering the payload bytes does not change the pseudo-ID. |
| Core.NodeIdFromTruncating | canadensis_can/src/tx.rs:230 | The node ID is the byte modulo 128. |
| Core.IsDiagnosticReserved | canadensis_can/src/tx.rs:231 | Exactly the node IDs 126 and 127 are reserved. |
| Tx.Padded | canadensis_can/src/tx.rs:101-105 | The payload followed by exactly `last_frame_padding` zero bytes. |
| Tx.TransferStream | canadensis_can/src/tx.rs:99-131 | The stream starts with the payload; its length is payload plus padding, plus two CRC bytes exactly for a multi-frame transfer. |
| Tx.TransferFrames | canadensis_can/src/tx.rs:94-133 | There are exactly the reserved number of frames, each with the transfer's timestamp and CAN ID. |
| Tx.TransferFrameCount | canadensis_can/src/tx.rs:94-97 | The breakdown of the transfer's stream has exactly the frame count that is reserved. |
| Tx.StreamFrames | canadensis_can/src/tx.rs:99-131 | The padded payload starts the stream and never needs more frames than were reserved. It fits one frame exactly when the payload does. The CRC bytes follow exactly for a multi-frame transfer. |
| Tx.PaddedIsPrefix | canadensis_can/src/tx.rs:119-125 | The stream is the padded payload, followed by the CRC bytes of the padded payload exactly when the payload exceeds one frame. |
| Tx.ChunksSingle | canadensis_can/src/tx.rs:119-121 | A stream fills no complete non-last frame exactly when it fits one frame, which is why `frames != 0` means multi-frame. |
| Tx.PrefixChunks | canadensis_can/src/tx.rs:97 | A prefix of the stream never needs more frames than the whole, so the reservation covers every frame pushed midway. |
| Can.CalculateFrameStats | canadensis_can/src/tx.rs:94 | One frame exactly when payload plus tail byte fits the MTU. The frame count equals the frame count of payload plus CRC bytes. Padding fills only the last frame, gives it a valid CAN FD data length, and is the least padding that does so. |
| Can.RoundUpDataLength | canadensis_can/src/tx.rs:94 | The smallest valid data length not below n. |
| Can.FrameCountClosedForm | canadensis_can/src/tx.rs:94 | The frame count and last-frame size of a stream are (len - 1) / n + 1 and (len - 1) % n + 1. |
| Can.PaddingKeepsFrameCount | canadensis_can/src/tx.rs:105 | Padding that fits the last frame adds no frame and only lengthens the last one. |
| Can.Stamp | canadensis_can/src/tx.rs:146-149 | One frame per data block, in order, each with the given timestamp, the given CAN ID and that block as its data. |
| Can.StampSnoc | canadensis_can/src/tx.rs:148-149 | Queueing one more frame after some frames equals the frames of the longer data sequence. |
| Can.Mtu.Bytes | canadensis_can/src/tx.rs:46 | Every `Mtu` converts to one of 8, 12, 16, 20, 24, 32, 48, 64. |
| Queue.FrameQueue.TryReserve | canadensis_can/src/tx.rs:97 | Succeeds exactly when the requested number of frames fits. |
| Queue.FrameQueue.PushFrame | canadensis_can/src/tx.rs:149 | Appends the frame exactly when the queue has room, and changes nothing otherwise. |
| Breakdown.Breakdown.constructor | canadensis_can/src/tx.rs:109 | A fresh breakdown has the MTU and transfer ID given, and has been fed nothing and handed out nothing. |
| Breakdown.Breakdown.Add | canadensis_can/src/tx.rs:113 | Records the byte. It returns a frame exactly when the current frame was full. The frames handed out so far grow by exactly that frame. |
| Breakdown.Breakdown.Finish | canadensis_can/src/tx.rs:132 | The frames handed out, followed by the returned last frame, are exactly the breakdown of all bytes fed. |
| Breakdown.TailByte | canadensis_can/src/tx.rs:113 | Each flag and the transfer ID are read back from their own bits of the tail byte. |
| Breakdown.BreakdownFrames | canadensis_can/src/tx.rs:109-133 | A stream breaks into FrameCount(len, mtu - 1) frames; dropping their tail bytes and concatenating gives back the stream. |
| Breakdown.WithTailsShape | canadensis_can/src/tx.rs:113-132 | Every frame is its chunk of the stream followed by exactly one tail byte. |
| Breakdown.BreakdownRoundTrip | canadensis_can/src/tx.rs:109-133 | Dropping every tail byte and concatenating gives back the stream. |
| Breakdown.BreakdownTails | canadensis_can/src/tx.rs:109-133 | Only the first frame has start set and only the last has end set; the toggle starts set and alternates; every tail carries the transfer ID. |
| Breakdown.BreakdownLengths | canadensis_can/src/tx.rs:109-133 | There are FrameCount(len, mtu - 1) frames; all but the last are exactly MTU bytes long; the last holds the rest plus a tail byte. |
| Breakdown.ChunksShape | canadensis_can/src/tx.rs:112-118 | The chunks of a stream: all but the last are full, and their count and the last one's size follow the frame arithmetic. |
| Breakdown.ChunksSnoc | canadensis_can/src/tx.rs:112-118 | One more byte extends the last chunk, or starts a new chunk when the last is full. |
| Crc.Add | canadensis_can/src/tx.rs:106 | Feeding a byte can be undone: running the bit step backwards eight times and removing the byte gives back the accumulator. |
| Crc.CrcBytes | canadensis_can/src/tx.rs:124 | Two bytes, most significant first, that put back together give the CRC value. |
| Crc.CheckValue | canadensis_can/src/tx.rs:100 | The CRC of "123456789" is 0x29B1, the CRC-16/CCITT-FALSE check value. |
| Crc.CrcOf | canadensis_can/src/tx.rs:100-106 | The CRC of a block is what a fresh CRC holds after its bytes are fed to it first to last, one `Add` per byte, as the `inspect` closure feeds them. |
| Crc.FeedSnoc | canadensis_can/src/tx.rs:106 | Feeding one more byte after a block is one more `Add`. |
| Crc.CrcOfSnoc | canadensis_can/src/tx.rs:106 | Adding a byte to the accumulator gives the CRC of the extended block. |
| Crc.ResidueIsZero | canadensis_can/src/tx.rs:122-125 | The CRC of a block followed by its CRC bytes, most significant first, is zero. |
| Crc.DetectsOneByteChange | canadensis_can/src/tx.rs:106 | Two blocks that differ in exactly one byte have different CRCs. |
| Crc.AddInjective | canadensis_can/src/tx.rs:106 | For a fixed byte, different accumulators stay different. |
| Properties.FrameHeaders | canadensis_can/src/tx.rs:94-133 | There are exactly the reserved number of frames, one exactly when payload plus tail byte fits. Every frame carries the transfer's timestamp and CAN ID. |
| Properties.FrameTails | canadensis_can/src/tx.rs:109-133 | The tail of frame i has start set iff i is 0, end set iff i is last, and toggle set iff i is even; every tail carries the transfer ID. |
| Properties.FrameLengths | canadensis_can/src/tx.rs:105-133 | Every frame but the last has exactly MTU bytes. The last has a valid CAN FD data length no larger than the MTU, and no shorter valid length would hold it without padding. |
| Properties.DataLengths | canadensis_can/src/tx.rs:94-133 | For a stream of payload plus padding plus CRC bytes (multi-frame only), every frame but the last is MTU long, and the last is a valid CAN FD data length no larger than the MTU that no shorter valid length holds without padding. |
| Properties.LastFrameFits | canadensis_can/src/tx.rs:94-105 | The last frame's length, with the reserved padding, is a valid CAN FD data length no larger than the MTU, and no shorter valid length holds it without padding. |
| Properties.ReassemblyRoundTrip | canadensis_can/src/tx.rs:99-133 | The queued frames, stripped of their tail bytes and concatenated, are exactly the transfer's stream. |
| Properties.StreamContents | canadensis_can/src/tx.rs:99-131 | The stream is the payload, then zero padding. Single-frame transfers end there. Multi-frame transfers add the CRC of payload and padding, most significant byte first, and the CRC of the whole stream is zero. |
| Properties.StreamLength | canadensis_can/src/tx.rs:99-131 | The stream is payload plus padding plus two CRC bytes exactly for multi-frame transfers. |
| Properties.CrcCoversPayload | canadensis_can/src/tx.rs:99-106 | Changing any one payload byte changes the CRC that is sent. |
| Properties.TwentyBytesOnClassicCan | canadensis_can/src/tx.rs:94 | 20 bytes on classic CAN take four frames and no padding. |
| Properties.TenBytesOnCanFd | canadensis_can/src/tx.rs:94 | 10 bytes on CAN FD with MTU 64 take one frame, padded by one byte to 12. |

## Left out

- `frame_queue` and `frame_queue_mut` (tx.rs:153-160) are plain accessors. The model exposes the queue as the `Transmitter.queue` field.
- `Breakdown`, `TransferCrc`, `calculate_frame_stats`, `FrameSink`, `Frame::new`, `CanId`, `NodeId` and `Mtu` are defined in files that are not part of this model. They are modelled from the UAVCAN v1.0 CAN transport as this code uses them:
  - Breakdown hands out a full frame only when the next byte arrives, which is what makes `frames != 0` mean multi-frame.
  - The CRC is CRC-16/CCITT-FALSE.
  - Padding rounds the last frame up to a CAN FD data length.
  - The sink is one bounded queue whose `try_reserve` succeeds exactly when the frames fit.
- Tx.Transmitter.PushInner, Tx.Transmitter.AddAndQueue and Tx.Transmitter.FeedCrc: the `?` after a non-last `push_frame` (tx.rs:115, 128) can never fail once the reservation succeeded. The model proves that branch dead instead of returning from it. A sink whose reservation does not guarantee later pushes is not modelled, so a transfer can never be partly queued.
- Tx.Transmitter.PushInner: its two loops live in the helper methods `FeedPadded` and `FeedCrc`, called from `FeedStream`, the shared "add a byte, queue a completed frame" step lives in `AddAndQueue`, and `push`'s counter update (tx.rs:77-86) lives in `Record`. The bytes go to the CRC and the breakdown in the same order as in the source.
- The chained, lazily evaluated iterator (tx.rs:101-106) is modelled as an index loop over payload and padding. The CRC is updated as each byte passes, as the `inspect` closure does.
- `Transfer<P, I>` with `P: AsRef<[u8]>` becomes a byte sequence. `I: Clone` becomes the type parameter `I`.
- The payload has no length limit, and the frame counter (an `i32` local at tx.rs:110) is a `nat`. `usize` and `i32` overflow are not modelled because only payloads of gigabytes could reach them.
- The receive side and the node, data-type and encoding crates are not part of this model. That covers basic_node.rs, list.rs and composite1.rs.
