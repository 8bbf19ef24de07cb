/** The transmitter: turns an outgoing transfer into CAN frames and places them in a frame
    queue (canadensis_can/src/tx.rs). */
module Tx {
  import opened Core
  import opened Can
  import Crc
  import opened Queue
  import opened Breakdown

  /** An unsigned 64-bit counter */
  type U64 = x: int | 0 <= x < 0x1_0000_0000_0000_0000

  /** Adding one with wrap-around from 2^64 - 1 to 0 */
  function WrappingIncrement(x: U64): (y: U64)
    ensures x < 0xffff_ffff_ffff_ffff ==> y == x + 1
    ensures x == 0xffff_ffff_ffff_ffff ==> y == 0
  {
    (x + 1) % 0x1_0000_0000_0000_0000
  }

  /** The number of entries of a history equal to b */
  function Occurrences(history: seq<bool>, b: bool): nat {
    if history == [] then 0
    else Occurrences(history[..|history| - 1], b) + (if history[|history| - 1] == b then 1 else 0)
  }

  lemma OccurrencesSnoc(history: seq<bool>, b: bool, c: bool)
    ensures Occurrences(history + [c], b) == Occurrences(history, b) + (if c == b then 1 else 0)
  {
    assert (history + [c])[..|history|] == history;
  }

  /** Counting modulo 2^64 is counting, then reducing */
  lemma WrappingIncrementCounts(x: U64, n: nat)
    requires x == n % 0x1_0000_0000_0000_0000
    ensures WrappingIncrement(x) == (n + 1) % 0x1_0000_0000_0000_0000
  {
    var m := 0x1_0000_0000_0000_0000;
    DivModUnique(n, m, n / m, x);
    if x + 1 < m {
      DivModUnique(n + 1, m, n / m, x + 1);
    } else {
      assert n + 1 == (n / m + 1) * m;
      DivModUnique(n + 1, m, n / m + 1, 0);
    }
  }

  /** How the service fields sit in the identifier: the service ID in bits 14 to 22, the
      destination in bits 7 to 13, and bit 25 marking a service transfer; no other bit is set */
  function EncodeCommonServiceFields<I>(header: ServiceHeader<I>): (bits: bv32)
    ensures (bits >> 14) & 0x1ff == header.service as bv32
    ensures (bits >> 7) & 0x7f == header.destination as bv32
    ensures bits & (1 << 25) != 0
    ensures bits & 0xfd80_007f == 0
  {
    ((header.service as bv32) << 14) | ((header.destination as bv32) << 7) | (1 << 25)
  }

  /** XOR of all bytes, taken from the last byte backwards */
  function XorAll(bytes: seq<bv8>): bv8
    decreases |bytes|
  {
    if bytes == [] then 0 else XorAll(bytes[..|bytes| - 1]) ^ bytes[|bytes| - 1]
  }

  /** Taking off the first byte instead of the last */
  lemma {:induction false} XorAllCons(b: bv8, bytes: seq<bv8>)
    ensures XorAll([b] + bytes) == b ^ XorAll(bytes)
    decreases |bytes|
  {
    if bytes == [] {
      assert ([b] + bytes)[..0] == [];
    } else {
      var init := bytes[..|bytes| - 1];
      assert ([b] + bytes)[..|bytes|] == [b] + init;
      XorAllCons(b, init);
    }
  }

  /** XOR of a state and bytes, folded from the left: the state XORed with all the bytes */
  function XorFold(state: bv8, bytes: seq<bv8>): (r: bv8)
    ensures r == state ^ XorAll(bytes)
    decreases |bytes|
  {
    if bytes == [] then state
    else
      assert bytes == [bytes[0]] + bytes[1..];
      XorAllCons(bytes[0], bytes[1..]);
      XorFold(state ^ bytes[0], bytes[1..])
  }

  /** XOR of a concatenation */
  lemma {:induction false} XorAllAppend(s: seq<bv8>, t: seq<bv8>)
    ensures XorAll(s + t) == XorAll(s) ^ XorAll(t)
    decreases |t|
  {
    if t == [] {
      assert s + t == s;
    } else {
      var init := t[..|t| - 1];
      assert (s + t)[..|s + t| - 1] == s + init;
      XorAllAppend(s, init);
    }
  }

  /** XOR does not depend on the order of the bytes */
  lemma {:induction false} XorAllPermutation(s: seq<bv8>, t: seq<bv8>)
    requires multiset(s) == multiset(t)
    ensures XorAll(s) == XorAll(t)
    decreases |s|
  {
    if s != [] {
      var init, x := s[..|s| - 1], s[|s| - 1];
      assert s == init + [x];
      assert x in multiset(t);
      var j :| 0 <= j < |t| && t[j] == x;
      XorAllRemove(t, j);
      MultisetRemove(t, j);
      assert multiset(init) == multiset(s) - multiset{x};
      XorAllPermutation(init, t[..j] + t[j + 1..]);
    }
  }

  /** Taking the byte at `j` out of `t` takes it out of the XOR */
  lemma XorAllRemove(t: seq<bv8>, j: nat)
    requires j < |t|
    ensures XorAll(t) == XorAll(t[..j] + t[j + 1..]) ^ t[j]
  {
    var front, back := t[..j + 1], t[j + 1..];
    assert front + back == t;
    assert front[..j] == t[..j];
    XorAllAppend(front, back);
    XorAllAppend(t[..j], back);
    XorSwap(XorAll(t[..j]), t[j], XorAll(back));
  }

  lemma XorSwap(a: bv8, x: bv8, b: bv8)
    ensures a ^ x ^ b == a ^ b ^ x
  {
  }

  /** Taking the byte at `j` out of `t` takes it out of the multiset */
  lemma MultisetRemove(t: seq<bv8>, j: nat)
    requires j < |t|
    ensures multiset(t[..j] + t[j + 1..]) == multiset(t) - multiset{t[j]}
  {
    assert t[..j + 1] + t[j + 1..] == t;
    assert t[..j + 1] == t[..j] + [t[j]];
  }

  /** The pseudo node ID of an anonymous message: the payload XORed into 0x55, truncated to
      7 bits, and lowered to the nearest ID that is not reserved for diagnostic tools */
  function PseudoId(payload: seq<bv8>): (id: NodeId)
    ensures var start := NodeIdFromTruncating(XorFold(0x55, payload));
            && !IsDiagnosticReserved(id)
            && id <= start
            && forall k: NodeId :: id < k <= start ==> IsDiagnosticReserved(k)
  {
    var start := NodeIdFromTruncating(XorFold(0x55, payload));
    if IsDiagnosticReserved(start) then 125 else start
  }

  /** make_pseudo_id: folds the payload, then decrements while the ID is reserved */
  method MakePseudoId(payload: seq<bv8>) returns (id: NodeId)
    ensures id == PseudoId(payload)
  {
    var bits := XorFold(0x55, payload);
    id := NodeIdFromTruncating(bits);
    ghost var start := id;
    while IsDiagnosticReserved(id)
      invariant id == start || 125 <= id < start
      decreases id as int
    {
      id := NodeIdFromTruncating(id - 1);
    }
  }

  /** The pseudo-ID depends only on which bytes the payload holds, not on their order */
  lemma PseudoIdOrderFree(payload: seq<bv8>, other: seq<bv8>)
    requires multiset(payload) == multiset(other)
    ensures PseudoId(payload) == PseudoId(other)
  {
    XorAllPermutation(payload, other);
  }

  /** The 32-bit value make_can_id assembles before converting it to a CAN ID. Its highest
      field is the 3-bit priority at bits 26 to 28, so the value always fits in 29 bits and
      the conversion never fails. */
  function RawCanId<I>(header: Header<I>, payload: seq<bv8>): (bits: bv32)
    ensures bits < 0x2000_0000
  {
    var source := match header.Source()
      case Some(id) => id
      case None => PseudoId(payload);
    var priority := header.PriorityOf() as bv32;
    var common := (priority << 26) | (source as bv32);
    match header
    case Message(m) =>
      var anonymous: bv32 := if m.source.None? then 1 << 24 else 0;
      MessageIdFields(priority, m.subject as bv32, source as bv32, anonymous);
      common | ((m.subject as bv32) << 8) | (1 << 21) | (1 << 22) | anonymous
    case Request(s) =>
      ServiceIdFields(priority, s.service as bv32, s.destination as bv32, source as bv32, 1 << 24);
      common | EncodeCommonServiceFields(s) | (1 << 24)
    case Response(s) =>
      ServiceIdFields(priority, s.service as bv32, s.destination as bv32, source as bv32, 0);
      common | EncodeCommonServiceFields(s) | 0
  }

  /** Decoding the assembled value gives back the route of the transfer */
  lemma RawCanIdRoute<I>(header: Header<I>, payload: seq<bv8>)
    ensures var bits := RawCanId(header, payload);
            && DecodeCanId(bits) == RouteOf(header, payload)
            && bits & (1 << 23) == 0
            && (header.Message? ==> bits & (1 << 21) != 0 && bits & (1 << 22) != 0 && bits & (1 << 7) == 0)
  {
    match header
    case Message(m) => MessageRawCanIdRoute(m, payload);
    case Request(s) => ServiceRawCanIdRoute(header, s, payload);
    case Response(s) => ServiceRawCanIdRoute(header, s, payload);
  }

  lemma MessageRawCanIdRoute<I>(m: MessageHeader<I>, payload: seq<bv8>)
    ensures var bits := RawCanId(Message(m), payload);
            && DecodeCanId(bits) == RouteOf(Message(m), payload)
            && bits & (1 << 23) == 0 && bits & (1 << 21) != 0 && bits & (1 << 22) != 0
            && bits & (1 << 7) == 0
  {
    var source := if m.source.Some? then m.source.value else PseudoId(payload);
    var anonymous: bv32 := if m.source.None? then 1 << 24 else 0;
    MessageIdFields(m.priority as bv32, m.subject as bv32, source as bv32, anonymous);
  }

  lemma ServiceRawCanIdRoute<I>(header: Header<I>, s: ServiceHeader<I>, payload: seq<bv8>)
    requires header == Request(s) || header == Response(s)
    ensures var bits := RawCanId(header, payload);
            && DecodeCanId(bits) == RouteOf(header, payload)
            && bits & (1 << 23) == 0
  {
    var request: bv32 := if header.Request? then 1 << 24 else 0;
    ServiceIdFields(s.priority as bv32, s.service as bv32, s.destination as bv32, s.source as bv32, request);
  }

  /** Where the fields of a message identifier land */
  lemma MessageIdFields(priority: bv32, subject: bv32, source: bv32, anonymous: bv32)
    requires priority < 8 && subject < 8192 && source < 128 && (anonymous == 0 || anonymous == 1 << 24)
    ensures var bits := (priority << 26) | source | (subject << 8) | (1 << 21) | (1 << 22) | anonymous;
            && bits < 0x2000_0000
            && (bits >> 26) & 7 == priority && bits & 0x7f == source && (bits >> 8) & 0x1fff == subject
            && (bits & (1 << 24) != 0) == (anonymous != 0) && bits & (1 << 25) == 0
            && bits & (1 << 23) == 0 && bits & (1 << 22) != 0 && bits & (1 << 21) != 0
            && bits & (1 << 7) == 0
  {
  }

  /** Where the fields of a service identifier land */
  lemma ServiceIdFields(priority: bv32, service: bv32, destination: bv32, source: bv32, request: bv32)
    requires priority < 8 && service < 512 && destination < 128 && source < 128
    requires request == 0 || request == 1 << 24
    ensures var bits := (priority << 26) | source | ((service << 14) | (destination << 7) | (1 << 25)) | request;
            && bits < 0x2000_0000
            && (bits >> 26) & 7 == priority && bits & 0x7f == source
            && (bits >> 14) & 0x1ff == service && (bits >> 7) & 0x7f == destination
            && (bits & (1 << 24) != 0) == (request != 0) && bits & (1 << 25) != 0
            && bits & (1 << 23) == 0
  {
  }

  /** The routing information an identifier carries */
  datatype Route =
    | MessageRoute(priority: Priority, subject: SubjectId, anonymous: bool, source: NodeId)
    | ServiceRoute(priority: Priority, request: bool, service: ServiceId, destination: NodeId, source: NodeId)

  /** The route of a transfer; an anonymous message is sent from its pseudo-ID, which is never
      an ID reserved for diagnostic tools */
  function RouteOf<I>(header: Header<I>, payload: seq<bv8>): (route: Route)
    ensures route.MessageRoute? <==> header.Message?
    ensures route.priority == header.PriorityOf()
    ensures header.Source().Some? ==> route.source == header.Source().value
    ensures header.Source().None? ==> route.MessageRoute? && route.source == PseudoId(payload)
                                      && !IsDiagnosticReserved(route.source)
    ensures route.MessageRoute? ==> (route.anonymous <==> header.Source().None?)
    ensures route.ServiceRoute? ==> route.request == header.Request?
  {
    match header
    case Message(m) =>
      MessageRoute(m.priority, m.subject, m.source.None?,
                   if m.source.Some? then m.source.value else PseudoId(payload))
    case Request(s) => ServiceRoute(s.priority, true, s.service, s.destination, s.source)
    case Response(s) => ServiceRoute(s.priority, false, s.service, s.destination, s.source)
  }

  /** How a receiver reads an identifier (section 4.2.1 of the UAVCAN/Cyphal Specification
      v1.0): priority in bits 26 to 28, bit 25 telling services from messages, bit 24 the
      anonymous (message) or request (service) flag, the source in bits 0 to 6 */
  function DecodeCanId(id: CanId): (route: Route)
    ensures route.MessageRoute? <==> id & (1 << 25) == 0
    ensures route.priority as bv32 == (id >> 26) & 7 && route.source as bv32 == id & 0x7f
  {
    var priority := ((id >> 26) & 7) as bv8;
    var flag := id & (1 << 24) != 0;
    var source := (id & 0x7f) as bv8;
    if id & (1 << 25) == 0 then
      MessageRoute(priority, ((id >> 8) & 0x1fff) as bv16, flag, source)
    else
      ServiceRoute(priority, flag, ((id >> 14) & 0x1ff) as bv16, ((id >> 7) & 0x7f) as bv8, source)
  }

  /** make_can_id: the identifier of every frame of a transfer. Decoding it gives back the
      transfer's route; bit 23 is clear, and a message identifier has bits 21 and 22 set and
      bit 7 clear. */
  function MakeCanId<I>(header: Header<I>, payload: seq<bv8>): (id: CanId)
    ensures DecodeCanId(id) == RouteOf(header, payload)
    ensures id & (1 << 23) == 0
    ensures header.Message? ==> id & (1 << 21) != 0 && id & (1 << 22) != 0 && id & (1 << 7) == 0
  {
    RawCanIdRoute(header, payload);
    CanIdTryFrom(RawCanId(header, payload)).value
  }

  /** n zero bytes */
  function Zeros(n: nat): (zeros: seq<bv8>)
    ensures |zeros| == n
  {
    seq(n, _ => 0)
  }

  /** The payload followed by the padding of the last frame */
  function Padded(payload: seq<bv8>, mtu: nat): (padded: seq<bv8>)
    requires IsMtu(mtu)
    ensures |padded| == |payload| + CalculateFrameStats(|payload|, mtu).lastFramePadding
    ensures padded[..|payload|] == payload
    ensures forall j :: |payload| <= j < |padded| ==> padded[j] == 0
  {
    payload + Zeros(CalculateFrameStats(|payload|, mtu).lastFramePadding)
  }

  /** Every byte the frames of a transfer carry before their tail bytes: the payload, the
      padding, and for a multi-frame transfer the CRC of both, most significant byte first */
  function TransferStream(payload: seq<bv8>, mtu: nat): (stream: seq<bv8>)
    requires IsMtu(mtu)
    ensures |payload| <= |stream| && stream[..|payload|] == payload
    ensures |stream| == |payload| + CalculateFrameStats(|payload|, mtu).lastFramePadding
                        + (if |payload| <= mtu - 1 then 0 else 2)
  {
    var padded := Padded(payload, mtu);
    if |payload| <= mtu - 1 then padded else padded + Crc.CrcBytes(Crc.CrcOf(padded))
  }

  /** The frames push places in the queue for a transfer */
  function TransferFrames<I>(transfer: Transfer<I>, mtu: nat): (frames: seq<Frame<I>>)
    requires IsMtu(mtu)
    ensures |frames| == CalculateFrameStats(|transfer.payload|, mtu).frames
    ensures forall i :: 0 <= i < |frames| ==>
              frames[i].timestamp == transfer.header.Timestamp()
              && frames[i].id == MakeCanId(transfer.header, transfer.payload)
  {
    var header := transfer.header;
    TransferFrameCount(transfer.payload, mtu, header.TransferIdOf());
    Stamp(header.Timestamp(), MakeCanId(header, transfer.payload),
          BreakdownFrames(TransferStream(transfer.payload, mtu), mtu, header.TransferIdOf()))
  }

  /** Queueing the last frame after the stamped non-last frames completes the transfer's frames */
  lemma QueuedTransfer<I>(queued: seq<Frame<I>>, start: seq<Frame<I>>, transfer: Transfer<I>, mtu: nat,
                          nonLast: seq<seq<bv8>>, last: seq<bv8>)
    requires IsMtu(mtu)
    requires queued == start + Stamp(transfer.header.Timestamp(), MakeCanId(transfer.header, transfer.payload), nonLast)
    requires nonLast + [last] == BreakdownFrames(TransferStream(transfer.payload, mtu), mtu, transfer.header.TransferIdOf())
    ensures queued + [Frame(transfer.header.Timestamp(), MakeCanId(transfer.header, transfer.payload), last)]
            == start + TransferFrames(transfer, mtu)
  {
    StampSnoc(queued, start, transfer.header.Timestamp(), MakeCanId(transfer.header, transfer.payload), nonLast, last);
  }

  /** One step of feeding the padded payload: the next byte extends the prefix fed so far, the
      CRC of the longer prefix is one more `Add`, and the prefix has no more chunks than the whole */
  lemma PaddedStep(payload: seq<bv8>, padding: nat, i: nat, n: nat)
    requires n > 0 && i < |payload| + padding
    ensures var padded, byte := payload + Zeros(padding), if i < |payload| then payload[i] else 0;
            && padded[..i + 1] == padded[..i] + [byte]
            && Crc.CrcOf(padded[..i + 1]) == Crc.Add(Crc.CrcOf(padded[..i]), byte)
            && |Chunks(padded[..i + 1], n)| <= |Chunks(padded, n)|
  {
    var padded, byte := payload + Zeros(padding), if i < |payload| then payload[i] else 0;
    assert padded[..i + 1] == padded[..i] + [byte];
    Crc.CrcOfSnoc(padded[..i], byte);
    PrefixChunks(padded, i + 1, n);
  }

  /** The number of frames of a transfer is the number CalculateFrameStats reserves */
  lemma TransferFrameCount(payload: seq<bv8>, mtu: nat, transferId: TransferId)
    requires IsMtu(mtu)
    ensures |BreakdownFrames(TransferStream(payload, mtu), mtu, transferId)|
         == CalculateFrameStats(|payload|, mtu).frames
  {
    ChunksShape(TransferStream(payload, mtu), mtu - 1);
  }

  /** A stream fits in one frame exactly when it has at most one frame's capacity */
  lemma ChunksSingle(s: seq<bv8>, n: nat)
    requires n > 0
    ensures |Chunks(s, n)| == 1 <==> |s| <= n
  {
    if |s| > n {
      assert Chunks(s, n) == [s[..n]] + Chunks(s[n..], n);
    }
  }

  /** A prefix of a stream never needs more frames than the stream */
  lemma PrefixChunks(stream: seq<bv8>, k: nat, n: nat)
    requires n > 0 && k <= |stream|
    ensures |Chunks(stream[..k], n)| <= |Chunks(stream, n)|
  {
    assert stream[..k] + stream[k..] == stream;
    ChunksGrow(stream[..k], stream[k..], n);
  }

  /** The stream starts with the padded payload, and adds the CRC bytes exactly when the padded
      payload does not fit in one frame */
  lemma PaddedIsPrefix(payload: seq<bv8>, mtu: nat)
    requires IsMtu(mtu)
    ensures var padded := Padded(payload, mtu);
            && |padded| <= |TransferStream(payload, mtu)|
            && TransferStream(payload, mtu)[..|padded|] == padded
            && (|padded| <= mtu - 1 <==> |payload| <= mtu - 1)
            && (|payload| <= mtu - 1 ==> TransferStream(payload, mtu) == padded)
            && (|payload| > mtu - 1 ==> TransferStream(payload, mtu) == padded + Crc.CrcBytes(Crc.CrcOf(padded)))
  {
  }

  /** What the transmitter relies on while it feeds the stream: the padded payload starts the
      stream, and the stream has as many frames as were reserved */
  lemma StreamFrames(payload: seq<bv8>, mtu: nat)
    requires IsMtu(mtu)
    ensures var padded, stream := Padded(payload, mtu), TransferStream(payload, mtu);
            var frames := CalculateFrameStats(|payload|, mtu).frames;
            && |padded| == |payload| + CalculateFrameStats(|payload|, mtu).lastFramePadding
            && |Chunks(stream, mtu - 1)| == frames
            && |Chunks(padded, mtu - 1)| <= frames
            && (|padded| <= mtu - 1 <==> |payload| <= mtu - 1)
            && (|payload| <= mtu - 1 ==> stream == padded)
            && (|payload| > mtu - 1 ==> stream == padded + Crc.CrcBytes(Crc.CrcOf(padded)))
  {
    PaddedIsPrefix(payload, mtu);
    TransferFrameCount(payload, mtu, 0);
    PrefixChunks(TransferStream(payload, mtu), |Padded(payload, mtu)|, mtu - 1);
  }

  /** Outgoing transfers are split into frames and queued */
  class Transmitter<I> {
    /** Queue of frames waiting to be sent */
    const queue: FrameQueue<I>
    /** Transport MTU in bytes */
    var mtu: nat
    /** Number of transfers whose frames were all queued, modulo 2^64 */
    var transferCount: U64
    /** Number of transfers that could not be queued, modulo 2^64 */
    var errorCount: U64
    /** Whether each push so far succeeded, oldest first */
    ghost var outcomes: seq<bool>

    ghost predicate Valid()
      reads this, queue
    {
      && IsMtu(mtu)
      && queue.Valid()
      && transferCount == Occurrences(outcomes, true) % 0x1_0000_0000_0000_0000
      && errorCount == Occurrences(outcomes, false) % 0x1_0000_0000_0000_0000
    }

    constructor (mtu: Mtu, queue: FrameQueue<I>)
      requires queue.Valid()
      ensures Valid() && this.queue == queue && this.mtu == mtu.Bytes() && outcomes == []
      ensures transferCount == 0 && errorCount == 0
    {
      this.queue := queue;
      this.mtu := mtu.Bytes();
      transferCount := 0;
      errorCount := 0;
      outcomes := [];
    }

    /** Changes the MTU used by later pushes, and nothing else */
    method SetMtu(mtu: Mtu)
      requires Valid()
      modifies this
      ensures Valid() && this.mtu == mtu.Bytes()
      ensures transferCount == old(transferCount) && errorCount == old(errorCount)
      ensures outcomes == old(outcomes) && queue.frames == old(queue.frames)
    {
      this.mtu := mtu.Bytes();
    }

    function TransferCount(): (n: U64)
      reads this, queue
      requires Valid()
      ensures n == Occurrences(outcomes, true) % 0x1_0000_0000_0000_0000
    {
      transferCount
    }

    function ErrorCount(): (n: U64)
      reads this, queue
      requires Valid()
      ensures n == Occurrences(outcomes, false) % 0x1_0000_0000_0000_0000
    {
      errorCount
    }

    /** Queues all frames of a transfer, or none of them when the queue has no room for all;
        exactly one of the two counters goes up */
    method Push(transfer: Transfer<I>) returns (r: Result<(), OutOfMemoryError>)
      requires Valid()
      modifies this, queue
      ensures Valid() && mtu == old(mtu) && outcomes == old(outcomes) + [r.Ok?]
      ensures r.Ok? <==> |old(queue.frames)| + |TransferFrames(transfer, mtu)| <= queue.capacity
      ensures queue.frames == if r.Ok? then old(queue.frames) + TransferFrames(transfer, mtu)
                              else old(queue.frames)
      ensures r.Ok? ==> transferCount == WrappingIncrement(old(transferCount)) && errorCount == old(errorCount)
      ensures r.Err? ==> errorCount == WrappingIncrement(old(errorCount)) && transferCount == old(transferCount)
    {
      assert |TransferFrames(transfer, mtu)| == CalculateFrameStats(|transfer.payload|, mtu).frames;
      r := PushInner(transfer);
      Record(r.Ok?);
    }

    /** Counts the outcome of one push: the transfer counter on success, the error counter on
        failure, each wrapping at 2^64 */
    method Record(ok: bool)
      requires Valid()
      modifies this
      ensures Valid() && mtu == old(mtu) && outcomes == old(outcomes) + [ok]
      ensures ok ==> transferCount == WrappingIncrement(old(transferCount)) && errorCount == old(errorCount)
      ensures !ok ==> errorCount == WrappingIncrement(old(errorCount)) && transferCount == old(transferCount)
    {
      OccurrencesSnoc(outcomes, true, ok);
      OccurrencesSnoc(outcomes, false, ok);
      if ok {
        WrappingIncrementCounts(transferCount, Occurrences(outcomes, true));
        transferCount := WrappingIncrement(transferCount);
      } else {
        WrappingIncrementCounts(errorCount, Occurrences(outcomes, false));
        errorCount := WrappingIncrement(errorCount);
      }
      outcomes := outcomes + [ok];
    }

    /** Reserves room for every frame first; then feeds the payload and the padding to the
        CRC and the breakdown, queueing each frame the breakdown completes; then, when a frame
        has been queued already, feeds the CRC; then queues the last frame */
    method PushInner(transfer: Transfer<I>) returns (r: Result<(), OutOfMemoryError>)
      requires Valid()
      modifies queue
      ensures queue.Valid()
      ensures r.Ok? <==> |old(queue.frames)| + CalculateFrameStats(|transfer.payload|, mtu).frames <= queue.capacity
      ensures queue.frames == if r.Ok? then old(queue.frames) + TransferFrames(transfer, mtu)
                              else old(queue.frames)
    {
      var header, payload := transfer.header, transfer.payload;
      var stats := CalculateFrameStats(|payload|, mtu);
      var reserved := queue.TryReserve(stats.frames);
      if reserved.Err? {
        return Err(reserved.error);
      }
      var canId := MakeCanId(header, payload);
      var transferId := header.TransferIdOf();
      var breakdown := new Breakdown(mtu, transferId);
      ghost var start := queue.frames;
      FeedStream(breakdown, payload, header.Timestamp(), canId, start, stats.frames);
      var lastFrameData := breakdown.Finish();
      QueuedTransfer(queue.frames, start, transfer, mtu, NonLastFrames(breakdown.done, transferId), lastFrameData);
      r := PushFrame(header.Timestamp(), canId, lastFrameData);
    }

    /** Feeds the padded payload to a fresh CRC and to the breakdown and then, when a frame has
        been queued already, the CRC; each frame the breakdown completes is queued */
    method FeedStream(breakdown: Breakdown, payload: seq<bv8>, timestamp: I, id: CanId,
                      ghost start: seq<Frame<I>>, ghost reserved: nat)
      requires IsMtu(mtu) && breakdown.mtu == mtu
      requires queue.Valid() && breakdown.Valid() && breakdown.fed == [] && breakdown.done == []
      requires queue.frames == start && |start| + reserved <= queue.capacity
      requires reserved == CalculateFrameStats(|payload|, mtu).frames
      modifies queue, breakdown
      ensures queue.Valid() && breakdown.Valid()
      ensures breakdown.fed == TransferStream(payload, mtu) && |breakdown.done| < reserved
      ensures queue.frames == start + Stamp(timestamp, id, NonLastFrames(breakdown.done, breakdown.transferId))
    {
      ghost var padded := Padded(payload, mtu);
      StreamFrames(payload, mtu);
      var crc, frames := FeedPadded(breakdown, payload, CalculateFrameStats(|payload|, mtu).lastFramePadding,
                                    timestamp, id, start, reserved);
      ChunksSingle(padded, mtu - 1);
      if frames != 0 {
        // the padded payload filled at least one frame: the transfer is multi-frame and ends in its CRC
        FeedCrc(breakdown, Crc.CrcBytes(crc), timestamp, id, start, reserved);
      }
    }

    /** Feeds the payload and then `padding` zero bytes to a fresh CRC and to the breakdown,
        queueing each frame the breakdown completes; returns the CRC and the number of frames
        queued */
    method FeedPadded(breakdown: Breakdown, payload: seq<bv8>, padding: nat, timestamp: I, id: CanId,
                      ghost start: seq<Frame<I>>, ghost reserved: nat) returns (crc: bv16, frames: nat)
      requires queue.Valid() && breakdown.Valid() && breakdown.fed == [] && breakdown.done == []
      requires queue.frames == start && |start| + reserved <= queue.capacity
      requires |Chunks(payload + Zeros(padding), breakdown.mtu - 1)| <= reserved
      modifies queue, breakdown
      ensures queue.Valid() && breakdown.Valid()
      ensures breakdown.fed == payload + Zeros(padding) && crc == Crc.CrcOf(payload + Zeros(padding))
      ensures frames == |breakdown.done| < reserved
      ensures queue.frames == start + Stamp(timestamp, id, NonLastFrames(breakdown.done, breakdown.transferId))
    {
      ghost var padded := payload + Zeros(padding);
      crc := Crc.Initial;
      frames := 0;
      var i := 0;
      while i < |payload| + padding
        invariant i <= |padded|
        invariant breakdown.Valid() && breakdown.fed == padded[..i] && crc == Crc.CrcOf(padded[..i])
        invariant frames == |breakdown.done| < reserved
        invariant queue.Valid()
        invariant queue.frames == start + Stamp(timestamp, id, NonLastFrames(breakdown.done, breakdown.transferId))
      {
        var byte: bv8 := if i < |payload| then payload[i] else 0;
        PaddedStep(payload, padding, i, breakdown.mtu - 1);
        crc := Crc.Add(crc, byte);
        var pushed := AddAndQueue(breakdown, byte, timestamp, id, start, reserved);
        if pushed {
          frames := frames + 1;
        }
        i := i + 1;
      }
      assert padded[..i] == padded;
    }

    /** Feeds the CRC bytes to the breakdown, queueing each frame the breakdown completes */
    method FeedCrc(breakdown: Breakdown, crcBytes: seq<bv8>, timestamp: I, id: CanId,
                   ghost start: seq<Frame<I>>, ghost reserved: nat)
      requires queue.Valid() && breakdown.Valid() && |start| + reserved <= queue.capacity
      requires queue.frames == start + Stamp(timestamp, id, NonLastFrames(breakdown.done, breakdown.transferId))
      requires |Chunks(breakdown.fed + crcBytes, breakdown.mtu - 1)| <= reserved
      modifies queue, breakdown
      ensures queue.Valid() && breakdown.Valid() && breakdown.fed == old(breakdown.fed) + crcBytes
      ensures |breakdown.done| < reserved
      ensures queue.frames == start + Stamp(timestamp, id, NonLastFrames(breakdown.done, breakdown.transferId))
    {
      ghost var stream := breakdown.fed + crcBytes;
      ghost var fed := breakdown.fed;
      PrefixChunks(stream, |fed|, breakdown.mtu - 1);
      assert stream[..|fed|] == fed;
      for k := 0 to |crcBytes|
        invariant breakdown.Valid() && breakdown.fed == stream[..|fed| + k]
        invariant |breakdown.done| < reserved
        invariant queue.Valid()
        invariant queue.frames == start + Stamp(timestamp, id, NonLastFrames(breakdown.done, breakdown.transferId))
      {
        assert stream[..|fed| + k + 1] == stream[..|fed| + k] + [crcBytes[k]];
        PrefixChunks(stream, |fed| + k + 1, breakdown.mtu - 1);
        var _ := AddAndQueue(breakdown, crcBytes[k], timestamp, id, start, reserved);
      }
      assert stream[..|fed| + |crcBytes|] == stream;
    }

    /** Adds one byte to the breakdown and queues the frame it completes, if any; the queue has
        room for it because it was reserved for all frames of the transfer */
    method AddAndQueue(breakdown: Breakdown, byte: bv8, timestamp: I, id: CanId,
                       ghost start: seq<Frame<I>>, ghost reserved: nat) returns (pushed: bool)
      requires queue.Valid() && breakdown.Valid()
      requires queue.frames == start + Stamp(timestamp, id, NonLastFrames(breakdown.done, breakdown.transferId))
      requires |start| + reserved <= queue.capacity
      requires |Chunks(breakdown.fed + [byte], breakdown.mtu - 1)| <= reserved
      modifies queue, breakdown
      ensures queue.Valid() && breakdown.Valid() && breakdown.fed == old(breakdown.fed) + [byte]
      ensures queue.frames == start + Stamp(timestamp, id, NonLastFrames(breakdown.done, breakdown.transferId))
      ensures |breakdown.done| == |old(breakdown.done)| + (if pushed then 1 else 0) < reserved
    {
      ghost var before := breakdown.done;
      var frameData := breakdown.Add(byte);
      pushed := frameData.Some?;
      if pushed {
        StampSnoc(queue.frames, start, timestamp, id, NonLastFrames(before, breakdown.transferId), frameData.value);
        var pr := PushFrame(timestamp, id, frameData.value);
        if pr.Err? {
          assert false;
        }
      }
    }

    /** Queues one frame */
    method PushFrame(timestamp: I, id: CanId, data: seq<bv8>) returns (r: Result<(), OutOfMemoryError>)
      requires queue.Valid()
      modifies queue
      ensures queue.Valid()
      ensures r.Ok? <==> |old(queue.frames)| < queue.capacity
      ensures queue.frames == if r.Ok? then old(queue.frames) + [Frame(timestamp, id, data)] else old(queue.frames)
    {
      r := queue.PushFrame(Frame(timestamp, id, data));
    }
  }
}
