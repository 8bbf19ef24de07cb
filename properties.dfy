/** What a receiver sees of the frames the transmitter queues for one transfer. */
module Properties {
  import opened Core
  import opened Can
  import Crc
  import opened Breakdown
  import opened Tx

  /** The data of each frame, in order */
  function Datas<I>(frames: seq<Frame<I>>): (datas: seq<seq<bv8>>)
    ensures |datas| == |frames|
  {
    seq(|frames|, i requires 0 <= i < |frames| => frames[i].data)
  }

  lemma {:induction false} LastFrameBytesBound(len: nat, n: nat)
    requires n > 0
    ensures LastFrameBytes(len, n) <= n
    decreases len
  {
    if len > n {
      LastFrameBytesBound(len - n, n);
    }
  }

  /** The length of the stream: the payload, the padding, and two CRC bytes when the transfer
      takes more than one frame */
  lemma StreamLength(payload: seq<bv8>, mtu: nat)
    requires IsMtu(mtu)
    ensures |TransferStream(payload, mtu)|
         == |payload| + CalculateFrameStats(|payload|, mtu).lastFramePadding + (if |payload| <= mtu - 1 then 0 else 2)
  {
    StreamFrames(payload, mtu);
  }

  /** Every frame of a transfer carries the transfer's timestamp and CAN ID, and there are as
      many frames as were reserved: one exactly when the payload and a tail byte fit the MTU */
  lemma FrameHeaders<I>(transfer: Transfer<I>, mtu: nat)
    requires IsMtu(mtu)
    ensures var frames := TransferFrames(transfer, mtu);
            && |frames| == CalculateFrameStats(|transfer.payload|, mtu).frames
            && (|frames| == 1 <==> |transfer.payload| <= mtu - 1)
            && forall i :: 0 <= i < |frames| ==>
                 && frames[i].timestamp == transfer.header.Timestamp()
                 && frames[i].id == MakeCanId(transfer.header, transfer.payload)
  {
    TransferFrameCount(transfer.payload, mtu, transfer.header.TransferIdOf());
  }

  /** The tail bytes of a transfer's frames mark the first frame as the start and the last as
      the end, toggle starting from set, and carry the transfer ID */
  lemma FrameTails<I>(transfer: Transfer<I>, mtu: nat)
    requires IsMtu(mtu)
    ensures var frames := TransferFrames(transfer, mtu);
            forall i :: 0 <= i < |frames| ==>
              var tail := frames[i].data[|frames[i].data| - 1];
              && |frames[i].data| >= 1
              && tail & 0x1f == transfer.header.TransferIdOf()
              && (tail & 0x80 != 0) == (i == 0)
              && (tail & 0x40 != 0) == (i == |frames| - 1)
              && (tail & 0x20 != 0) == (i % 2 == 0)
  {
    BreakdownTails(TransferStream(transfer.payload, mtu), mtu, transfer.header.TransferIdOf());
  }

  /** The last frame of a stream of payload, CRC bytes and padding has a valid CAN FD data
      length no larger than the MTU, and no shorter valid length holds it without padding */
  lemma LastFrameFits(payloadLength: nat, mtu: nat)
    requires IsMtu(mtu)
    ensures var padding := CalculateFrameStats(payloadLength, mtu).lastFramePadding;
            var total := payloadLength + (if payloadLength <= mtu - 1 then 0 else 2) + padding;
            var last := LastFrameBytes(total, mtu - 1) + 1;
            && IsDataLength(last) && last <= mtu
            && padding < last
            && (forall k :: last - padding <= k < last ==> !IsDataLength(k))
  {
    var padding := CalculateFrameStats(payloadLength, mtu).lastFramePadding;
    LastFrameBytesBound(payloadLength + (if payloadLength <= mtu - 1 then 0 else 2) + padding, mtu - 1);
  }

  /** The frame data of a stream as long as a transfer's stream of payload, CRC bytes and
      padding: every frame but the last holds mtu bytes, and the last has a valid data length
      with the least padding */
  lemma DataLengths(s: seq<bv8>, payloadLength: nat, mtu: nat, transferId: TransferId)
    requires IsMtu(mtu)
    requires |s| == payloadLength + (if payloadLength <= mtu - 1 then 0 else 2)
                    + CalculateFrameStats(payloadLength, mtu).lastFramePadding
    ensures var datas := BreakdownFrames(s, mtu, transferId);
            var last := |datas[|datas| - 1]|;
            var padding := CalculateFrameStats(payloadLength, mtu).lastFramePadding;
            && (forall i :: 0 <= i < |datas| - 1 ==> |datas[i]| == mtu)
            && IsDataLength(last) && last <= mtu
            && padding < last
            && (forall k :: last - padding <= k < last ==> !IsDataLength(k))
  {
    BreakdownLengths(s, mtu, transferId);
    LastFrameFits(payloadLength, mtu);
  }

  /** Every frame of a transfer but the last is filled to the MTU; the last has a valid CAN FD
      data length no larger than the MTU, and the padding is the least that gives one */
  lemma FrameLengths<I>(transfer: Transfer<I>, mtu: nat)
    requires IsMtu(mtu)
    ensures var frames := TransferFrames(transfer, mtu);
            var last := |frames[|frames| - 1].data|;
            var padding := CalculateFrameStats(|transfer.payload|, mtu).lastFramePadding;
            && (forall i :: 0 <= i < |frames| - 1 ==> |frames[i].data| == mtu)
            && IsDataLength(last) && last <= mtu
            && padding < last
            && (forall k :: last - padding <= k < last ==> !IsDataLength(k))
  {
    DataLengths(TransferStream(transfer.payload, mtu), |transfer.payload|, mtu, transfer.header.TransferIdOf());
  }

  /** Dropping the tail bytes of the queued frames and concatenating what is left gives the
      transfer's stream */
  lemma ReassemblyRoundTrip<I>(transfer: Transfer<I>, mtu: nat)
    requires IsMtu(mtu)
    ensures Reassembled(Datas(TransferFrames(transfer, mtu))) == TransferStream(transfer.payload, mtu)
  {
    var header := transfer.header;
    var datas := BreakdownFrames(TransferStream(transfer.payload, mtu), mtu, header.TransferIdOf());
    assert Datas(TransferFrames(transfer, mtu)) == datas;
    BreakdownRoundTrip(TransferStream(transfer.payload, mtu), mtu, header.TransferIdOf());
  }

  /** The stream starts with the payload, then zero padding up to the last frame's data length
      (no more than needed); a single-frame transfer ends there, and a multi-frame transfer adds
      the CRC of payload and padding, most significant byte first, after which a receiver's CRC
      over the whole stream is zero */
  lemma StreamContents(payload: seq<bv8>, mtu: nat)
    requires IsMtu(mtu)
    ensures var stats := CalculateFrameStats(|payload|, mtu);
            var stream := TransferStream(payload, mtu);
            var end := |payload| + stats.lastFramePadding;
            && end <= |stream|
            && stream[..|payload|] == payload
            && (forall j :: |payload| <= j < end ==> stream[j] == 0)
            && (|payload| <= mtu - 1 ==> |stream| == end)
            && (|payload| > mtu - 1 ==>
                  && |stream| == end + 2
                  && stream[end..] == Crc.CrcBytes(Crc.CrcOf(stream[..end]))
                  && Crc.CrcOf(stream) == 0)
  {
    var stats := CalculateFrameStats(|payload|, mtu);
    var padded := Padded(payload, mtu);
    var stream := TransferStream(payload, mtu);
    StreamFrames(payload, mtu);
    if |payload| > mtu - 1 {
      assert stream[..|padded|] == padded;
      Crc.ResidueIsZero(padded);
    }
  }

  /** A transfer of 20 bytes on classic CAN: 20 payload bytes and 2 CRC bytes at 7 bytes per
      frame take four frames, and the last frame (one CRC byte and a tail byte) needs no padding */
  lemma TwentyBytesOnClassicCan()
    ensures CalculateFrameStats(20, 8) == FrameStats(4, 0)
  {
  }

  /** A 10-byte payload on CAN FD with a 64-byte MTU fits one frame of 11 bytes, which is padded
      to the 12-byte data length */
  lemma TenBytesOnCanFd()
    ensures CalculateFrameStats(10, 64) == FrameStats(1, 1)
  {
  }

  /** Changing any one byte of a multi-frame transfer's payload changes the CRC it sends */
  lemma CrcCoversPayload(payload: seq<bv8>, other: seq<bv8>, k: nat, mtu: nat)
    requires IsMtu(mtu) && |payload| == |other| && k < |payload| && payload[k] != other[k]
    requires forall j :: 0 <= j < |payload| && j != k ==> payload[j] == other[j]
    ensures Crc.CrcOf(Padded(payload, mtu)) != Crc.CrcOf(Padded(other, mtu))
  {
    var p, o := Padded(payload, mtu), Padded(other, mtu);
    assert |p| == |o|;
    assert forall j :: 0 <= j < |p| && j != k ==> p[j] == o[j];
    Crc.DetectsOneByteChange(p, o, k);
  }
}
