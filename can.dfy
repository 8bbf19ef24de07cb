/** CAN-level types: identifiers, frames, MTUs, and how many frames a transfer needs. */
module Can {
  import opened Core

  /** A 29-bit extended CAN identifier */
  type CanId = b: bv32 | b < 0x2000_0000

  /** Conversion of a raw 32-bit value to an extended identifier; fails above 29 bits */
  function CanIdTryFrom(bits: bv32): (id: Option<CanId>)
    ensures id.Some? <==> bits < 0x2000_0000
    ensures id.Some? ==> id.value == bits
  {
    if bits < 0x2000_0000 then Some(bits) else None
  }

  /** One CAN frame: its timestamp, identifier and data (the last data byte is the tail byte) */
  datatype Frame<I> = Frame(timestamp: I, id: CanId, data: seq<bv8>)

  /** Frames with the given data, all carrying one timestamp and one identifier */
  function Stamp<I>(timestamp: I, id: CanId, datas: seq<seq<bv8>>): (frames: seq<Frame<I>>)
    ensures |frames| == |datas|
    ensures forall i :: 0 <= i < |frames| ==>
              frames[i].timestamp == timestamp && frames[i].id == id && frames[i].data == datas[i]
  {
    seq(|datas|, i requires 0 <= i < |datas| => Frame(timestamp, id, datas[i]))
  }

  /** Queueing one more frame after the frames of some data */
  lemma StampSnoc<I>(queued: seq<Frame<I>>, start: seq<Frame<I>>, timestamp: I, id: CanId,
                     datas: seq<seq<bv8>>, data: seq<bv8>)
    requires queued == start + Stamp(timestamp, id, datas)
    ensures queued + [Frame(timestamp, id, data)] == start + Stamp(timestamp, id, datas + [data])
  {
    assert Stamp(timestamp, id, datas + [data]) == Stamp(timestamp, id, datas) + [Frame(timestamp, id, data)];
  }

  /** Transport MTU: classic CAN carries 8 data bytes, CAN FD up to 64 */
  datatype Mtu = Can8 | CanFd12 | CanFd16 | CanFd20 | CanFd24 | CanFd32 | CanFd48 | CanFd64
  {
    function Bytes(): (n: nat)
      ensures IsMtu(n)
    {
      match this
      case Can8 => 8
      case CanFd12 => 12
      case CanFd16 => 16
      case CanFd20 => 20
      case CanFd24 => 24
      case CanFd32 => 32
      case CanFd48 => 48
      case CanFd64 => 64
    }
  }

  /** The byte counts an Mtu stands for */
  predicate IsMtu(n: nat) {
    n == 8 || n == 12 || n == 16 || n == 20 || n == 24 || n == 32 || n == 48 || n == 64
  }

  /** The data lengths a CAN FD frame can have (its DLC table); classic CAN uses 0 to 8 */
  predicate IsDataLength(n: nat) {
    n <= 8 || n == 12 || n == 16 || n == 20 || n == 24 || n == 32 || n == 48 || n == 64
  }

  /** The smallest frame data length that holds n bytes */
  function RoundUpDataLength(n: nat): (r: nat)
    requires n <= 64
    ensures n <= r && IsDataLength(r)
    ensures forall k :: n <= k < r ==> !IsDataLength(k)
  {
    if n <= 8 then n
    else if n <= 12 then 12
    else if n <= 16 then 16
    else if n <= 20 then 20
    else if n <= 24 then 24
    else if n <= 32 then 32
    else if n <= 48 then 48
    else 64
  }

  /** Number of frames a stream of len bytes fills when every frame but the last holds
      exactly n of them (there is always at least one frame) */
  function FrameCount(len: nat, n: nat): nat
    requires n > 0
    decreases len
  {
    if len <= n then 1 else 1 + FrameCount(len - n, n)
  }

  /** Number of stream bytes in the last of those frames */
  function LastFrameBytes(len: nat, n: nat): nat
    requires n > 0
    decreases len
  {
    if len <= n then len else LastFrameBytes(len - n, n)
  }

  lemma {:induction false} FrameCountClosedForm(len: nat, n: nat)
    requires n > 0 && len > 0
    ensures FrameCount(len, n) == (len - 1) / n + 1
    ensures LastFrameBytes(len, n) == (len - 1) % n + 1
    decreases len
  {
    if len > n {
      FrameCountClosedForm(len - n, n);
      DivModStep(len - 1 - n, n);
    }
  }

  lemma DivModStep(x: nat, n: nat)
    requires n > 0
    ensures (x + n) / n == x / n + 1 && (x + n) % n == x % n
  {
    var q, r := x / n, x % n;
    assert x + n == (q + 1) * n + r by {
      assert (q + 1) * n == q * n + n;
    }
    DivModUnique(x + n, n, q + 1, r);
  }

  /** Division and remainder are determined by any decomposition x == q * n + r, 0 <= r < n */
  lemma DivModUnique(x: int, n: int, q: int, r: int)
    requires n > 0 && 0 <= r < n && x == q * n + r
    ensures x / n == q && x % n == r
  {
    var q', r' := x / n, x % n;
    assert (q' - q) * n == r - r' by {
      assert (q' - q) * n == q' * n - q * n;
    }
    if q' > q {
      MulAtLeast(q' - q, n);
    } else if q' < q {
      MulAtMost(q' - q, n);
    }
  }

  lemma MulAtLeast(a: int, n: int)
    requires a >= 1 && n > 0
    ensures a * n >= n
  {
    assert a * n == (a - 1) * n + n;
  }

  lemma MulAtMost(a: int, n: int)
    requires a <= -1 && n > 0
    ensures a * n <= -n
  {
    assert a * n == (a + 1) * n - n;
  }

  /** Padding extends a partly filled last frame without adding a frame */
  lemma {:induction false} PaddingKeepsFrameCount(len: nat, pad: nat, n: nat)
    requires n > 0 && LastFrameBytes(len, n) + pad <= n
    ensures FrameCount(len + pad, n) == FrameCount(len, n)
    ensures LastFrameBytes(len + pad, n) == LastFrameBytes(len, n) + pad
    decreases len
  {
    if len > n {
      PaddingKeepsFrameCount(len - n, pad, n);
      assert len + pad - n == len - n + pad;
    }
  }

  /** How many frames a transfer takes, and how many zero bytes pad its last frame */
  datatype FrameStats = FrameStats(frames: nat, lastFramePadding: nat)

  /** Frames and padding for a payload of payloadLength bytes: the payload, then the padding,
      then (for a multi-frame transfer) the two CRC bytes, with one tail byte per frame; the
      padding brings the last frame to a valid CAN FD data length. */
  function CalculateFrameStats(payloadLength: nat, mtu: nat): (stats: FrameStats)
    requires IsMtu(mtu)
    ensures (stats.frames == 1) == (payloadLength <= mtu - 1)
    ensures var crcLength := if payloadLength <= mtu - 1 then 0 else 2;
            var unpadded := payloadLength + crcLength;
            var total := unpadded + stats.lastFramePadding;
            && stats.frames == FrameCount(total, mtu - 1)
            && stats.frames == FrameCount(unpadded, mtu - 1)
            && LastFrameBytes(total, mtu - 1) == LastFrameBytes(unpadded, mtu - 1) + stats.lastFramePadding
            && IsDataLength(LastFrameBytes(total, mtu - 1) + 1)
            && (forall k :: LastFrameBytes(unpadded, mtu - 1) + 1 <= k < LastFrameBytes(total, mtu - 1) + 1
                  ==> !IsDataLength(k))
  {
    var capacity := mtu - 1;
    if payloadLength <= capacity then
      var length := payloadLength + 1;
      PaddingKeepsFrameCount(payloadLength, RoundUpDataLength(length) - length, capacity);
      FrameStats(1, RoundUpDataLength(length) - length)
    else
      var withCrc := payloadLength + 2;
      FrameCountClosedForm(withCrc, capacity);
      var frames := (withCrc - 1) / capacity + 1;
      var lastFrameLength := (withCrc - 1) % capacity + 1 + 1;
      var padding := RoundUpDataLength(lastFrameLength) - lastFrameLength;
      PaddingKeepsFrameCount(withCrc, padding, capacity);
      FrameStats(frames, padding)
  }
}
