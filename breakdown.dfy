/** Splitting a transfer's byte stream into CAN frames, each ending in a tail byte
    (section 4.2.2 of the UAVCAN/Cyphal Specification v1.0). */
module Breakdown {
  import opened Core
  import opened Can

  /** The tail byte: start of transfer (bit 7), end of transfer (bit 6), toggle (bit 5)
      and the transfer ID (bits 4 to 0) */
  function TailByte(start: bool, end: bool, toggle: bool, transferId: TransferId): (tail: bv8)
    ensures tail & 0x1f == transferId
    ensures (tail & 0x80 != 0) == start
    ensures (tail & 0x40 != 0) == end
    ensures (tail & 0x20 != 0) == toggle
  {
    (if start then 0x80 else 0) | (if end then 0x40 else 0) | (if toggle then 0x20 else 0) | transferId
  }

  /** A stream cut into consecutive chunks of n bytes; the last chunk keeps the remaining
      1 to n bytes, or no byte at all when the stream is empty */
  function Chunks(s: seq<bv8>, n: nat): (chunks: seq<seq<bv8>>)
    requires n > 0
    ensures |chunks| >= 1
    decreases |s|
  {
    if |s| <= n then [s] else [s[..n]] + Chunks(s[n..], n)
  }

  /** The bytes of the chunks, one after another */
  function Flatten(chunks: seq<seq<bv8>>): seq<bv8> {
    if chunks == [] then [] else Flatten(chunks[..|chunks| - 1]) + chunks[|chunks| - 1]
  }

  /** Frame `index` of `count` frames carries its chunk, then its tail byte: only the first
      frame starts the transfer, only the last ends it, and the toggle begins set and then
      alternates */
  function WithTail(chunk: seq<bv8>, index: nat, count: nat, transferId: TransferId): seq<bv8> {
    chunk + [TailByte(index == 0, index == count - 1, index % 2 == 0, transferId)]
  }

  /** The data of all frames of a transfer, built from its chunks */
  function WithTails(chunks: seq<seq<bv8>>, transferId: TransferId): (datas: seq<seq<bv8>>)
    ensures |datas| == |chunks|
  {
    seq(|chunks|, i requires 0 <= i < |chunks| => WithTail(chunks[i], i, |chunks|, transferId))
  }

  /** The data of frames that are followed by at least one more frame of the same transfer */
  function NonLastFrames(chunks: seq<seq<bv8>>, transferId: TransferId): (datas: seq<seq<bv8>>)
    ensures |datas| == |chunks|
  {
    seq(|chunks|, i requires 0 <= i < |chunks| => chunks[i] + [TailByte(i == 0, false, i % 2 == 0, transferId)])
  }

  /** Every frame's data is its chunk followed by one tail byte */
  lemma WithTailsShape(chunks: seq<seq<bv8>>, transferId: TransferId)
    ensures var datas := WithTails(chunks, transferId);
            forall i :: 0 <= i < |datas| ==> |datas[i]| == |chunks[i]| + 1 && datas[i][..|chunks[i]|] == chunks[i]
  {
    var datas := WithTails(chunks, transferId);
    forall i | 0 <= i < |datas|
      ensures |datas[i]| == |chunks[i]| + 1 && datas[i][..|chunks[i]|] == chunks[i]
    {
      assert datas[i] == WithTail(chunks[i], i, |chunks|, transferId);
    }
  }

  /** What a breakdown for this MTU produces from a stream: every frame's data. There is one
      frame per chunk of mtu - 1 bytes, and a receiver that drops the tail bytes gets the
      stream back. */
  function BreakdownFrames(s: seq<bv8>, mtu: nat, transferId: TransferId): (datas: seq<seq<bv8>>)
    requires mtu >= 2
    ensures |datas| == FrameCount(|s|, mtu - 1)
    ensures Reassembled(datas) == s
  {
    var chunks := Chunks(s, mtu - 1);
    ChunksShape(s, mtu - 1);
    WithTailsShape(chunks, transferId);
    ReassembledDropsTails(WithTails(chunks, transferId), chunks);
    FlattenChunks(s, mtu - 1);
    WithTails(chunks, transferId)
  }

  /** The payload a receiver collects from frame data: every frame without its tail byte */
  function Reassembled(datas: seq<seq<bv8>>): seq<bv8> {
    if datas == [] then []
    else
      var last := datas[|datas| - 1];
      Reassembled(datas[..|datas| - 1]) + (if last == [] then [] else last[..|last| - 1])
  }

  /** One more byte either extends the last chunk or, when that chunk is full, starts a new one */
  lemma {:induction false} ChunksSnoc(s: seq<bv8>, b: bv8, n: nat)
    requires n > 0
    ensures var chunks := Chunks(s, n);
            var last := chunks[|chunks| - 1];
            Chunks(s + [b], n) ==
              if |last| < n then chunks[..|chunks| - 1] + [last + [b]] else chunks + [[b]]
    decreases |s|
  {
    var sb := s + [b];
    if |s| < n {
    } else if |s| == n {
      assert sb[..n] == s && sb[n..] == [b];
    } else {
      assert sb[..n] == s[..n] && sb[n..] == s[n..] + [b];
      ChunksSnoc(s[n..], b, n);
      var rest := Chunks(s[n..], n);
      var chunks := [s[..n]] + rest;
      assert chunks[|chunks| - 1] == rest[|rest| - 1];
      assert chunks[..|chunks| - 1] == [s[..n]] + rest[..|rest| - 1];
    }
  }

  /** A longer stream never has fewer chunks */
  lemma {:induction false} ChunksGrow(s: seq<bv8>, t: seq<bv8>, n: nat)
    requires n > 0
    ensures |Chunks(s, n)| <= |Chunks(s + t, n)|
    decreases |s|
  {
    if |s| > n {
      assert (s + t)[..n] == s[..n] && (s + t)[n..] == s[n..] + t;
      ChunksGrow(s[n..], t, n);
    }
  }

  /** Every chunk but the last is full; the number of chunks and the size of the last one
      are those the frame arithmetic predicts */
  lemma {:induction false} ChunksShape(s: seq<bv8>, n: nat)
    requires n > 0
    ensures var chunks := Chunks(s, n);
            && |chunks| == FrameCount(|s|, n)
            && |chunks[|chunks| - 1]| == LastFrameBytes(|s|, n)
            && forall i :: 0 <= i < |chunks| - 1 ==> |chunks[i]| == n
    decreases |s|
  {
    if |s| > n {
      ChunksShape(s[n..], n);
      var rest := Chunks(s[n..], n);
      var chunks := [s[..n]] + rest;
      forall i | 1 <= i < |chunks| - 1
        ensures |chunks[i]| == n
      {
        assert chunks[i] == rest[i - 1];
      }
    }
  }

  lemma FlattenSnoc(chunks: seq<seq<bv8>>, c: seq<bv8>)
    ensures Flatten(chunks + [c]) == Flatten(chunks) + c
  {
    assert (chunks + [c])[..|chunks|] == chunks;
  }

  /** The chunks are the stream, cut */
  lemma {:induction false} FlattenChunks(s: seq<bv8>, n: nat)
    requires n > 0
    ensures Flatten(Chunks(s, n)) == s
    decreases |s|
  {
    if |s| <= n {
      assert Flatten([s]) == Flatten([]) + s;
    } else {
      FlattenChunks(s[n..], n);
      FlattenCons(s[..n], Chunks(s[n..], n));
      assert s[..n] + s[n..] == s;
    }
  }

  lemma {:induction false} FlattenCons(c: seq<bv8>, chunks: seq<seq<bv8>>)
    ensures Flatten([c] + chunks) == c + Flatten(chunks)
    decreases |chunks|
  {
    if chunks == [] {
      assert Flatten([c]) == Flatten([]) + c;
    } else {
      var init, last := chunks[..|chunks| - 1], chunks[|chunks| - 1];
      assert chunks == init + [last];
      assert [c] + chunks == ([c] + init) + [last];
      FlattenSnoc([c] + init, last);
      FlattenCons(c, init);
      FlattenSnoc(init, last);
    }
  }

  /** Dropping every tail byte gives back the chunks' bytes */
  lemma {:induction false} ReassembledDropsTails(datas: seq<seq<bv8>>, chunks: seq<seq<bv8>>)
    requires |datas| == |chunks|
    requires forall i :: 0 <= i < |datas| ==> |datas[i]| == |chunks[i]| + 1 && datas[i][..|chunks[i]|] == chunks[i]
    ensures Reassembled(datas) == Flatten(chunks)
    decreases |datas|
  {
    if datas != [] {
      var k := |datas| - 1;
      ReassembledDropsTails(datas[..k], chunks[..k]);
      assert datas[k][..|datas[k]| - 1] == chunks[k];
    }
  }

  /** Reassembling the frames of a breakdown gives back the stream */
  lemma BreakdownRoundTrip(s: seq<bv8>, mtu: nat, transferId: TransferId)
    requires mtu >= 2
    ensures Reassembled(BreakdownFrames(s, mtu, transferId)) == s
  {
  }

  /** The tail bytes of a breakdown: only the first frame starts the transfer, only the last ends
      it, the toggle starts set and alternates, and every tail carries the transfer ID */
  lemma BreakdownTails(s: seq<bv8>, mtu: nat, transferId: TransferId)
    requires mtu >= 2
    ensures var datas := BreakdownFrames(s, mtu, transferId);
            forall i :: 0 <= i < |datas| ==>
              var tail := datas[i][|datas[i]| - 1];
              && |datas[i]| >= 1
              && tail & 0x1f == transferId
              && (tail & 0x80 != 0) == (i == 0)
              && (tail & 0x40 != 0) == (i == |datas| - 1)
              && (tail & 0x20 != 0) == (i % 2 == 0)
  {
    var chunks := Chunks(s, mtu - 1);
    var datas := BreakdownFrames(s, mtu, transferId);
    forall i | 0 <= i < |datas|
      ensures |datas[i]| >= 1 && datas[i][|datas[i]| - 1] == TailByte(i == 0, i == |datas| - 1, i % 2 == 0, transferId)
    {
      assert datas[i] == chunks[i] + [TailByte(i == 0, i == |chunks| - 1, i % 2 == 0, transferId)];
    }
  }

  /** The sizes of the frames of a breakdown: every frame but the last is full (its chunk and a
      tail byte make mtu bytes), and the last holds the rest of the stream and a tail byte */
  lemma BreakdownLengths(s: seq<bv8>, mtu: nat, transferId: TransferId)
    requires mtu >= 2
    ensures var datas := BreakdownFrames(s, mtu, transferId);
            && |datas| == FrameCount(|s|, mtu - 1)
            && (forall i :: 0 <= i < |datas| - 1 ==> |datas[i]| == mtu)
            && |datas[|datas| - 1]| == LastFrameBytes(|s|, mtu - 1) + 1
  {
    var chunks := Chunks(s, mtu - 1);
    ChunksShape(s, mtu - 1);
    var datas := BreakdownFrames(s, mtu, transferId);
    forall i | 0 <= i < |datas|
      ensures |datas[i]| == |chunks[i]| + 1
    {
      assert datas[i] == WithTail(chunks[i], i, |chunks|, transferId);
    }
  }

  /** The frames of a transfer are the frames returned before the last, then the last */
  lemma WithTailsSplit(done: seq<seq<bv8>>, current: seq<bv8>, transferId: TransferId)
    ensures WithTails(done + [current], transferId)
         == NonLastFrames(done, transferId) + [WithTail(current, |done|, |done| + 1, transferId)]
  {
  }

  lemma NonLastFramesSnoc(done: seq<seq<bv8>>, c: seq<bv8>, transferId: TransferId)
    ensures NonLastFrames(done + [c], transferId)
         == NonLastFrames(done, transferId) + [c + [TailByte(|done| == 0, false, |done| % 2 == 0, transferId)]]
  {
  }

  /** Breaks a transfer's bytes into frames. Bytes are buffered in the current frame; a full
      frame is handed out, with its tail byte, only when the next byte arrives, so the last frame
      always stays in the breakdown until Finish. */
  class Breakdown {
    const mtu: nat
    const transferId: TransferId
    var current: seq<bv8>
    var start: bool
    var toggle: bool
    /** Every byte added so far */
    ghost var fed: seq<bv8>
    /** The chunks of the frames handed out so far */
    ghost var done: seq<seq<bv8>>

    ghost predicate Valid()
      reads this
    {
      && mtu >= 2
      && |current| <= mtu - 1
      && Chunks(fed, mtu - 1) == done + [current]
      && start == (|done| == 0)
      && toggle == (|done| % 2 == 0)
    }

    constructor (mtu: nat, transferId: TransferId)
      requires mtu >= 2
      ensures Valid() && this.mtu == mtu && this.transferId == transferId
      ensures fed == [] && done == []
    {
      this.mtu := mtu;
      this.transferId := transferId;
      current := [];
      start := true;
      toggle := true;
      fed := [];
      done := [];
    }

    /** Adds one byte; returns the data of the previous frame when that frame was full */
    method Add(byte: bv8) returns (frame: Option<seq<bv8>>)
      requires Valid()
      modifies this
      ensures Valid() && fed == old(fed) + [byte]
      ensures frame.Some? <==> |old(current)| == mtu - 1
      ensures NonLastFrames(done, transferId)
           == old(NonLastFrames(done, transferId)) + (if frame.Some? then [frame.value] else [])
    {
      ChunksSnoc(fed, byte, mtu - 1);
      if |current| == mtu - 1 {
        NonLastFramesSnoc(done, current, transferId);
        frame := Some(current + [TailByte(start, false, toggle, transferId)]);
        done := done + [current];
        current := [byte];
        start := false;
        toggle := !toggle;
      } else {
        frame := None;
        current := current + [byte];
      }
      fed := fed + [byte];
    }

    /** The data of the last frame: the bytes still buffered and a tail byte that ends the transfer */
    method Finish() returns (data: seq<bv8>)
      requires Valid()
      ensures NonLastFrames(done, transferId) + [data] == BreakdownFrames(fed, mtu, transferId)
    {
      data := current + [TailByte(start, true, toggle, transferId)];
      WithTailsSplit(done, current, transferId);
    }
  }
}
