/** A bounded frame queue: the frame sink the transmitter fills. */
module Queue {
  import opened Core
  import opened Can

  /** Outgoing frames waiting to be sent, oldest first, at most capacity of them */
  class FrameQueue<I> {
    var frames: seq<Frame<I>>
    const capacity: nat

    ghost predicate Valid()
      reads this
    {
      |frames| <= capacity
    }

    constructor (capacity: nat)
      ensures Valid() && this.capacity == capacity && frames == []
    {
      this.capacity := capacity;
      frames := [];
    }

    /** Succeeds exactly when `additional` more frames fit, so that the next `additional`
        calls of PushFrame succeed */
    method TryReserve(additional: nat) returns (r: Result<(), OutOfMemoryError>)
      requires Valid()
      ensures r.Ok? <==> |frames| + additional <= capacity
    {
      if |frames| + additional <= capacity {
        r := Ok(());
      } else {
        r := Err(OutOfMemoryError);
      }
    }

    /** Appends a frame, or fails and changes nothing when the queue is full */
    method PushFrame(frame: Frame<I>) returns (r: Result<(), OutOfMemoryError>)
      requires Valid()
      modifies this
      ensures Valid()
      ensures r.Ok? <==> |old(frames)| < capacity
      ensures frames == if r.Ok? then old(frames) + [frame] else old(frames)
    {
      if |frames| < capacity {
        frames := frames + [frame];
        r := Ok(());
      } else {
        r := Err(OutOfMemoryError);
      }
    }
  }
}
