/** Client calls on the buffer whose observations, through `peek` and
    `remove` after a few calls to `add`, are proved as postconditions. */
module Scenarios {
  import opened Wrappers
  import opened Frames
  import opened JitterPolicy
  import opened JitterBuffers

  /** The first frame anchors the window: it is at offset 0 and the slot
      after it is still empty. */
  method FirstFrameAnchors(p: Payload) returns (at0: Result<Option<JitterFrame>, PeekError>, at1: Result<Option<JitterFrame>, PeekError>)
    ensures at0 == Ok(Some(JitterFrame(p, 5, 100)))
    ensures at1 == Ok(None)
  {
    var b := new JitterBuffer(16);
    b.Add(p, 5, 100);
    at0 := b.Peek(0);
    at1 := b.Peek(1);
  }

  /** A frame at least MAX_MISORDER behind the origin restarts the window
      on it. */
  method RegressionRestarts(p: Payload) returns (origin: Option<int>, at0: Result<Option<JitterFrame>, PeekError>)
    ensures origin == Some(50)
    ensures at0 == Ok(Some(JitterFrame(p, 50, 0)))
  {
    var b := new JitterBuffer(16);
    b.Add(p, 200, 0);
    b.Add(p, 50, 0);
    origin := b.origin;
    at0 := b.Peek(0);
  }

  /** A frame less than MAX_MISORDER behind the origin is dropped: 50 is
      above 100 - MAX_MISORDER, so the window stays anchored on 100. */
  method LateFrameDropped(p: Payload, q: Payload) returns (origin: Option<int>, at0: Result<Option<JitterFrame>, PeekError>)
    ensures origin == Some(100)
    ensures at0 == Ok(Some(JitterFrame(p, 100, 0)))
  {
    var b := new JitterBuffer(16);
    b.Add(p, 100, 0);
    b.Add(q, 50, 0);
    origin := b.origin;
    at0 := b.Peek(0);
  }

  /** A frame 20 places ahead of a 16-slot window doubles the buffer and
      lands at offset 20. */
  method NearFrameGrows(p: Payload) returns (capacity: nat, at20: Result<Option<JitterFrame>, PeekError>)
    ensures capacity == 32
    ensures at20 == Ok(Some(JitterFrame(p, 20, 0)))
  {
    var b := new JitterBuffer(16);
    b.Add(p, 0, 0);
    b.Add(p, 20, 0);
    capacity := b.Capacity();
    at20 := b.Peek(20);
  }

  /** Far beyond a fixed buffer, past MAX_DROPOUT, the window restarts on
      the new frame. */
  method DropoutRestarts(p: Payload) returns (origin: Option<int>, capacity: nat, at0: Result<Option<JitterFrame>, PeekError>)
    ensures origin == Some(4000) && capacity == 256
    ensures at0 == Ok(Some(JitterFrame(p, 4000, 0)))
  {
    var b := new JitterBuffer(256);
    b.Add(p, 0, 0);
    b.Add(p, 4000, 0);
    origin := b.origin;
    capacity := b.Capacity();
    at0 := b.Peek(0);
  }

  /** Past the offset the capacity allows, `peek` raises IndexError. */
  method PeekPastCapacity() returns (r: Result<Option<JitterFrame>, PeekError>)
    ensures r == Err(IndexError(16, 16))
  {
    var b := new JitterBuffer(16);
    r := b.Peek(16);
  }

  /** Draining three slots of which only the first and last hold frames
      returns them with the gap between, and moves the origin on by three. */
  method DrainKeepsGaps(p: Payload) returns (removed: seq<Option<JitterFrame>>, origin: Option<int>)
    ensures removed == [Some(JitterFrame(p, 0, 0)), None, Some(JitterFrame(p, 2, 0))]
    ensures origin == Some(3)
  {
    var b := new JitterBuffer(16);
    b.Add(p, 0, 0);
    b.Add(p, 2, 0);
    removed := b.Remove(3);
    origin := b.origin;
  }
}
