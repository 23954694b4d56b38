/** The jitter buffer itself: a ring of frame slots that reorders frames by
    sequence number. Its logical view (module JitterPolicy) is the ring read
    from `head`. `Add` and `Remove` are proved to keep the representation
    invariant and to change the view as `JitterPolicy.Add` and
    `JitterPolicy.Advance` say; the internal `Reset` and `Resize` ensure the
    invariant and state their new view directly; `Place` and `TakeHead`, the
    single steps of `add` and `remove`, state their effect on the view under
    the ring's bounds only. */
module JitterBuffers {
  import opened Wrappers
  import opened Frames
  import opened Rotation
  import opened JitterPolicy

  /** The error `peek` raises for an offset at or past the capacity. */
  datatype PeekError = IndexError(offset: int, capacity: nat)

  class JitterBuffer {
    var capacity: nat
    var frames: array<Option<JitterFrame>>
    var head: nat
    var origin: Option<int>

    /** The buffer in window order: slot `d` of the view is
        `frames[(head + d) % capacity]`. */
    ghost function View(): BufferView
      reads this, frames
      requires head <= frames.Length
    {
      BufferView(Rotate(frames[..], head), origin)
    }

    ghost predicate Valid()
      reads this, frames
    {
      && 0 < capacity == frames.Length
      && head < capacity
      && (origin.None? ==> head == 0)
      && Coherent(View())
    }

    /** A new buffer: `capacity` empty slots, head at 0, no origin. */
    constructor (capacity: nat)
      requires 0 < capacity
      ensures Valid() && fresh(frames)
      ensures this.capacity == capacity && head == 0
      ensures View() == BufferView(Empty(capacity), None)
    {
      this.capacity := capacity;
      frames := new Option<JitterFrame>[capacity](_ => None);
      head := 0;
      origin := None;
      new;
      assert frames[..] == Empty(capacity);
      RotateHome(frames[..]);
    }

    /** The number of slots. */
    function Capacity(): (c: nat)
      reads this, frames
      requires Valid()
      ensures 0 < c && c == |View().slots|
    {
      capacity
    }

    /** Whether the buffer has reached MAX_CAPACITY: a fixed buffer never
        grows, whatever frame is added. */
    function Fixed(): (r: bool)
      reads this, frames
      requires Valid()
      ensures r <==> IsFixed(capacity)
      ensures r ==> forall f :: |JitterPolicy.Add(View(), f).slots| == capacity
    {
      capacity >= MAX_CAPACITY
    }

    /** The slot `offset` places after the head, or IndexError when `offset`
        is not below the capacity. A negative offset counts back from the end
        of the window, as Python's modulo does. */
    function Peek(offset: int): (r: Result<Option<JitterFrame>, PeekError>)
      reads this, frames
      requires Valid()
      ensures capacity <= offset ==> r == Err(IndexError(offset, capacity))
      ensures offset < capacity ==> r == Ok(View().slots[offset % capacity])
    {
      if offset >= capacity then
        Err(IndexError(offset, capacity))
      else
        ModShift(head, offset, capacity);
        RotateAt(frames[..], head, offset % capacity);
        Ok(frames[(head + offset) % capacity])
    }

    /** Adds a received frame according to the threshold policy. */
    method Add(payload: Payload, sequenceNumber: int, timestamp: int)
      requires Valid()
      modifies this, frames
      ensures Valid()
      ensures View() == JitterPolicy.Add(old(View()), JitterFrame(payload, sequenceNumber, timestamp))
      ensures var d := Decide(old(origin), old(capacity), sequenceNumber);
              && (d.Drop? ==> unchanged(this) && unchanged(frames))
              && (d.Anchor? || d.Store? ==> head == old(head) && frames == old(frames))
              && (d.Restart? ==> head == 0 && frames == old(frames))
              && (d.Grow? ==> head == 0 && fresh(frames))
    {
      var frame := JitterFrame(payload, sequenceNumber, timestamp);
      ghost var before := View();
      if origin.None? {
        origin := Some(sequenceNumber);
      } else if sequenceNumber <= origin.value - MAX_MISORDER {
        Reset();
        origin := Some(sequenceNumber);
      } else if sequenceNumber < origin.value {
        return;
      }

      var delta := sequenceNumber - origin.value;
      if delta >= capacity {
        if !Fixed() && 2 * delta < 3 * capacity {
          Resize(2 * capacity);
        } else if delta > MAX_DROPOUT {
          Reset();
          origin := Some(sequenceNumber);
          delta := 0;
        } else {
          return;
        }
      }

      Place(delta, frame);
      AddKeepsCoherent(before, frame);
    }

    /** Internal: the last step of `add`, writing the frame into the slot
        `delta` places after the head and overwriting what was there. */
    method Place(delta: nat, frame: JitterFrame)
      requires 0 < capacity == frames.Length && head < capacity && delta < capacity
      modifies frames
      ensures View() == BufferView(old(View()).slots[delta := Some(frame)], origin)
    {
      var pos := (head + delta) % capacity;
      RotateUpdate(frames[..], head, delta, Some(frame));
      frames[pos] := Some(frame);
    }

    /** Takes the first `count` slots of the window (frames or gaps, in
        order), empties them and moves the window on by `count`. A negative
        count removes nothing. */
    method Remove(count: int) returns (removed: seq<Option<JitterFrame>>)
      requires Valid()
      requires count <= capacity
      requires 0 < count ==> origin.Some?
      modifies this, frames
      ensures Valid()
      ensures var n := if count < 0 then 0 else count;
              && removed == old(View()).slots[..n]
              && View() == Advance(old(View()), n)
              && head == (old(head) + n) % capacity
      ensures capacity == old(capacity) && frames == old(frames)
    {
      var n := if count < 0 then 0 else count;
      ghost var before := View();
      removed := [];
      var i := 0;
      while i < n
        invariant 0 <= i <= n
        invariant 0 < capacity == old(capacity) == frames.Length && frames == old(frames)
        invariant head == if old(head) + i < capacity then old(head) + i else old(head) + i - capacity
        invariant removed == before.slots[..i]
        invariant View().slots == before.slots[i..] + Empty(i)
        invariant origin == if i == 0 then old(origin) else Some(old(origin).value + i)
      {
        DrainStep(before.slots, i);
        var frame := TakeHead();
        removed := removed + [frame];
        i := i + 1;
      }
      WrapMod(old(head) + n, capacity);
      AdvanceKeepsCoherent(before, n);
    }

    /** Internal: one turn of the loop in `remove`: takes the head slot,
        empties it and moves head and origin on by one. */
    method TakeHead() returns (frame: Option<JitterFrame>)
      requires 0 < capacity == frames.Length && head < capacity && origin.Some?
      modifies this, frames
      ensures capacity == old(capacity) && frames == old(frames)
      ensures head == if old(head) + 1 < capacity then old(head) + 1 else 0
      ensures frame == old(View()).slots[0]
      ensures View() == BufferView(old(View()).slots[1..] + [None], Some(old(origin).value + 1))
    {
      WrapMod(head + 0, capacity);
      WrapMod(head + 1, capacity);
      RotateStep(frames[..], head, None);
      frame := frames[head];
      frames[head] := None;
      head := (head + 1) % capacity;
      origin := Some(origin.value + 1);
    }

    /** Internal: empties every slot, puts the head at 0 and forgets the origin. */
    method Reset()
      requires 0 < capacity == frames.Length
      modifies this, frames
      ensures Valid()
      ensures head == 0 && origin == None && capacity == old(capacity) && frames == old(frames)
      ensures View() == BufferView(Empty(capacity), None)
    {
      head := 0;
      origin := None;
      var i := 0;
      while i < capacity
        invariant 0 <= i <= capacity == frames.Length
        invariant capacity == old(capacity) && frames == old(frames) && head == 0 && origin == None
        invariant forall k :: 0 <= k < i ==> frames[k] == None
      {
        frames[i] := None;
        i := i + 1;
      }
      assert frames[..] == Empty(capacity);
      RotateHome(frames[..]);
    }

    /** Internal: moves the window into a fresh array of `newCapacity` slots,
        in logical order from index 0, with empty slots after it. */
    method Resize(newCapacity: nat)
      requires Valid()
      requires capacity <= newCapacity
      modifies this
      ensures Valid() && fresh(frames)
      ensures capacity == newCapacity && head == 0 && origin == old(origin)
      ensures View().slots == old(View().slots) + Empty(newCapacity - old(capacity))
    {
      ghost var before := View();
      var resized := new Option<JitterFrame>[newCapacity](_ => None);
      var h := head;
      var i := 0;
      while i < capacity
        invariant 0 <= i <= capacity <= newCapacity == resized.Length
        invariant unchanged(this) && unchanged(frames)
        invariant h == if head + i < capacity then head + i else head + i - capacity
        invariant forall k :: 0 <= k < i ==> resized[k] == before.slots[k]
        invariant forall k :: i <= k < newCapacity ==> resized[k] == None
      {
        WrapMod(head + i, capacity);
        WrapMod(h + 1, capacity);
        assert frames[h] == before.slots[i];
        resized[i] := frames[h];
        h := (h + 1) % capacity;
        i := i + 1;
      }
      PadKeepsCoherent(before, newCapacity - capacity);
      capacity := newCapacity;
      frames := resized;
      head := 0;
      assert frames[..] == before.slots + Empty(newCapacity - |before.slots|);
      RotateHome(frames[..]);
    }
  }

  /** One step of `remove` on the window: with `i` slots already drained,
      the slot taken next is slot `i` of the original window, and the window
      loses its front and gains a gap at its end. */
  lemma DrainStep(w: Slots, i: nat)
    requires i < |w|
    ensures (w[i..] + Empty(i))[0] == w[i]
    ensures w[..i] + [w[i]] == w[..i + 1]
    ensures (w[i..] + Empty(i))[1..] + [None] == w[i + 1..] + Empty(i + 1)
  {
    assert Empty(i) + [None] == Empty(i + 1);
  }
}
