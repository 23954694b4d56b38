/** The jitter buffer's behaviour stated on its logical view: the slots in
    window order (slot `d` is the place of sequence number `origin + d`) and
    the origin. The class in module JitterBuffers keeps this view in a ring
    array and is proved to change it exactly as the functions here say. */
module JitterPolicy {
  import opened Wrappers
  import opened Frames

  /** A frame at least this far behind the origin means the stream restarted. */
  const MAX_MISORDER: int := 100
  /** A frame more than this far ahead, when it does not fit, restarts the window. */
  const MAX_DROPOUT: int := 3000
  /** The buffer stops doubling once its capacity reaches this many slots. */
  const MAX_CAPACITY: nat := 256

  type Slots = seq<Option<JitterFrame>>

  /** The buffer in window order: `|slots|` is the capacity, and `origin` is the
      sequence number of slot 0 (absent before the first frame). */
  datatype BufferView = BufferView(slots: Slots, origin: Option<int>)

  function Empty(n: nat): (r: Slots)
    ensures |r| == n
  {
    seq(n, _ => None)
  }

  /** The representation invariant: without an origin every slot is empty;
      with one, a frame in slot `d` carries sequence number `origin + d`. */
  ghost predicate Coherent(v: BufferView) {
    && 0 < |v.slots|
    && (v.origin.None? ==> v.slots == Empty(|v.slots|))
    && (v.origin.Some? ==>
          forall d :: 0 <= d < |v.slots| && v.slots[d].Some? ==>
            v.slots[d].value.sequenceNumber == v.origin.value + d)
  }

  /** Empty slots appended behind the window keep the invariant; this is what
      a resize does to the window. */
  lemma PadKeepsCoherent(v: BufferView, k: nat)
    requires Coherent(v)
    ensures Coherent(BufferView(v.slots + Empty(k), v.origin))
  {
  }

  /** A fixed buffer no longer grows. */
  predicate IsFixed(capacity: nat) {
    capacity >= MAX_CAPACITY
  }

  /** Whether a frame `delta` places past the origin may double the buffer:
      `delta < 1.5 * capacity`, written without floating point. */
  predicate CanGrow(capacity: nat, delta: int) {
    !IsFixed(capacity) && 2 * delta < 3 * capacity
  }

  /** What `add` does with a frame. */
  datatype Decision =
    | Anchor          // first frame: it becomes the origin
    | Restart         // clear the window and re-anchor on this frame
    | Drop            // leave everything as it is
    | Store(delta: nat)  // place at offset `delta` of the current window
    | Grow(delta: nat)   // double the capacity, then place at offset `delta`

  /** The threshold policy of `add`, checked in the order aiortc's `add` checks it. */
  function Decide(origin: Option<int>, capacity: nat, sequenceNumber: int): (r: Decision)
    requires 0 < capacity
    ensures r.Anchor? <==> origin.None?
    ensures r.Store? ==> origin.Some? && r.delta == sequenceNumber - origin.value < capacity
    ensures r.Grow? ==>
              && origin.Some? && r.delta == sequenceNumber - origin.value
              && capacity <= r.delta < 2 * capacity && !IsFixed(capacity)
  {
    if origin.None? then Anchor
    else if sequenceNumber <= origin.value - MAX_MISORDER then Restart
    else if sequenceNumber < origin.value then Drop
    else
      var delta := sequenceNumber - origin.value;
      if delta < capacity then Store(delta)
      else if CanGrow(capacity, delta) then Grow(delta)
      else if delta > MAX_DROPOUT then Restart
      else Drop
  }

  /** The view after `add` of frame `f`. */
  function Add(v: BufferView, f: JitterFrame): (r: BufferView)
    requires 0 < |v.slots|
    ensures r.origin.Some?
    ensures |r.slots| == |v.slots| || (|r.slots| == 2 * |v.slots| && !IsFixed(|v.slots|))
  {
    match Decide(v.origin, |v.slots|, f.sequenceNumber)
    case Anchor => BufferView(v.slots[0 := Some(f)], Some(f.sequenceNumber))
    case Restart => BufferView(Empty(|v.slots|)[0 := Some(f)], Some(f.sequenceNumber))
    case Drop => v
    case Store(delta) => BufferView(v.slots[delta := Some(f)], v.origin)
    case Grow(delta) => BufferView((v.slots + Empty(|v.slots|))[delta := Some(f)], v.origin)
  }

  /** The two cases in which `add` silently discards a frame: it is late but
      not far enough behind to restart, or it is too far ahead to place and
      not far enough ahead to restart. */
  predicate Drops(v: BufferView, sequenceNumber: int) {
    && v.origin.Some?
    && var delta := sequenceNumber - v.origin.value;
       || v.origin.value - MAX_MISORDER < sequenceNumber < v.origin.value
       || (|v.slots| <= delta && !CanGrow(|v.slots|, delta) && delta <= MAX_DROPOUT)
  }

  /** A dropped frame leaves the view exactly as it was. */
  lemma AddDropsSilently(v: BufferView, f: JitterFrame)
    requires 0 < |v.slots| && Drops(v, f.sequenceNumber)
    ensures Add(v, f) == v
  {
  }

  /** Every frame that is not dropped can be found afterwards at its own
      place in the window, whatever else happened to the window. */
  lemma AddedFrameIsFound(v: BufferView, f: JitterFrame)
    requires 0 < |v.slots| && !Drops(v, f.sequenceNumber)
    ensures var r := Add(v, f);
            && r.origin.Some?
            && 0 <= f.sequenceNumber - r.origin.value < |r.slots|
            && r.slots[f.sequenceNumber - r.origin.value] == Some(f)
  {
  }

  /** Every `add` keeps the representation invariant. */
  lemma AddKeepsCoherent(v: BufferView, f: JitterFrame)
    requires Coherent(v)
    ensures Coherent(Add(v, f))
  {
  }

  /** A frame inside the window overwrites its own slot (a duplicate replaces
      the earlier copy) and changes nothing else. */
  lemma AddStoresInWindow(v: BufferView, f: JitterFrame)
    requires v.origin.Some?
    requires v.origin.value <= f.sequenceNumber < v.origin.value + |v.slots|
    ensures Add(v, f) == BufferView(v.slots[f.sequenceNumber - v.origin.value := Some(f)], v.origin)
  {
  }

  /** The first frame into an empty buffer becomes the origin, in slot 0 of
      an otherwise empty window of the same capacity. */
  lemma AddAnchors(v: BufferView, f: JitterFrame)
    requires Coherent(v) && v.origin.None?
    ensures Add(v, f) == BufferView(Empty(|v.slots|)[0 := Some(f)], Some(f.sequenceNumber))
  {
  }

  /** A frame at least MAX_MISORDER behind the origin restarts the window on it. */
  lemma AddRestartsOnRegression(v: BufferView, f: JitterFrame)
    requires 0 < |v.slots| && v.origin.Some?
    requires f.sequenceNumber <= v.origin.value - MAX_MISORDER
    ensures var r := Add(v, f);
            && r.origin == Some(f.sequenceNumber)
            && |r.slots| == |v.slots|
            && r.slots[0] == Some(f)
            && forall d :: 0 < d < |r.slots| ==> r.slots[d] == None
  {
  }

  /** A frame beyond the window that the buffer may not grow for, and that is
      more than MAX_DROPOUT ahead, restarts the window on it. */
  lemma AddRestartsOnDropout(v: BufferView, f: JitterFrame)
    requires 0 < |v.slots| && v.origin.Some?
    requires var delta := f.sequenceNumber - v.origin.value;
             |v.slots| <= delta && !CanGrow(|v.slots|, delta) && delta > MAX_DROPOUT
    ensures var r := Add(v, f);
            && r.origin == Some(f.sequenceNumber)
            && |r.slots| == |v.slots|
            && r.slots[0] == Some(f)
            && forall d :: 0 < d < |r.slots| ==> r.slots[d] == None
  {
  }

  /** A frame just beyond a buffer that is not yet fixed doubles the buffer:
      the old window is kept in front, the new half is empty except for the
      new frame. */
  lemma AddGrows(v: BufferView, f: JitterFrame)
    requires 0 < |v.slots| && v.origin.Some?
    requires var delta := f.sequenceNumber - v.origin.value;
             |v.slots| <= delta && |v.slots| < MAX_CAPACITY && 2 * delta < 3 * |v.slots|
    ensures var r := Add(v, f);
            var delta := f.sequenceNumber - v.origin.value;
            && |r.slots| == 2 * |v.slots|
            && r.origin == v.origin
            && r.slots[..|v.slots|] == v.slots
            && delta < |r.slots| && r.slots[delta] == Some(f)
            && forall d :: |v.slots| <= d < |r.slots| && d != delta ==> r.slots[d] == None
  {
  }

  // Capacity growth

  predicate IsPowerOfTwo(n: nat)
    decreases n
  {
    n == 1 || (2 <= n && n % 2 == 0 && IsPowerOfTwo(n / 2))
  }

  /** Below another power of two, a power of two can double without passing it. */
  lemma {:induction false} DoublingStaysWithin(c: nat, b: nat)
    requires IsPowerOfTwo(c) && IsPowerOfTwo(b) && c < b
    ensures 2 * c <= b
    decreases c
  {
    if c != 1 {
      DoublingStaysWithin(c / 2, b / 2);
    }
  }

  /** A buffer whose capacity is a power of two no larger than MAX_CAPACITY
      keeps it that way through any `add`. */
  lemma AddKeepsCapacityBound(v: BufferView, f: JitterFrame)
    requires 0 < |v.slots| && IsPowerOfTwo(|v.slots|) && |v.slots| <= MAX_CAPACITY
    ensures IsPowerOfTwo(|Add(v, f).slots|) && |Add(v, f).slots| <= MAX_CAPACITY
  {
    var c := |v.slots|;
    if |Add(v, f).slots| != c {
      assert IsPowerOfTwo(MAX_CAPACITY) by {
        assert IsPowerOfTwo(2) && IsPowerOfTwo(4) && IsPowerOfTwo(8) && IsPowerOfTwo(16);
        assert IsPowerOfTwo(32) && IsPowerOfTwo(64) && IsPowerOfTwo(128);
      }
      DoublingStaysWithin(c, MAX_CAPACITY);
      assert (2 * c) / 2 == c;
    }
  }

  /** Without the power-of-two start the cap does not hold: a buffer of 200
      slots is not fixed and doubles to 400. */
  lemma CapacityCanPassCap(f: JitterFrame)
    requires f.sequenceNumber == 250
    ensures |Add(BufferView(Empty(200), Some(0)), f).slots| == 400
  {
  }

  /** The view after adding the frames `fs` one after another. */
  function AddAll(v: BufferView, fs: seq<JitterFrame>): (r: BufferView)
    requires 0 < |v.slots|
    ensures |v.slots| <= |r.slots|
    ensures IsFixed(|v.slots|) ==> |r.slots| == |v.slots|
    decreases |fs|
  {
    if fs == [] then v else AddAll(Add(v, fs[0]), fs[1..])
  }

  /** The converse of AddAllKeepsCapacityBound: from any capacity that is not
      a power of two within MAX_CAPACITY, some sequence of adds takes the
      capacity past MAX_CAPACITY. Re-anchoring at the origin and then adding
      a frame exactly one capacity ahead doubles the buffer each time. */
  lemma {:induction false} PassesCap(v: BufferView) returns (fs: seq<JitterFrame>)
    requires 0 < |v.slots| && !(IsPowerOfTwo(|v.slots|) && |v.slots| <= MAX_CAPACITY)
    ensures MAX_CAPACITY < |AddAll(v, fs).slots|
    decreases MAX_CAPACITY - |v.slots|
  {
    var c := |v.slots|;
    if MAX_CAPACITY < c {
      fs := [];
      return;
    }
    assert c < MAX_CAPACITY by {
      assert IsPowerOfTwo(2) && IsPowerOfTwo(4) && IsPowerOfTwo(8) && IsPowerOfTwo(16);
      assert IsPowerOfTwo(32) && IsPowerOfTwo(64) && IsPowerOfTwo(128) && IsPowerOfTwo(256);
    }
    var first := JitterFrame([], if v.origin.None? then 0 else v.origin.value, 0);
    var anchored := Add(v, first);
    assert anchored.origin == Some(first.sequenceNumber) && |anchored.slots| == c;
    var next := JitterFrame([], first.sequenceNumber + c, 0);
    var grown := Add(anchored, next);
    assert |grown.slots| == 2 * c;
    assert !IsPowerOfTwo(2 * c) by {
      assert (2 * c) / 2 == c && (2 * c) % 2 == 0;
    }
    var rest := PassesCap(grown);
    fs := [first, next] + rest;
    assert fs[0] == first && fs[1..] == [next] + rest;
    assert ([next] + rest)[0] == next && ([next] + rest)[1..] == rest;
    assert AddAll(anchored, [next] + rest) == AddAll(grown, rest);
  }

  /** The representation invariant holds after any sequence of adds. */
  lemma {:induction false} AddAllKeepsCoherent(v: BufferView, fs: seq<JitterFrame>)
    requires Coherent(v)
    ensures Coherent(AddAll(v, fs))
    decreases |fs|
  {
    if fs != [] {
      AddKeepsCoherent(v, fs[0]);
      AddAllKeepsCoherent(Add(v, fs[0]), fs[1..]);
    }
  }

  /** Starting from a power-of-two capacity within the cap, no sequence of
      adds takes the capacity past MAX_CAPACITY. */
  lemma {:induction false} AddAllKeepsCapacityBound(v: BufferView, fs: seq<JitterFrame>)
    requires 0 < |v.slots| && IsPowerOfTwo(|v.slots|) && |v.slots| <= MAX_CAPACITY
    ensures IsPowerOfTwo(|AddAll(v, fs).slots|) && |AddAll(v, fs).slots| <= MAX_CAPACITY
    decreases |fs|
  {
    if fs != [] {
      AddKeepsCapacityBound(v, fs[0]);
      AddAllKeepsCapacityBound(Add(v, fs[0]), fs[1..]);
    }
  }

  // Draining

  /** The view after `remove(n)`: the first `n` slots leave, the rest move to
      the front, `n` empty slots come in at the back and the origin moves on
      by `n`. */
  function Advance(v: BufferView, n: nat): (r: BufferView)
    requires n <= |v.slots| && (0 < n ==> v.origin.Some?)
    ensures |r.slots| == |v.slots|
  {
    BufferView(v.slots[n..] + Empty(n), if n == 0 then v.origin else Some(v.origin.value + n))
  }

  /** Draining keeps the representation invariant. */
  lemma AdvanceKeepsCoherent(v: BufferView, n: nat)
    requires Coherent(v) && n <= |v.slots| && (0 < n ==> v.origin.Some?)
    ensures Coherent(Advance(v, n))
  {
  }

  /** Draining `n` and then `m` slots returns the same frames, in the same
      order, and leaves the same view as draining `n + m` at once. */
  lemma AdvanceComposes(v: BufferView, n: nat, m: nat)
    requires n + m <= |v.slots| && (0 < n + m ==> v.origin.Some?)
    ensures v.slots[..n + m] == v.slots[..n] + Advance(v, n).slots[..m]
    ensures Advance(Advance(v, n), m) == Advance(v, n + m)
  {
  }
}
