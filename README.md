# aiortc jitter buffer in Dafny

A model of the jitter buffer in aiortc's RTP receive path. The buffer collects
received frames (`JitterFrame`: payload, RTP sequence number, timestamp) in a ring
of slots keyed by sequence number, so that frames that arrive out of order can be
read back in order.

The ring has a capacity, a head index and an origin: the sequence number of the
slot at the head, absent until the first frame arrives. Slot `d` of the window
(array index `(head + d) % capacity`) is reserved for sequence number
`origin + d`. `add` applies a threshold policy to every frame. The first frame
anchors the origin. A frame at least `MAX_MISORDER` (100) behind the origin
restarts the window on it. A frame that is only a little late is dropped. A frame
inside the window is stored, overwriting any earlier copy. A frame just past the
window doubles the capacity, unless the buffer is fixed at `MAX_CAPACITY` (256)
or the frame is 1.5 capacities or more ahead. A frame that cannot be placed
restarts the window if it is more than `MAX_DROPOUT` (3000) ahead, and is dropped
otherwise. `peek` reads a slot by offset from the head. `remove` drains slots
from the head and moves the window on.

Modules:

- `Wrappers`: `Option` and `Result`.
- `Frames`: the `JitterFrame` value. Payloads are `seq<bv8>` and are only carried.
- `Rotation`: the ring read from a head index (`Rotate(s, h) == s[h..] + s[..h]`),
  with the modular arithmetic facts the ring needs.
- `JitterPolicy`: the buffer's logical view (`BufferView`: the slots in window
  order plus the origin), the representation invariant `Coherent`, the policy
  `Decide`, and the pure effects `Add` and `Advance` of `add` and `remove`. Every
  property of the policy is proved here.
- `JitterBuffers`: the `JitterBuffer` class over an `array` of slots, with the
  fields the source updates in place (`capacity`, `frames`, `head`, `origin`).
  Its ghost `View()` reads the array from `head`. The public methods `Add` and
  `Remove` are proved to keep `Valid()` (the invariant `Coherent` plus the ring's
  bounds) and to change `View()` exactly as `JitterPolicy.Add` and
  `JitterPolicy.Advance` say. The internal methods `Reset` and `Resize` ensure
  `Valid()` and state their new `View()` directly; `Place` and `TakeHead`, the
  single steps of `add` and `remove`, state their effect on `View()` under the
  ring's bounds only.
- `Scenarios`: client calls on the class whose observations are proved as
  postconditions.

The float test `delta < 1.5 * capacity` is written as `2 * delta < 3 * capacity`,
which is equivalent for integers. Python's `%` with a positive divisor agrees with
Dafny's Euclidean `%`, so `peek` with a negative offset counts back from the end
of the window in both.

Two consequences of the thresholds as the code states them:

- `fixed()` only tests `capacity >= 256`, so a 200-slot buffer is not fixed and
  doubles to 400 (`JitterPolicy.CapacityCanPassCap`). The capacity stays within
  `MAX_CAPACITY` through every sequence of adds exactly when it starts as a
  power of two no larger than 256: such a start never passes the cap
  (`JitterPolicy.AddAllKeepsCapacityBound`), and from any other start some
  sequence of adds passes it (`JitterPolicy.PassesCap`).
- A frame 50 behind a window anchored on 100 is dropped, not a restart, because
  `50 > 100 - MAX_MISORDER` (`Scenarios.LateFrameDropped`). A frame 150 behind
  restarts the window (`Scenarios.RegressionRestarts`).

## Model

| member | source | states |
|---|---|---|
| JitterBuffers.JitterBuffer.constructor | aiortc/jitterbuffer.py:17-21 | a new buffer of capacity `c` has `c` empty slots, head 0 and no origin, and satisfies the invariant |
| JitterBuffers.JitterBuffer.Capacity | aiortc/jitterbuffer.py:23-25 | the capacity is positive and is the length of the logical window |
| JitterBuffers.JitterBuffer.Fixed | aiortc/jitterbuffer.py:68-69 | true exactly when the capacity is at least MAX_CAPACITY; a fixed buffer keeps its capacity through any `add` |
| JitterBuffers.JitterBuffer.Peek | aiortc/jitterbuffer.py:52-56 | an offset at or past the capacity gives IndexError; any other offset gives logical slot `offset mod capacity`, read through the ring at `(head + offset) % capacity` |
| JitterBuffers.JitterBuffer.Add | aiortc/jitterbuffer.py:27-50 | keeps the invariant; the new view is `JitterPolicy.Add` of the old view and the frame; a dropped frame changes no field and no slot; anchoring and storing keep the head and the array; a restart puts the head at 0 in the same array; growth puts the head at 0 in a fresh array |
| JitterBuffers.JitterBuffer.Place | aiortc/jitterbuffer.py:47-50 | writing array index `(head + delta) % capacity` sets logical slot `delta` of the window and nothing else |
| JitterBuffers.JitterBuffer.Remove | aiortc/jitterbuffer.py:58-66 | keeps the invariant; returns logical slots `0..count-1` as they were; the new view is `Advance` by `count` (front slots leave, empty slots come in behind, origin moves on by `count`); head moves on by `count` mod capacity; a negative count changes nothing; capacity and array unchanged |
| JitterBuffers.JitterBuffer.TakeHead | aiortc/jitterbuffer.py:62-65 | one turn of the drain loop returns logical slot 0, empties it, and moves head (wrapping to 0) and origin on by one |
| JitterBuffers.JitterBuffer.Reset | aiortc/jitterbuffer.py:71-76 | every slot empty, head 0, no origin, same capacity and array, invariant holds |
| JitterBuffers.JitterBuffer.Resize | aiortc/jitterbuffer.py:78-86 | a fresh array of the new capacity holds the old window in logical order from index 0, followed by empty slots; head 0; origin kept; invariant kept |
| JitterBuffers.DrainStep | aiortc/jitterbuffer.py:61-65 | after `i` drained slots the next slot taken is slot `i` of the original window, and draining one more slot shifts the window by one with one more empty slot behind |
| JitterPolicy.PadKeepsCoherent | aiortc/jitterbuffer.py:78-86 | appending empty slots behind the window keeps the invariant |
| JitterPolicy.Decide | aiortc/jitterbuffer.py:28-45 | the first frame anchors and only the first; a stored frame lies inside the window at offset `seq - origin`; a growing frame lies between one and two capacities ahead of a buffer that is not fixed |
| JitterPolicy.Add | aiortc/jitterbuffer.py:27-50 | after any `add` the origin is present; the capacity is unchanged, or doubled from a buffer that was not fixed |
| JitterPolicy.AddDropsSilently | aiortc/jitterbuffer.py:33-45 | a frame less than MAX_MISORDER late, or one that does not fit, cannot grow the buffer and is at most MAX_DROPOUT ahead, leaves the view unchanged |
| JitterPolicy.AddedFrameIsFound | aiortc/jitterbuffer.py:27-50 | any frame that is not dropped sits afterwards in logical slot `seq - origin` of the new window |
| JitterPolicy.AddKeepsCoherent | aiortc/jitterbuffer.py:27-50 | every `add` keeps the invariant: no origin means all slots empty; otherwise a frame in slot `d` has sequence number `origin + d` |
| JitterPolicy.AddStoresInWindow | aiortc/jitterbuffer.py:47-50 | a frame inside the window overwrites its own slot, replacing an earlier duplicate, and changes nothing else |
| JitterPolicy.AddAnchors | aiortc/jitterbuffer.py:28-29 | the first frame into an empty buffer becomes the origin, in slot 0 of an otherwise empty window of the same capacity |
| JitterPolicy.AddRestartsOnRegression | aiortc/jitterbuffer.py:30-32 | a frame at least MAX_MISORDER behind the origin becomes the new origin in slot 0, all other slots empty, capacity unchanged |
| JitterPolicy.AddRestartsOnDropout | aiortc/jitterbuffer.py:40-43 | a frame that cannot be placed or grown for and is more than MAX_DROPOUT ahead becomes the new origin in slot 0, all other slots empty, capacity unchanged |
| JitterPolicy.AddGrows | aiortc/jitterbuffer.py:37-39 | a frame just past a buffer below MAX_CAPACITY doubles the capacity, keeps the old window in front and the origin, and leaves the new half empty except for the frame at its offset |
| JitterPolicy.DoublingStaysWithin | aiortc/jitterbuffer.py:37-39 | a power of two below another power of two can double without passing it |
| JitterPolicy.AddKeepsCapacityBound | aiortc/jitterbuffer.py:37-39 | a capacity that is a power of two no larger than MAX_CAPACITY stays so through any `add` |
| JitterPolicy.CapacityCanPassCap | aiortc/jitterbuffer.py:37-39 | a 200-slot buffer is not fixed and doubles to 400 slots, past MAX_CAPACITY |
| JitterPolicy.AddAll | aiortc/jitterbuffer.py:27-50 | a sequence of adds never shrinks the capacity and never changes the capacity of a fixed buffer |
| JitterPolicy.AddAllKeepsCoherent | aiortc/jitterbuffer.py:27-50 | the invariant holds after any sequence of adds |
| JitterPolicy.AddAllKeepsCapacityBound | aiortc/jitterbuffer.py:37-39 | from a power-of-two capacity within MAX_CAPACITY, no sequence of adds takes the capacity past MAX_CAPACITY |
| JitterPolicy.PassesCap | aiortc/jitterbuffer.py:37-39 | from any capacity that is not a power of two within MAX_CAPACITY, some sequence of adds takes the capacity past MAX_CAPACITY |
| JitterPolicy.Advance | aiortc/jitterbuffer.py:58-66 | draining keeps the capacity |
| JitterPolicy.AdvanceKeepsCoherent | aiortc/jitterbuffer.py:58-66 | draining keeps the invariant |
| JitterPolicy.AdvanceComposes | aiortc/jitterbuffer.py:58-66 | removing `n` then `m` slots returns the same slots in the same order, and leaves the same view, as removing `n + m` |
| Rotation.RotateAt | aiortc/jitterbuffer.py:55 | slot `i` of the ring read from `h` is array index `(h + i) % capacity` |
| Rotation.ModShift | aiortc/jitterbuffer.py:55 | `(head + offset) % c` equals `(head + offset % c) % c`, so a negative offset reads the slot counted back from the end of the window |
| Rotation.RotateUpdate | aiortc/jitterbuffer.py:47-48 | writing array index `(h + d) % capacity` updates slot `d` of the ring view only |
| Rotation.RotateStep | aiortc/jitterbuffer.py:62-64 | emptying the head and stepping it by one modulo the capacity drops slot 0 of the view and appends the new value at its end |
| Rotation.RotateHome | aiortc/jitterbuffer.py:84-86 | with the head at 0 the view is the array itself |
| Scenarios.FirstFrameAnchors | aiortc/jitterbuffer.py:27-56 | in a new 16-slot buffer, after adding frame 5, `peek(0)` gives that frame and `peek(1)` an empty slot |
| Scenarios.RegressionRestarts | aiortc/jitterbuffer.py:30-32 | a window anchored on 200 restarts on frame 50, which `peek(0)` then gives |
| Scenarios.LateFrameDropped | aiortc/jitterbuffer.py:33-34 | a window anchored on 100 drops frame 50 and keeps its origin and first frame |
| Scenarios.NearFrameGrows | aiortc/jitterbuffer.py:37-39 | in a 16-slot window anchored on 0, frame 20 doubles the capacity to 32 and is found at offset 20 |
| Scenarios.DropoutRestarts | aiortc/jitterbuffer.py:40-43 | in a fixed 256-slot window anchored on 0, frame 4000 restarts the window on itself at offset 0, capacity unchanged |
| Scenarios.PeekPastCapacity | aiortc/jitterbuffer.py:53-54 | `peek(16)` on a 16-slot buffer raises IndexError |
| Scenarios.DrainKeepsGaps | aiortc/jitterbuffer.py:58-66 | with frames at offsets 0 and 2, `remove(3)` returns the two frames with the gap between them, in order, and the origin moves on by 3 |

## Left out

- `aiortc/contrib/signaling.py` is not part of this model. It holds console and socket I/O, argparse wiring, and JSON wrappers around session descriptions whose code is not shown.
- `JitterFrame.__repr__` (aiortc/jitterbuffer.py:12-13) is string formatting only.
- JitterBuffers.JitterBuffer.constructor: requires a positive capacity. With capacity 0 the source builds an empty buffer: `add` silently drops every frame except one more than MAX_DROPOUT ahead of the origin, which reaches a modulo by zero; `peek` raises IndexError for a non-negative offset and divides by zero for a negative one. The model does not describe this degenerate buffer.
- JitterBuffers.JitterBuffer.Remove: requires `count <= capacity`, which the source asserts. It also requires an origin when `count > 0`, because the source raises a TypeError on `None + 1` after emptying the head slot. That failing path is not modelled.
- Sequence numbers are unbounded integers compared by plain subtraction, as in the source. There is no 16-bit wrap-around.
- The `1.5 *` float factor is modelled by the equivalent integer comparison `2 * delta < 3 * capacity`.
- Payload bytes are carried but never inspected.
- `Place` and `TakeHead` are not separate functions in the source. They are the last lines of `add` and one turn of the loop in `remove`, split out as methods so that each proof stays small.
