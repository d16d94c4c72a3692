# HPRingBuffer in Dafny

A model of `HPRingBuffer<T, Size>`, a fixed-capacity circular buffer that hands values from producers to consumers without blocking. The buffer owns an array of `Size` slots, a write cursor `head_` and a read cursor `tail_`. Both cursors advance with `(idx + 1) & (Size - 1)`, which wraps correctly only because `Size` is a power of two (a `static_assert` demands it). One slot is always kept free. The buffer is empty exactly when `head_ == tail_` and full exactly when `increment(head_) == tail_`, so at most `Size - 1` items fit.

The project has four modules:

- `Wrappers` (`wrappers.dfy`): `Option`, the counterpart of `std::optional<T>`.
- `RingIndex` (`ring_index.dfy`): the cursor arithmetic, as pure functions. It holds bitwise AND on naturals, the power-of-two test of the `static_assert`, `increment`, and the forward distance that `size()` computes. It proves that the mask reduces modulo `Size`, and that the assertion's test accepts exactly the powers of two.
- `RingModel` (`ring_model.dfy`): the buffer's state as a value `Ring(buffer, head, tail)`. `Contents` is the queue the state denotes: the slots from the read cursor forward to the write cursor. `Push` and `Pop` are functions of the state. A bounded FIFO queue is the reference. `RunRefinesQueue` proves that, from any state, a ring of `Size` slots gives the same answers as a FIFO queue of capacity `Size - 1` for every sequence of pushes and pops. That is FIFO order across any number of wraps, with nothing lost, duplicated or made up.
- `RingBuffer` (`hp_ring_buffer.dfy`): the class `HPRingBuffer` with an `array<T>` and two mutable cursors. `Push` and `Pop` update them in place. Each method's new state is tied to the `RingModel` function, and its effect on the held queue is stated directly. The observers `Empty`, `Full`, `Len` and `Capacity` are functions over the cursors.

`Size` is a template parameter in the source. Here it is the constructor's argument, and the constructor requires the `static_assert`'s test. Each operation is modelled as one atomic sequential step.

## Model

| member | source | states |
|---|---|---|
| RingIndex.BitAnd | HPRingBuffer.hpp:90 | the bitwise AND of two unsigned values is never larger than either operand |
| RingIndex.SizeAcceptedIffPowerOfTwo | HPRingBuffer.hpp:17 | the `static_assert` test `Size && (Size & (Size - 1)) == 0` holds exactly when Size is a power of two |
| RingIndex.MaskIsModulo | HPRingBuffer.hpp:89-91 | for a power of two n, masking any value with n - 1 equals reducing it modulo n |
| RingIndex.Increment | HPRingBuffer.hpp:89-91 | `increment(idx)` is `(idx + 1) % Size` and lies in [0, Size); below Size only the last index wraps, to 0 |
| RingIndex.Distance | HPRingBuffer.hpp:72-76 | the two-branch length formula, wrap case included, is the forward distance `(head - tail) mod Size`; it is below Size and zero exactly when the cursors are equal |
| RingIndex.DistanceAfterHeadStep | HPRingBuffer.hpp:26-32 | advancing the write cursor of a buffer that is not full adds exactly one live slot |
| RingIndex.DistanceAfterTailStep | HPRingBuffer.hpp:53-59 | advancing the read cursor of a buffer that is not empty removes exactly one live slot |
| RingIndex.FullIffMaxDistance | HPRingBuffer.hpp:67-70 | `increment(head) == tail` holds exactly when Size - 1 slots are live |
| RingModel.Contents | HPRingBuffer.hpp:83-85 | the held queue has length equal to the cursor distance, at most Size - 1, and its i-th item sits in slot `(tail + i) % Size` |
| RingModel.Push | HPRingBuffer.hpp:22-48 | a push, accepted or refused, keeps both cursors in [0, Size) and the slot count unchanged |
| RingModel.Pop | HPRingBuffer.hpp:50-61 | a pop, successful or not, keeps both cursors in [0, Size) and the slot count unchanged |
| RingModel.InitialRingEmpty | HPRingBuffer.hpp:20 | with both cursors at 0 the state is valid and holds nothing, whatever the slots contain |
| RingModel.PushAppends | HPRingBuffer.hpp:22-48 | push succeeds exactly when fewer than Size - 1 items are held; on success the item joins the back of the queue; on failure the state is unchanged |
| RingModel.PopTakesFront | HPRingBuffer.hpp:50-61 | pop fails exactly on the empty queue and then changes nothing; otherwise it returns the front item and the rest of the queue remains in order |
| RingModel.ContentsIgnoresDeadSlots | HPRingBuffer.hpp:58 | what lingers in a slot outside the live range, such as a moved-from value, does not affect the held queue |
| RingModel.Step | HPRingBuffer.hpp:22-61 | one push or pop keeps the state valid |
| RingModel.StepRefinesQueue | HPRingBuffer.hpp:22-61 | one push or pop gives the same answer as a bounded FIFO queue of capacity Size - 1, and leaves the same queue |
| RingModel.RunRefinesQueue | HPRingBuffer.hpp:22-61 | from any state, every sequence of pushes and pops gives the same answers as the bounded FIFO queue |
| RingModel.FifoRoundTrip | HPRingBuffer.hpp:22-61 | from an empty buffer with its cursors anywhere, up to Size - 1 pushed items are all accepted and then pop out in the order they went in |
| RingBuffer.HPRingBuffer.constructor | HPRingBuffer.hpp:20 | a new buffer has both cursors at 0, is empty and has length 0; only a slot count that passes the power-of-two test is accepted |
| RingBuffer.HPRingBuffer.Empty | HPRingBuffer.hpp:63-65 | `empty()` holds exactly when the length is 0, the queue is empty, and a pop would fail |
| RingBuffer.HPRingBuffer.Full | HPRingBuffer.hpp:67-70 | `full()` holds exactly when the length equals `capacity()`, that is Size - 1 |
| RingBuffer.HPRingBuffer.Len | HPRingBuffer.hpp:72-79 | `size()` is the length of the held queue, at most `capacity()`, and equals `(head - tail) mod Size` |
| RingBuffer.HPRingBuffer.Push | HPRingBuffer.hpp:22-48 | returns false exactly when the buffer was full, and then no slot and no cursor changes; on success only the slot under the old write cursor changes, it holds the item, `head_` becomes `increment(old head)`, `tail_` is unchanged, and the item is appended to the queue |
| RingBuffer.HPRingBuffer.Pop | HPRingBuffer.hpp:50-61 | returns nothing exactly when the buffer was empty, and then nothing changes; otherwise it returns the value in the slot under the old read cursor, which is the front of the queue; `tail_` becomes `increment(old tail)`, `head_` and the slots are unchanged, and the queue loses its first item |
| RingBuffer.FourSlotScenario | HPRingBuffer.hpp:22-61 | with 4 slots: A, B and C are accepted and D is refused; after A is popped D is accepted; then B, C and D pop in order and a further pop finds the buffer empty |

## Left out

- The mutexes `mutexPush_` and `mutexPop_`, the `std::lock_guard`s and the relaxed, acquire and release orderings of the atomic cursors. They only matter for cross-thread visibility. Each operation is one atomic sequential step, so the observers are exact rather than advisory snapshots.
- The copy and move overloads of `push` are one `Push(item)`. Their logic is identical and Dafny values have no moved-from state.
- `pop` moves the value out of its slot. The model leaves the value in the slot. `ContentsIgnoresDeadSlots` shows that a slot outside the live range does not affect the held queue.
- The width of `std::size_t` is not modelled; cursors are unbounded naturals. Every intermediate value (`idx + 1` with `idx < Size`, `h - t`, `Size - (t - h)`) is at most `Size`, so no wrap-around can happen in the source either.
- `Size` is a compile-time template parameter in the source. Here it is a constructor argument guarded by the same test as the `static_assert`.
- `RingBuffer.HPRingBuffer.Capacity` has no contract of its own: it is `Size - 1`, and `Len` and `Full` state how it relates to the state.
- Destroying the buffer with items still inside is not modelled; Dafny has no destructors.
- main.cpp is not part of this model. It is a benchmark with two threads, busy-wait retry loops, wall-clock timing and console output.
