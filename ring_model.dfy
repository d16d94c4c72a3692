/**
 * The ring buffer as a value: its slots, write cursor and read cursor, the
 * FIFO queue those denote, and push and pop as functions of the state. A
 * bounded FIFO queue serves as the reference the ring is proved against,
 * over any sequence of operations and so across any number of wraps.
 */
module RingModel {
  import opened Wrappers
  import opened RingIndex

  /** Slot contents (`buffer_`), write cursor (`head_`) and read cursor (`tail_`). */
  datatype Ring<T> = Ring(buffer: seq<T>, head: nat, tail: nat)

  /** The slot count passes the power-of-two test and both cursors lie in [0, Size). */
  predicate Valid<T>(r: Ring<T>)
  {
    SizeAccepted(|r.buffer|) && r.head < |r.buffer| && r.tail < |r.buffer|
  }

  /** One slot is always kept free, so Size - 1 items fit. */
  function Capacity<T>(r: Ring<T>): nat
    requires Valid(r)
  {
    |r.buffer| - 1
  }

  /** The queue the ring holds: the slots from the read cursor up to, not including, the write cursor. */
  function Contents<T>(r: Ring<T>): (q: seq<T>)
    requires Valid(r)
    ensures |q| == Distance(r.head, r.tail, |r.buffer|) <= Capacity(r)
    ensures forall i :: 0 <= i < |q| ==> q[i] == r.buffer[Slot(r.tail, i, |r.buffer|)]
    decreases Distance(r.head, r.tail, |r.buffer|)
  {
    if r.head == r.tail then []
    else
      DistanceAfterTailStep(r.head, r.tail, |r.buffer|);
      [r.buffer[r.tail]] + Contents(r.(tail := Increment(r.tail, |r.buffer|)))
  }

  /** `push`: refused when the successor of the write cursor is the read cursor; otherwise
      the item goes into the slot under the write cursor and the write cursor advances. */
  function Push<T>(r: Ring<T>, item: T): (res: (Ring<T>, bool))
    requires Valid(r)
    ensures Valid(res.0) && |res.0.buffer| == |r.buffer|
  {
    var next := Increment(r.head, |r.buffer|);
    if next == r.tail then (r, false)
    else (r.(buffer := r.buffer[r.head := item], head := next), true)
  }

  /** `pop`: nothing when the cursors are equal; otherwise the slot under the read cursor,
      and the read cursor advances. */
  function Pop<T>(r: Ring<T>): (res: (Ring<T>, Option<T>))
    requires Valid(r)
    ensures Valid(res.0) && |res.0.buffer| == |r.buffer|
  {
    if r.tail == r.head then (r, None)
    else (r.(tail := Increment(r.tail, |r.buffer|)), Some(r.buffer[r.tail]))
  }

  /** A freshly built ring, both cursors at slot 0, holds nothing whatever its slots hold. */
  lemma InitialRingEmpty<T>(buffer: seq<T>)
    requires SizeAccepted(|buffer|)
    ensures Valid(Ring(buffer, 0, 0)) && Contents(Ring(buffer, 0, 0)) == []
  {
  }

  /** Push succeeds exactly when fewer than Capacity items are held, and then appends the
      item at the back of the queue; a refused push leaves the ring as it was. */
  lemma PushAppends<T>(r: Ring<T>, item: T)
    requires Valid(r)
    ensures Push(r, item).1 <==> |Contents(r)| < Capacity(r)
    ensures Push(r, item).1 ==> Contents(Push(r, item).0) == Contents(r) + [item]
    ensures !Push(r, item).1 ==> Push(r, item).0 == r
  {
    var n := |r.buffer|;
    FullIffMaxDistance(r.head, r.tail, n);
    var (r', ok) := Push(r, item);
    if ok {
      var d := Distance(r.head, r.tail, n);
      DistanceAfterHeadStep(r.head, r.tail, n);
      var q, q' := Contents(r), Contents(r');
      assert |q'| == d + 1;
      forall i | 0 <= i < d + 1
        ensures q'[i] == (q + [item])[i]
      {
        SlotAtDistance(r.head, r.tail, n, i);
      }
    }
  }

  /** Pop fails exactly on the empty queue and leaves the ring as it was; otherwise it
      returns the front of the queue and the rest remains, in order. */
  lemma PopTakesFront<T>(r: Ring<T>)
    requires Valid(r)
    ensures Pop(r).1.None? <==> Contents(r) == []
    ensures Pop(r).1.None? ==> Pop(r).0 == r
    ensures Pop(r).1.Some? ==> Pop(r).1.value == Contents(r)[0] && Contents(Pop(r).0) == Contents(r)[1..]
  {
  }

  /** What lingers in a slot outside the live range does not matter: two rings with the same
      cursors whose slots agree on the live range hold the same queue. */
  lemma ContentsIgnoresDeadSlots<T>(r: Ring<T>, other: seq<T>)
    requires Valid(r) && |other| == |r.buffer|
    requires forall i :: 0 <= i < |Contents(r)| ==>
      other[Slot(r.tail, i, |other|)] == r.buffer[Slot(r.tail, i, |other|)]
    ensures Contents(r.(buffer := other)) == Contents(r)
  {
    var q, q' := Contents(r), Contents(r.(buffer := other));
    assert |q'| == |q|;
    forall i | 0 <= i < |q|
      ensures q'[i] == q[i]
    {
    }
  }

  /** The operations a client issues and the answers it receives. */
  datatype Op<T> = PushOp(item: T) | PopOp
  datatype Reply<T> = Pushed(ok: bool) | Popped(value: Option<T>)

  /** Reference behaviour: a FIFO queue that holds at most `cap` items. */
  function QueueStep<T>(q: seq<T>, cap: nat, op: Op<T>): (seq<T>, Reply<T>)
  {
    match op
    case PushOp(x) => if |q| < cap then (q + [x], Pushed(true)) else (q, Pushed(false))
    case PopOp => if q == [] then (q, Popped(None)) else (q[1..], Popped(Some(q[0])))
  }

  function QueueRun<T>(q: seq<T>, cap: nat, ops: seq<Op<T>>): seq<Reply<T>>
    decreases |ops|
  {
    if ops == [] then []
    else
      var (q', reply) := QueueStep(q, cap, ops[0]);
      [reply] + QueueRun(q', cap, ops[1..])
  }

  /** One operation on the ring. */
  function Step<T>(r: Ring<T>, op: Op<T>): (res: (Ring<T>, Reply<T>))
    requires Valid(r)
    ensures Valid(res.0) && |res.0.buffer| == |r.buffer|
  {
    match op
    case PushOp(x) => var (r', ok) := Push(r, x); (r', Pushed(ok))
    case PopOp => var (r', v) := Pop(r); (r', Popped(v))
  }

  /** The answers a ring gives to a sequence of operations. */
  function Run<T>(r: Ring<T>, ops: seq<Op<T>>): seq<Reply<T>>
    requires Valid(r)
    decreases |ops|
  {
    if ops == [] then []
    else
      var (r', reply) := Step(r, ops[0]);
      [reply] + Run(r', ops[1..])
  }

  /** One ring operation answers as the bounded queue does and moves the held queue as it does. */
  lemma StepRefinesQueue<T>(r: Ring<T>, op: Op<T>)
    requires Valid(r)
    ensures Step(r, op).1 == QueueStep(Contents(r), Capacity(r), op).1
    ensures Contents(Step(r, op).0) == QueueStep(Contents(r), Capacity(r), op).0
  {
    match op
    case PushOp(x) => PushAppends(r, x);
    case PopOp => PopTakesFront(r);
  }

  /** From any state, a ring of Size slots answers every sequence of operations exactly as a
      FIFO queue of capacity Size - 1 holding the same items. */
  lemma {:induction false} RunRefinesQueue<T>(r: Ring<T>, ops: seq<Op<T>>)
    requires Valid(r)
    ensures Run(r, ops) == QueueRun(Contents(r), Capacity(r), ops)
    decreases |ops|
  {
    if ops != [] {
      StepRefinesQueue(r, ops[0]);
      var r' := Step(r, ops[0]).0;
      assert Capacity(r') == Capacity(r);
      RunRefinesQueue(r', ops[1..]);
    }
  }

  function PushAll<T>(xs: seq<T>): (ops: seq<Op<T>>)
    ensures |ops| == |xs|
  {
    if xs == [] then [] else [PushOp(xs[0])] + PushAll(xs[1..])
  }

  function PopTimes<T>(k: nat): (ops: seq<Op<T>>)
    ensures |ops| == k
  {
    if k == 0 then [] else [PopOp] + PopTimes(k - 1)
  }

  function Accepted<T>(k: nat): (rs: seq<Reply<T>>)
    ensures |rs| == k
  {
    if k == 0 then [] else [Pushed(true)] + Accepted(k - 1)
  }

  function Delivered<T>(xs: seq<T>): (rs: seq<Reply<T>>)
    ensures |rs| == |xs|
  {
    if xs == [] then [] else [Popped(Some(xs[0]))] + Delivered(xs[1..])
  }

  lemma {:induction false} QueueAcceptsWhileRoom<T>(q: seq<T>, cap: nat, xs: seq<T>, rest: seq<Op<T>>)
    requires |q| + |xs| <= cap
    ensures QueueRun(q, cap, PushAll(xs) + rest) == Accepted(|xs|) + QueueRun(q + xs, cap, rest)
    decreases |xs|
  {
    if xs != [] {
      var ops := PushAll(xs) + rest;
      assert ops[0] == PushOp(xs[0]) && ops[1..] == PushAll(xs[1..]) + rest;
      assert QueueRun(q, cap, ops) == [Pushed(true)] + QueueRun(q + [xs[0]], cap, ops[1..]);
      QueueAcceptsWhileRoom(q + [xs[0]], cap, xs[1..], rest);
      assert q + [xs[0]] + xs[1..] == q + xs;
      assert Accepted<T>(|xs|) == [Pushed(true)] + Accepted<T>(|xs[1..]|);
    } else {
      assert PushAll(xs) + rest == rest && q + xs == q;
    }
  }

  lemma {:induction false} QueueDrainsInOrder<T>(q: seq<T>, cap: nat)
    ensures QueueRun(q, cap, PopTimes(|q|)) == Delivered(q)
    decreases |q|
  {
    if q != [] {
      QueueDrainsInOrder(q[1..], cap);
    }
  }

  /** FIFO across wraps: items pushed into an empty ring, starting at any cursor position,
      are all accepted while they fit and come back out in the order they went in. */
  lemma FifoRoundTrip<T>(r: Ring<T>, xs: seq<T>)
    requires Valid(r) && Contents(r) == [] && |xs| <= Capacity(r)
    ensures Run(r, PushAll(xs) + PopTimes(|xs|)) == Accepted(|xs|) + Delivered(xs)
  {
    RunRefinesQueue(r, PushAll(xs) + PopTimes(|xs|));
    QueueAcceptsWhileRoom([], Capacity(r), xs, PopTimes(|xs|));
    assert [] + xs == xs;
    QueueDrainsInOrder(xs, Capacity(r));
  }
}
