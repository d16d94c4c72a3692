/**
 * The circular buffer itself: a fixed array of Size slots and two cursors,
 * updated in place. Each operation is one atomic sequential step; its new
 * state is tied to the value model in RingModel, and what it does to the
 * queue the buffer holds is stated outright.
 */
module RingBuffer {
  import opened Wrappers
  import opened RingIndex
  import RingModel

  class HPRingBuffer<T(0)> {
    /** The slot count, the template parameter of the source. */
    const Size: nat
    /** The slot array `buffer_`; the array itself never changes, only its slots. */
    const buffer: array<T>
    /** The write cursor `head_`: the next slot a push fills. */
    var head: nat
    /** The read cursor `tail_`: the next slot a pop empties. */
    var tail: nat

    /** The buffer's state as a value. */
    ghost function State(): RingModel.Ring<T>
      reads this, buffer
    {
      RingModel.Ring(buffer[..], head, tail)
    }

    ghost predicate Valid()
      reads this, buffer
    {
      buffer.Length == Size && RingModel.Valid(State())
    }

    /** The items held, oldest first. */
    ghost function Contents(): seq<T>
      reads this, buffer
      requires Valid()
    {
      RingModel.Contents(State())
    }

    /** A new buffer: both cursors at slot 0, nothing held. Only slot counts that pass the
        power-of-two test can be built. */
    constructor (size: nat)
      requires SizeAccepted(size)
      ensures Valid() && fresh(buffer)
      ensures Size == size && head == 0 && tail == 0
      ensures Contents() == [] && Empty() && Len() == 0
    {
      Size := size;
      buffer := new T[size];
      head, tail := 0, 0;
    }

    /** Usable capacity: one slot is kept free to tell a full buffer from an empty one. */
    function Capacity(): nat
      requires Size > 0
    {
      Size - 1
    }

    /** `empty()`: the cursors are equal. */
    function Empty(): (r: bool)
      reads this, buffer
      requires Valid()
      ensures r <==> Len() == 0
      ensures r <==> Contents() == []
      ensures r <==> RingModel.Pop(State()).1.None?
    {
      RingModel.PopTakesFront(State());
      head == tail
    }

    /** `full()`: the successor of the write cursor is the read cursor. */
    function Full(): (r: bool)
      reads this, buffer
      requires Valid()
      ensures r <==> Len() == Capacity()
      ensures r <==> |Contents()| == Capacity()
    {
      FullIffMaxDistance(head, tail, Size);
      Increment(head, Size) == tail
    }

    /** `size()`: the forward distance from the read cursor to the write cursor. */
    function Len(): (r: nat)
      reads this, buffer
      requires Valid()
      ensures r == |Contents()|
      ensures r <= Capacity()
      ensures r == (head - tail) % Size
    {
      Distance(head, tail, Size)
    }

    /** `push`: refused when full, leaving every slot and cursor as they were; otherwise the
        item is written under the write cursor, which advances, and joins the back of the queue. */
    method Push(item: T) returns (ok: bool)
      requires Valid()
      modifies this`head, buffer
      ensures Valid()
      ensures (State(), ok) == RingModel.Push(old(State()), item)
      ensures ok <==> !old(Full())
      ensures ok ==> buffer[..] == old(buffer[..])[old(head) := item]
      ensures ok ==> head == Increment(old(head), Size)
      ensures !ok ==> buffer[..] == old(buffer[..]) && head == old(head)
      ensures Contents() == if ok then old(Contents()) + [item] else old(Contents())
    {
      RingModel.PushAppends(State(), item);
      var next := Increment(head, Size);
      if next == tail {
        return false;
      }
      buffer[head] := item;
      head := next;
      ok := true;
    }

    /** `pop`: nothing when empty, leaving the buffer as it was; otherwise the value under the
        read cursor, which is the front of the queue, and the read cursor advances. */
    method Pop() returns (value: Option<T>)
      requires Valid()
      modifies this`tail
      ensures Valid()
      ensures (State(), value) == RingModel.Pop(old(State()))
      ensures value.None? <==> old(Empty())
      ensures value.None? ==> tail == old(tail)
      ensures value.Some? ==> value.value == buffer[old(tail)] && tail == Increment(old(tail), Size)
      ensures value.Some? ==> value.value == old(Contents())[0] && Contents() == old(Contents())[1..]
    {
      RingModel.PopTakesFront(State());
      if tail == head {
        return None;
      }
      value := Some(buffer[tail]);
      tail := Increment(tail, Size);
    }
  }

  /** A buffer of 4 slots holds 3 items: A, B, C go in, D is refused; once A is out, D
      goes in, and B, C, D come out in order before the buffer reports empty. */
  method FourSlotScenario<T(0)>(a: T, b: T, c: T, d: T) returns (pushed: seq<bool>, popped: seq<Option<T>>)
    ensures pushed == [true, true, true, false, true]
    ensures popped == [Some(a), Some(b), Some(c), Some(d), None]
  {
    assert BitAnd(4, 3) == 2 * BitAnd(2, 1) && BitAnd(2, 1) == 2 * BitAnd(1, 0);
    var rb := new HPRingBuffer<T>(4);
    var ok1 := rb.Push(a);
    var ok2 := rb.Push(b);
    var ok3 := rb.Push(c);
    var ok4 := rb.Push(d);
    var v1 := rb.Pop();
    var ok5 := rb.Push(d);
    var v2 := rb.Pop();
    var v3 := rb.Pop();
    var v4 := rb.Pop();
    var v5 := rb.Pop();
    pushed := [ok1, ok2, ok3, ok4, ok5];
    popped := [v1, v2, v3, v4, v5];
  }
}
