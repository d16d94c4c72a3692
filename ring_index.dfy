/**
 * Cursor arithmetic of the ring buffer: the bitwise AND that wraps a cursor,
 * the power-of-two test on the slot count, the successor of a cursor and the
 * forward distance between the two cursors.
 */
module RingIndex {

  /** Bitwise AND of two unsigned integers, taken bit by bit from the least significant end. */
  function BitAnd(a: nat, b: nat): (r: nat)
    ensures r <= a && r <= b
  {
    if a == 0 || b == 0 then 0
    else 2 * BitAnd(a / 2, b / 2) + (if a % 2 == 1 && b % 2 == 1 then 1 else 0)
  }

  /** 1, 2, 4, 8, ... */
  predicate IsPowerOfTwo(n: nat)
  {
    n == 1 || (n > 1 && n % 2 == 0 && IsPowerOfTwo(n / 2))
  }

  /** The compile-time test the buffer puts on its slot count: `Size && (Size & (Size - 1)) == 0`. */
  predicate SizeAccepted(size: nat)
  {
    size != 0 && BitAnd(size, size - 1) == 0
  }

  lemma {:induction false} BitAndSelf(a: nat)
    ensures BitAnd(a, a) == a
  {
    if a != 0 {
      BitAndSelf(a / 2);
    }
  }

  /** The test of the static assertion accepts exactly the powers of two. */
  lemma {:induction false} SizeAcceptedIffPowerOfTwo(n: nat)
    ensures SizeAccepted(n) <==> IsPowerOfTwo(n)
  {
    if n <= 1 {
    } else if n % 2 == 1 {
      BitAndSelf(n / 2);
      assert BitAnd(n, n - 1) == 2 * BitAnd(n / 2, n / 2);
    } else {
      SizeAcceptedIffPowerOfTwo(n / 2);
      assert BitAnd(n, n - 1) == 2 * BitAnd(n / 2, n / 2 - 1);
    }
  }

  /** Dividing by two and splitting off the low bit: x % 2m is rebuilt from (x / 2) % m. */
  lemma HalveModulo(x: nat, m: nat)
    requires m > 0
    ensures x % (2 * m) == 2 * ((x / 2) % m) + x % 2
  {
    var q, r := (x / 2) / m, (x / 2) % m;
    assert x / 2 == m * q + r;
    assert (2 * m) * q == 2 * (m * q);
    assert x == (2 * m) * q + (2 * r + x % 2);
    UniqueRemainder(x, 2 * m, q, 2 * r + x % 2);
  }

  lemma ProductBelowDivisor(k: int, d: int)
    requires d > 0 && -d < d * k < d
    ensures k == 0
  {
  }

  /** Euclidean division has one remainder: x == d * q + r with 0 <= r < d fixes x % d. */
  lemma UniqueRemainder(x: int, d: int, q: int, r: int)
    requires d > 0 && 0 <= r < d && x == d * q + r
    ensures x % d == r
  {
    var q', r' := x / d, x % d;
    assert d * q' + r' == x;
    assert d * (q - q') == d * q - d * q';
    ProductBelowDivisor(q - q', d);
  }

  /** For a power of two n, masking with n - 1 is reduction modulo n. */
  lemma {:induction false} MaskIsModulo(x: nat, n: nat)
    requires IsPowerOfTwo(n)
    ensures BitAnd(x, n - 1) == x % n
  {
    if n > 1 && x != 0 {
      var m := n / 2;
      assert n == 2 * m && (n - 1) / 2 == m - 1 && (n - 1) % 2 == 1;
      MaskIsModulo(x / 2, m);
      assert BitAnd(x, n - 1) == 2 * BitAnd(x / 2, m - 1) + x % 2;
      HalveModulo(x, m);
    }
  }

  /** The successor of a cursor: `(idx + 1) & (Size - 1)`. */
  function Increment(idx: nat, size: nat): (r: nat)
    requires SizeAccepted(size)
    ensures r == (idx + 1) % size
    ensures r < size
    ensures idx < size ==> r == if idx + 1 == size then 0 else idx + 1
  {
    SizeAcceptedIffPowerOfTwo(size);
    MaskIsModulo(idx + 1, size);
    SuccessorModulo(idx, size);
    BitAnd(idx + 1, size - 1)
  }

  /** Below the slot count, reduction modulo the slot count only wraps the last cursor to 0. */
  lemma SuccessorModulo(idx: nat, size: nat)
    requires size > 0
    ensures idx < size ==> (idx + 1) % size == if idx + 1 == size then 0 else idx + 1
  {
    if idx + 1 == size {
      UniqueRemainder(idx + 1, size, 1, 0);
    } else if idx < size {
      UniqueRemainder(idx + 1, size, 0, idx + 1);
    }
  }

  /** The number of slots from the read cursor forward to the write cursor, with its wrap case. */
  function Distance(head: nat, tail: nat, size: nat): (r: nat)
    requires head < size && tail < size
    ensures r == (head - tail) % size
    ensures r < size
    ensures r == 0 <==> head == tail
  {
    if head >= tail then
      UniqueRemainder(head - tail, size, 0, head - tail);
      head - tail
    else
      UniqueRemainder(head - tail, size, -1, size - (tail - head));
      size - (tail - head)
  }

  /** The slot i places forward of cursor `from`, wrapping once past the end of the array. */
  function Slot(from: nat, i: nat, size: nat): (r: nat)
    requires from < size && i < size
    ensures r == (from + i) % size
    ensures r < size
  {
    if from + i < size then
      UniqueRemainder(from + i, size, 0, from + i);
      from + i
    else
      UniqueRemainder(from + i, size, 1, from + i - size);
      from + i - size
  }

  /** Walking Distance(head, tail) slots forward from the read cursor reaches the write cursor,
      and no shorter walk does. */
  lemma SlotAtDistance(head: nat, tail: nat, size: nat, i: nat)
    requires head < size && tail < size && i < size
    ensures Slot(tail, i, size) == head <==> i == Distance(head, tail, size)
  {
  }

  /** Advancing the write cursor of a buffer that is not full adds one slot to the live range. */
  lemma DistanceAfterHeadStep(head: nat, tail: nat, size: nat)
    requires SizeAccepted(size) && head < size && tail < size
    requires Increment(head, size) != tail
    ensures Distance(Increment(head, size), tail, size) == Distance(head, tail, size) + 1
  {
  }

  /** Advancing the read cursor of a buffer that is not empty takes one slot off the live range. */
  lemma DistanceAfterTailStep(head: nat, tail: nat, size: nat)
    requires SizeAccepted(size) && head < size && tail < size
    requires head != tail
    ensures Distance(head, Increment(tail, size), size) == Distance(head, tail, size) - 1
  {
  }

  /** The buffer is full, `increment(head) == tail`, exactly when size - 1 slots are live. */
  lemma FullIffMaxDistance(head: nat, tail: nat, size: nat)
    requires SizeAccepted(size) && head < size && tail < size
    ensures Increment(head, size) == tail <==> Distance(head, tail, size) == size - 1
  {
  }
}
