/**
 * The fields of a `CircularBuffer` as a value, and the buffer's operations as
 * functions on that value.  `head` and `tail` grow without bound; every slot
 * index is reduced modulo `capacity`.  The live entries are the `size` slots
 * starting at `head`, oldest first.
 */
module Rings {
  import opened Common

  /** The two messages of `CircularBufferException`. */
  datatype Fault = BufferOverflow | EmptyBuffer

  /** How a mutating operation ended: normally, or by throwing. */
  datatype Outcome = Done | Failed(fault: Fault)

  /** `slots` is the backing `long[]`; the other fields are the buffer's counters. */
  datatype Ring = Ring(slots: seq<int>, capacity: int, size: int, head: int, tail: int)

  /** The outcome of an operation together with the fields it leaves behind. */
  datatype Step = Step(outcome: Outcome, ring: Ring)

  /**
   * What holds in every state a buffer can reach, including the state an
   * overflowing `add` leaves behind.
   */
  predicate Sound(r: Ring)
  {
    r.capacity > 0 && |r.slots| == r.capacity && r.size >= 0 && r.head >= 0 && r.tail >= -1
  }

  /** The counters describe exactly `size` live entries, no more than fit. */
  predicate WellFormed(r: Ring)
  {
    Sound(r) && r.size <= r.capacity && r.tail == r.head + r.size - 1
  }

  /** The live entries, oldest first. */
  function Contents(r: Ring): seq<int>
    requires WellFormed(r)
  {
    seq(r.size, i requires 0 <= i < r.size => r.slots[(r.head + i) % r.capacity])
  }

  /** `new CircularBuffer(capacity)`: a zero-filled array and empty counters. */
  function New(capacity: int): (r: Ring)
    requires capacity > 0
    ensures WellFormed(r) && Contents(r) == []
    ensures r.capacity == capacity && |r.slots| == capacity && r.size == 0 && r.head == 0 && r.tail == -1
  {
    Ring(seq(capacity, _ => 0), capacity, 0, 0, -1)
  }

  /**
   * `add`: `size` is incremented before the overflow test, so an overflowing
   * call leaves `size` one larger while the array and `tail` stay as they were.
   */
  function Add(r: Ring, element: int): (s: Step)
    requires Sound(r)
    ensures Sound(s.ring) && s.ring.capacity == r.capacity
    ensures s.outcome == Done <==> r.size < r.capacity
  {
    var index := (r.tail + 1) % r.capacity;
    var grown := r.(size := r.size + 1);
    if grown.size > r.capacity then
      Step(Failed(BufferOverflow), grown)
    else
      Step(Done, grown.(slots := r.slots[index := element], tail := r.tail + 1))
  }

  /** `peek`: the slot at `head`, or "Empty Buffer". */
  function Peek(r: Ring): Result<int, Fault>
    requires Sound(r)
  {
    if r.size == 0 then Failure(EmptyBuffer) else Success(r.slots[r.head % r.capacity])
  }

  /** `delete`: moves `head` past the oldest entry; the array is not touched. */
  function Delete(r: Ring): (s: Step)
    requires Sound(r)
    ensures Sound(s.ring) && s.ring.capacity == r.capacity
  {
    if r.size == 0 then Step(Failed(EmptyBuffer), r)
    else Step(Done, r.(head := r.head + 1, size := r.size - 1))
  }

  /** `replaceFirst`: `delete` then `add`, stopping at the first exception. */
  function ReplaceFirst(r: Ring, element: int): (s: Step)
    requires Sound(r)
    ensures Sound(s.ring) && s.ring.capacity == r.capacity
  {
    var d := Delete(r);
    if d.outcome.Failed? then d else Add(d.ring, element)
  }

  /** `isFull`. */
  predicate IsFull(r: Ring)
  {
    r.size == r.capacity
  }

  /** Multiplying by a positive factor does not make `n` smaller. */
  lemma {:induction false} MulAtLeast(k: int, n: int)
    requires k >= 1 && n > 0
    ensures k * n >= n
  {
    if k > 1 {
      MulAtLeast(k - 1, n);
      assert k * n == (k - 1) * n + n;
    }
  }

  /** A remainder is determined by any quotient-remainder decomposition. */
  lemma ModUnique(x: int, q: int, r: int, n: int)
    requires n > 0 && 0 <= r < n && x == q * n + r
    ensures x % n == r
  {
    var q', r' := x / n, x % n;
    assert q * n + r == q' * n + r';
    if q < q' {
      assert (q' - q) * n == q' * n - q * n;
      MulAtLeast(q' - q, n);
    } else if q > q' {
      assert (q - q') * n == q * n - q' * n;
      MulAtLeast(q - q', n);
    }
  }

  /** Two offsets closer than `n` land on different slots. */
  lemma ModDistinct(a: int, i: int, j: int, n: int)
    requires n > 0 && 0 <= i < j < n
    ensures (a + i) % n != (a + j) % n
  {
    var q, r := (a + i) / n, (a + i) % n;
    if r + (j - i) < n {
      ModUnique(a + j, q, r + (j - i), n);
    } else {
      assert a + j == (q + 1) * n + (r + (j - i) - n);
      ModUnique(a + j, q + 1, r + (j - i) - n, n);
    }
  }

  /**
   * `add` on a buffer with room writes only slot `(tail + 1) % capacity`,
   * overwrites no live entry and appends the element to the contents.
   */
  lemma AddAppends(r: Ring, element: int)
    requires WellFormed(r) && r.size < r.capacity
    ensures var s := Add(r, element);
      && s.outcome == Done
      && WellFormed(s.ring)
      && s.ring.slots == r.slots[(r.tail + 1) % r.capacity := element]
      && s.ring.size == r.size + 1 && s.ring.head == r.head && s.ring.tail == r.tail + 1
      && Contents(s.ring) == Contents(r) + [element]
  {
    var s := Add(r, element);
    forall i | 0 <= i < r.size
      ensures Contents(s.ring)[i] == Contents(r)[i]
    {
      ModDistinct(r.head, i, r.size, r.capacity);
    }
  }

  /**
   * `add` on a buffer that is full (or already overflowed) throws
   * "Buffer Overflow": the array, `head` and `tail` are kept but `size` has
   * grown past `capacity`, so the buffer is no longer well formed.
   */
  lemma AddOverflows(r: Ring, element: int)
    requires Sound(r) && r.size >= r.capacity
    ensures var s := Add(r, element);
      && s.outcome == Failed(BufferOverflow)
      && s.ring == r.(size := r.size + 1)
      && !WellFormed(s.ring)
  {
  }

  /** `peek` on a non-empty buffer returns the oldest entry; on an empty one it throws. */
  lemma PeekOldest(r: Ring)
    requires WellFormed(r)
    ensures r.size == 0 ==> Peek(r) == Failure(EmptyBuffer)
    ensures r.size > 0 ==> Peek(r) == Success(Contents(r)[0])
  {
  }

  /** `delete` drops the oldest entry and leaves the array as it was. */
  lemma DeleteDropsOldest(r: Ring)
    requires WellFormed(r) && r.size > 0
    ensures var s := Delete(r);
      && s.outcome == Done
      && WellFormed(s.ring)
      && s.ring.slots == r.slots
      && Contents(s.ring) == Contents(r)[1..]
  {
    var s := Delete(r);
    forall i | 0 <= i < s.ring.size
      ensures Contents(s.ring)[i] == Contents(r)[1..][i]
    {
      assert (s.ring.head + i) == r.head + (i + 1);
    }
  }

  /** `delete` on an empty buffer throws "Empty Buffer" and changes nothing. */
  lemma DeleteEmpty(r: Ring)
    requires Sound(r) && r.size == 0
    ensures Delete(r) == Step(Failed(EmptyBuffer), r)
  {
  }

  /**
   * `replaceFirst` on a non-empty buffer turns contents `c` into
   * `c[1..] + [element]`; a full buffer stays full.
   */
  lemma ReplaceFirstRotates(r: Ring, element: int)
    requires WellFormed(r) && r.size > 0
    ensures var s := ReplaceFirst(r, element);
      && s.outcome == Done
      && WellFormed(s.ring)
      && s.ring.size == r.size
      && (IsFull(s.ring) <==> IsFull(r))
      && Contents(s.ring) == Contents(r)[1..] + [element]
  {
    DeleteDropsOldest(r);
    AddAppends(Delete(r).ring, element);
  }

  /** On a well-formed buffer, `isFull` means the contents fill the capacity. */
  lemma IsFullMeansNoRoom(r: Ring)
    requires WellFormed(r)
    ensures IsFull(r) <==> |Contents(r)| == r.capacity
  {
  }
}
