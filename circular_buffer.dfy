/**
 * The circular buffer of timestamps as a class over an array.  Each method
 * does what the Java method does, field by field; its postcondition ties the
 * new fields to the matching function of `Rings` and, when the buffer was well
 * formed, states the effect on the FIFO contents.
 */
module CircularBuffers {
  import opened Common
  import Rings

  class CircularBuffer {
    const slots: array<int>
    const capacity: int
    var size: int
    var head: int
    var tail: int

    /** The fields as a `Rings.Ring` value. */
    ghost function State(): Rings.Ring
      reads this, slots
    {
      Rings.Ring(slots[..], capacity, size, head, tail)
    }

    /** Holds in every reachable state. */
    ghost predicate Sound()
      reads this, slots
    {
      Rings.Sound(State())
    }

    /** The counters describe the live entries exactly. */
    ghost predicate Valid()
      reads this, slots
    {
      Rings.WellFormed(State())
    }

    /** The live entries, oldest first. */
    ghost function Contents(): seq<int>
      reads this, slots
      requires Valid()
    {
      Rings.Contents(State())
    }

    /** A fresh zero-filled array; `size == 0`, `head == 0`, `tail == -1`. */
    constructor (capacity: int)
      requires capacity > 0
      ensures State() == Rings.New(capacity) && fresh(slots)
      ensures Valid() && Contents() == []
    {
      this.capacity := capacity;
      slots := new int[capacity](_ => 0);
      size, head, tail := 0, 0, -1;
      new;
      assert slots[..] == seq(capacity, _ => 0);
    }

    /** `add`: append `element`, or throw "Buffer Overflow" after incrementing `size`. */
    method Add(element: int) returns (o: Rings.Outcome)
      requires Sound()
      modifies this, slots
      ensures Sound()
      ensures Rings.Step(o, State()) == Rings.Add(old(State()), element)
      ensures old(Valid()) && old(size) < capacity ==> o == Rings.Done && Valid() && Contents() == old(Contents()) + [element]
      ensures old(size) >= capacity ==> o == Rings.Failed(Rings.BufferOverflow) && !Valid()
    {
      ghost var before := State();
      var index := (tail + 1) % capacity;
      size := size + 1;
      if size > capacity {
        Rings.AddOverflows(before, element);
        return Rings.Failed(Rings.BufferOverflow);
      }
      slots[index] := element;
      tail := tail + 1;
      o := Rings.Done;
      if Rings.WellFormed(before) {
        Rings.AddAppends(before, element);
      }
    }

    /** `peek`: the oldest entry, or "Empty Buffer". */
    method Peek() returns (r: Result<int, Rings.Fault>)
      requires Sound()
      ensures r == Rings.Peek(State())
      ensures Valid() && size > 0 ==> r == Success(Contents()[0])
      ensures size == 0 ==> r == Failure(Rings.EmptyBuffer)
    {
      if size == 0 {
        return Failure(Rings.EmptyBuffer);
      }
      var index := head % capacity;
      r := Success(slots[index]);
    }

    /** `replaceFirst`: `delete` then `add`. */
    method ReplaceFirst(element: int) returns (o: Rings.Outcome)
      requires Sound()
      modifies this, slots
      ensures Sound()
      ensures Rings.Step(o, State()) == Rings.ReplaceFirst(old(State()), element)
      ensures old(Valid()) && old(size) > 0 ==> o == Rings.Done && Valid() && Contents() == old(Contents())[1..] + [element]
    {
      if old(Valid()) && size > 0 {
        Rings.ReplaceFirstRotates(State(), element);
      }
      o := Delete();
      if o.Failed? {
        return;
      }
      o := Add(element);
    }

    /** `isFull`. */
    method IsFull() returns (full: bool)
      requires Sound()
      ensures full == Rings.IsFull(State())
      ensures Valid() ==> (full <==> |Contents()| == capacity)
    {
      if Valid() {
        Rings.IsFullMeansNoRoom(State());
      }
      full := size == capacity;
    }

    /** `isEmpty`, which the aspect calls. */
    method IsEmpty() returns (empty: bool)
      requires Sound()
      ensures empty <==> size == 0
      ensures Valid() ==> (empty <==> Contents() == [])
    {
      empty := size == 0;
    }

    /** `size()`, which the aspect calls. */
    method Size() returns (n: int)
      requires Sound()
      ensures n == size
      ensures Valid() ==> n == |Contents()|
    {
      n := size;
    }

    /** `delete`: drop the oldest entry, or throw "Empty Buffer". */
    method Delete() returns (o: Rings.Outcome)
      requires Sound()
      modifies this
      ensures Sound()
      ensures Rings.Step(o, State()) == Rings.Delete(old(State()))
      ensures old(Valid()) && old(size) > 0 ==> o == Rings.Done && Valid() && Contents() == old(Contents())[1..]
      ensures old(size) == 0 ==> o == Rings.Failed(Rings.EmptyBuffer) && unchanged(this)
    {
      if size == 0 {
        return Rings.Failed(Rings.EmptyBuffer);
      }
      if Valid() {
        Rings.DeleteDropsOldest(State());
      }
      head := head + 1;
      size := size - 1;
      o := Rings.Done;
    }
  }
}
