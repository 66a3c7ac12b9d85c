/**
 * A fixed-capacity circular FIFO over an array. `head` is the read position,
 * `tail` the write position, and `isFull` tells a full buffer from an empty one
 * when the two positions meet. Enqueuing into a full buffer overwrites the
 * oldest value. Contents lists the retained values, oldest first.
 */
module RingBuffers {
  import opened Wrappers

  /** The array slot holding the value `offset` places after position `start`. */
  function Slot(start: nat, offset: nat, capacity: nat): (k: nat)
    requires start < capacity && offset < capacity
    ensures k < capacity
  {
    if start + offset < capacity then start + offset else start + offset - capacity
  }

  /** The position after `i`, wrapping to 0 at the end of the array. */
  function Advance(i: nat, capacity: nat): (k: nat)
    requires i < capacity
    ensures k == if i + 1 < capacity then i + 1 else 0
  {
    (i + 1) % capacity
  }

  /** The forward distance between two positions is their difference taken modulo the capacity. */
  lemma WrapDistance(d: int, capacity: int)
    requires 0 < capacity && -capacity < d < capacity
    ensures d % capacity == if d >= 0 then d else d + capacity
  {
    if d < 0 {
      assert d == -1 * capacity + (d + capacity);
    }
  }

  class RingBuffer<T(0)> {
    var buffer: array<T>
    const capacity: nat
    var head: nat
    var tail: nat
    var isFull: bool
    ghost var Contents: seq<T>

    ghost predicate Valid()
      reads this, buffer
    {
      && buffer.Length == capacity
      && (capacity == 0 ==> head == 0 && tail == 0 && !isFull)
      && (capacity > 0 ==> head < capacity && tail < capacity)
      && (isFull ==> head == tail)
      && |Contents| == (if isFull then capacity else if tail >= head then tail - head else capacity + tail - head)
      && (forall i :: 0 <= i < |Contents| ==> Contents[i] == buffer[Slot(head, i, capacity)])
    }

    /** A new buffer of the given capacity, empty. */
    constructor (capacity: nat)
      ensures Valid() && fresh(buffer)
      ensures this.capacity == capacity && Contents == [] && Empty() && Size() == 0
    {
      this.capacity := capacity;
      buffer := new T[capacity];
      head, tail, isFull := 0, 0, false;
      Contents := [];
    }

    /** Empty exactly when the buffer holds nothing, which is exactly when Size() is 0. */
    function Empty(): (r: bool)
      reads this, buffer
      requires Valid()
      ensures r <==> Contents == []
      ensures r <==> Size() == 0
    {
      !isFull && head == tail
    }

    /**
     * The number of retained values, at most the capacity: the capacity when
     * full, the distance from `head` forward to `tail` otherwise.
     */
    function Size(): (n: nat)
      reads this, buffer
      requires Valid()
      ensures n == |Contents| && n <= capacity
      ensures isFull ==> n == capacity
    {
      if isFull then capacity
      else if tail >= head then tail - head
      else capacity + tail - head
    }

    /** When not full, the size is the distance from `head` to `tail`, taken modulo the capacity. */
    lemma SizeWraps()
      requires Valid() && !isFull && capacity > 0
      ensures Size() == (tail - head) % capacity
    {
      WrapDistance(tail - head, capacity);
    }

    /**
     * Writes `item` at `tail` and advances it. A buffer that was not full grows by
     * one and is full exactly when it reaches capacity; on a full buffer the
     * oldest value is overwritten, `head` advances and the size stays at capacity.
     */
    method Enqueue(item: T)
      requires Valid()
      requires capacity > 0   // otherwise the write and the `% capacity` are undefined
      modifies this, buffer
      ensures Valid() && buffer == old(buffer)
      ensures !old(isFull) ==> Contents == old(Contents) + [item]
      ensures old(isFull) ==> Contents == old(Contents)[1..] + [item]
      ensures Size() == if old(isFull) then capacity else old(Size()) + 1
      ensures isFull <==> Size() == capacity
    {
      buffer[tail] := item;
      if isFull {
        head := Advance(head, capacity);
      }
      tail := Advance(tail, capacity);
      isFull := tail == head;
      if old(isFull) {
        Contents := Contents[1..] + [item];
      } else {
        Contents := Contents + [item];
      }
    }

    /**
     * Removes and returns the oldest value and clears the full flag; on an empty
     * buffer returns None and changes nothing.
     */
    method Dequeue() returns (r: Option<T>)
      requires Valid()
      modifies this
      ensures Valid() && buffer == old(buffer)
      ensures old(Contents) == [] ==> r == None && unchanged(this)
      ensures old(Contents) != [] ==> r == Some(old(Contents)[0]) && Contents == old(Contents)[1..]
      ensures old(Contents) != [] ==> !isFull && Size() == old(Size()) - 1
    {
      r := None;
      if !Empty() {
        var item := buffer[head];
        head := Advance(head, capacity);
        isFull := false;
        r := Some(item);
        Contents := Contents[1..];
      }
    }
  }

  /**
   * Enqueues three values into a buffer of capacity 2: the third overwrites the
   * first, so the buffer stays full and yields the second and third, then nothing.
   */
  method OverwriteOldest<T(0)>(x: T, y: T, z: T) returns (size: nat, first: Option<T>, second: Option<T>, third: Option<T>)
    ensures size == 2
    ensures first == Some(y) && second == Some(z) && third == None
  {
    var ring := new RingBuffer<T>(2);
    ring.Enqueue(x);
    ring.Enqueue(y);
    ring.Enqueue(z);
    size := ring.Size();
    first := ring.Dequeue();
    second := ring.Dequeue();
    third := ring.Dequeue();
  }

  /**
   * Consumes and produces in turn in a buffer of capacity 3: after one dequeue
   * the next enqueue wraps round to slot 0, and the one after that overwrites
   * the oldest value, so the buffer then yields the last three items, then nothing.
   */
  method DequeueThenEnqueue<T(0)>(a: T, b: T, c: T, d: T, e: T) returns (out0: Option<T>, size: nat, out1: Option<T>, out2: Option<T>, out3: Option<T>, out4: Option<T>)
    ensures out0 == Some(a) && size == 3
    ensures out1 == Some(c) && out2 == Some(d) && out3 == Some(e) && out4 == None
  {
    var ring := new RingBuffer<T>(3);
    ring.Enqueue(a);
    ring.Enqueue(b);
    ring.Enqueue(c);
    out0 := ring.Dequeue();
    ring.Enqueue(d);
    ring.Enqueue(e);
    size := ring.Size();
    out1 := ring.Dequeue();
    out2 := ring.Dequeue();
    out3 := ring.Dequeue();
    out4 := ring.Dequeue();
  }
}
