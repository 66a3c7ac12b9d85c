/**
 * A FIFO queue built from singly linked nodes: values are enqueued at `tail`
 * and dequeued at `head`, and `size` counts them.
 *
 * Dequeuing the last value moves `head` to null but leaves `tail` on the node
 * just removed. From then on the queue is "stale": Empty() is false for good,
 * Peek sees nothing, each Enqueue links its node after the stale one where no
 * walk from `head` reaches it (its value is kept in Lost and counted in Size()),
 * and a Deque would follow the null `head`.
 */
module Queues {
  import opened Wrappers
  import opened Nodes

  class Queue<T> {
    var head: Node?<T>
    var tail: Node?<T>
    var size: nat
    /** The values reachable from `head`, oldest first. */
    ghost var Contents: seq<T>
    /** Whether `tail` was left on a dequeued node. */
    ghost var TailStale: bool
    /** Values enqueued since the queue went stale; no walk from `head` reaches them. */
    ghost var Lost: seq<T>
    /** The nodes reachable from `head`. */
    ghost var Spine: seq<Node<T>>
    /** The dequeued node `tail` was left on, followed by the nodes linked after it. */
    ghost var Stale: seq<Node<T>>

    ghost predicate Valid()
      reads this, Spine, Stale
    {
      && Chain(Spine, Contents)
      && head == First(Spine)
      && size == |Contents| + |Lost|
      && (!TailStale ==> tail == Last(Spine) && Stale == [] && Lost == [])
      && (TailStale ==>
            && Spine == []
            && Linked(Stale)
            && |Stale| == |Lost| + 1
            && (forall i :: 0 <= i < |Lost| ==> Stale[i + 1].value == Lost[i])
            && tail == Last(Stale))
    }

    /** A new queue is empty and not stale. */
    constructor ()
      ensures Valid() && Contents == [] && !TailStale && Empty() && Size() == 0 && tail == null
    {
      head, tail := null, null;
      size := 0;
      Contents, TailStale, Lost := [], false, [];
      Spine, Stale := [], [];
    }

    /** Both pointers are null: true only for a queue that holds nothing and was never drained. */
    function Empty(): (r: bool)
      reads this, Spine, Stale
      requires Valid()
      ensures r <==> !TailStale && Contents == []
      ensures r ==> Size() == 0
    {
      head == null && tail == null
    }

    /** The number of values enqueued and not dequeued, reachable or not. */
    function Size(): (n: nat)
      reads this, Spine, Stale
      requires Valid()
      ensures n == |Contents| + |Lost|
      ensures !TailStale ==> n == |Contents|
    {
      size
    }

    /** A copy of the oldest reachable value, or None when `head` is null; nothing changes. */
    function Peek(): (r: Option<T>)
      reads this, Spine, Stale
      requires Valid()
      ensures Contents == [] ==> r == None
      ensures Contents != [] ==> r == Some(Contents[0])
    {
      if head != null then Some(head.value) else None
    }

    /** Appends `value` at the back: reachably on a sound queue, after the stale node otherwise. */
    method Enqueue(value: T)
      requires Valid()
      modifies this, tail
      ensures Valid() && TailStale == old(TailStale) && fresh(tail)
      ensures !TailStale ==> Contents == old(Contents) + [value]
      ensures TailStale ==> Contents == [] && Lost == old(Lost) + [value]
      ensures Size() == old(Size()) + 1
    {
      var node := new Node(value);
      if Empty() {
        head := node;
        tail := node;
        Contents, Spine := [value], [node];
        size := size + 1;
      } else {
        LinkAfterTail(node);
      }
    }

    /** The non-empty case of Enqueue: `node` is linked after `tail`, becomes the tail, and is counted. */
    method LinkAfterTail(node: Node<T>)
      requires Valid() && !Empty() && node.next == null && node !in Spine && node !in Stale
      modifies this, tail
      ensures Valid() && TailStale == old(TailStale) && tail == node
      ensures !TailStale ==> Contents == old(Contents) + [node.value]
      ensures TailStale ==> Contents == [] && Lost == old(Lost) + [node.value]
      ensures Size() == old(Size()) + 1
    {
      if TailStale {
        forall i | 0 <= i < |Stale| - 1 ensures Stale[i] != tail {
          LastIsUnique(Stale, i);
        }
      } else {
        forall i | 0 <= i < |Spine| - 1 ensures Spine[i] != tail {
          LastIsUnique(Spine, i);
        }
      }
      tail.next := node;
      tail := node;
      if TailStale {
        Lost, Stale := Lost + [node.value], Stale + [node];
      } else {
        Contents, Spine := Contents + [node.value], Spine + [node];
      }
      size := size + 1;
    }

    /**
     * Removes and returns the oldest value; on an empty queue returns None and
     * changes nothing. Removing the last value leaves the queue stale.
     */
    method Deque() returns (r: Option<T>)
      requires Valid()
      requires Empty() || head != null   // otherwise the null head would be followed
      modifies this
      ensures Valid() && tail == old(tail)
      ensures old(Empty()) ==> r == None && unchanged(this)
      ensures !old(Empty()) ==> r == Some(old(Contents)[0]) && Contents == old(Contents)[1..]
      ensures !old(Empty()) ==> Size() == old(Size()) - 1
      ensures TailStale <==> old(TailStale) || |old(Contents)| == 1
    {
      r := None;
      if !Empty() {
        var node := head;
        head := head.next;
        r := Some(node.value);
        size := size - 1;
        if |Spine| == 1 {
          TailStale, Stale := true, Spine;
        }
        Contents, Spine := Contents[1..], Spine[1..];
      }
    }
  }

  /**
   * Enqueues `xs` on a new queue and peeks: the front is the first value enqueued
   * and peeking changes neither the front nor the size.
   */
  method EnqueueThenPeek<T>(xs: seq<T>) returns (front: Option<T>, again: Option<T>, size: nat)
    requires xs != []
    ensures front == Some(xs[0]) && again == front && size == |xs|
  {
    var queue := new Queue<T>();
    var i := 0;
    while i < |xs|
      invariant 0 <= i <= |xs|
      invariant queue.Valid() && !queue.TailStale && queue.Contents == xs[..i]
      invariant queue.tail == null || fresh(queue.tail)
    {
      queue.Enqueue(xs[i]);
      i := i + 1;
    }
    front := queue.Peek();
    again := queue.Peek();
    size := queue.Size();
  }

  /**
   * Drains a one-value queue and enqueues again: the queue never reads as empty
   * again, the new value counts in the size, and neither Peek nor any walk from
   * the head sees it.
   */
  method DrainThenEnqueue<T>(x: T, y: T) returns (drained: Option<T>, emptyAfterDrain: bool, front: Option<T>, size: nat)
    ensures drained == Some(x)
    ensures !emptyAfterDrain
    ensures front == None && size == 1
  {
    var queue := new Queue<T>();
    queue.Enqueue(x);
    drained := queue.Deque();
    emptyAfterDrain := queue.Empty();
    queue.Enqueue(y);
    front := queue.Peek();
    size := queue.Size();
  }
}
