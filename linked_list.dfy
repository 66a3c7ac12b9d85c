/**
 * A singly linked list with pointers to both ends: values are pushed at either
 * end and popped at the front, and `size` counts them.
 *
 * Popping the last reachable value moves `head` to null but leaves `tail` on
 * the node just removed. From then on the list is "stale": Empty() is false for
 * good, PushFront starts a new chain at `head`, and PushBack links its node after
 * the stale one, where no walk from `head` reaches it (its value is kept in Lost
 * and counted in Size()).
 */
module LinkedLists {
  import opened Wrappers
  import opened Nodes

  class LinkedList<T> {
    var head: Node?<T>
    var tail: Node?<T>
    var size: nat
    /** The values reachable from `head`, front first. */
    ghost var Contents: seq<T>
    /** Whether `tail` was left on a popped node. */
    ghost var TailStale: bool
    /** Values pushed at the back since the list went stale; no walk from `head` reaches them. */
    ghost var Lost: seq<T>
    /** The nodes reachable from `head`. */
    ghost var Spine: seq<Node<T>>
    /** The popped node `tail` was left on, followed by the nodes linked after it. */
    ghost var Stale: seq<Node<T>>

    ghost predicate Valid()
      reads this, Spine, Stale
    {
      && Chain(Spine, Contents)
      && head == First(Spine)
      && size == |Contents| + |Lost|
      && (!TailStale ==> tail == Last(Spine) && Stale == [] && Lost == [])
      && (TailStale ==>
            && Linked(Stale)
            && |Stale| == |Lost| + 1
            && (forall i :: 0 <= i < |Lost| ==> Stale[i + 1].value == Lost[i])
            && tail == Last(Stale)
            && (forall j :: 0 <= j < |Stale| ==> Stale[j] !in Spine))
    }

    /** A new list is empty and not stale. */
    constructor ()
      ensures Valid() && Contents == [] && !TailStale && Empty() && Size() == 0 && tail == null
    {
      head, tail := null, null;
      size := 0;
      Contents, TailStale, Lost := [], false, [];
      Spine, Stale := [], [];
    }

    /** Both pointers are null: true only for a list that holds nothing and was never emptied by PopFront. */
    function Empty(): (r: bool)
      reads this, Spine, Stale
      requires Valid()
      ensures r <==> !TailStale && Contents == []
      ensures r ==> Size() == 0
    {
      head == null && tail == null
    }

    /** The number of values pushed and not popped, reachable or not. */
    function Size(): (n: nat)
      reads this, Spine, Stale
      requires Valid()
      ensures n == |Contents| + |Lost|
      ensures !TailStale ==> n == |Contents|
    {
      size
    }

    /** Puts `value` at the front. */
    method PushFront(value: T)
      requires Valid()
      modifies this
      ensures Valid() && TailStale == old(TailStale) && Lost == old(Lost)
      ensures Contents == [value] + old(Contents)
      ensures Size() == old(Size()) + 1
      ensures !old(Empty()) ==> tail == old(tail)
      ensures old(Empty()) ==> fresh(tail)
    {
      var node := new Node(value);
      if Empty() {
        head := node;
        tail := node;
        size := size + 1;
        Contents, Spine := [value], [node];
      } else {
        LinkBeforeHead(node);
      }
    }

    /** The non-empty case of PushFront: `node` is linked in before `head`, becomes the head, and is counted. */
    method LinkBeforeHead(node: Node<T>)
      requires Valid() && !Empty() && node.next == null && node !in Spine && node !in Stale
      modifies this, node
      ensures Valid() && TailStale == old(TailStale) && Lost == old(Lost) && tail == old(tail)
      ensures Contents == [old(node.value)] + old(Contents)
      ensures Size() == old(Size()) + 1
    {
      node.next := head;
      head := node;
      size := size + 1;
      Contents, Spine := [node.value] + Contents, [node] + Spine;
    }

    /**
     * Removes and returns the front value, or returns None and changes nothing
     * when `head` is null. Popping the last value of a sound list leaves it stale.
     */
    method PopFront() returns (r: Option<T>)
      requires Valid()
      modifies this
      ensures Valid() && tail == old(tail) && Lost == old(Lost)
      ensures old(Contents) == [] ==> r == None && unchanged(this)
      ensures old(Contents) != [] ==> r == Some(old(Contents)[0]) && Contents == old(Contents)[1..]
      ensures old(Contents) != [] ==> Size() == old(Size()) - 1
      ensures TailStale <==> old(TailStale) || |old(Contents)| == 1
    {
      r := None;
      if head != null {
        var node := head;
        head := head.next;
        r := Some(node.value);
        size := size - 1;
        if !TailStale && |Spine| == 1 {
          TailStale, Stale := true, Spine;
        }
        Contents, Spine := Contents[1..], Spine[1..];
      }
    }

    /** Appends `value` at the back: reachably on a sound list, after the stale node otherwise. */
    method PushBack(value: T)
      requires Valid()
      modifies this, tail
      ensures Valid() && TailStale == old(TailStale) && fresh(tail)
      ensures !TailStale ==> Contents == old(Contents) + [value]
      ensures TailStale ==> Contents == old(Contents) && Lost == old(Lost) + [value]
      ensures Size() == old(Size()) + 1
    {
      var node := new Node(value);
      if Empty() {
        head := node;
        tail := node;
        Contents, Spine := [value], [node];
        size := size + 1;
      } else {
        LinkAfterTail(node);
      }
    }

    /** The non-empty case of PushBack: `node` is linked after `tail`, becomes the tail, and is counted. */
    method LinkAfterTail(node: Node<T>)
      requires Valid() && !Empty() && node.next == null && node !in Spine && node !in Stale
      modifies this, tail
      ensures Valid() && TailStale == old(TailStale) && tail == node
      ensures !TailStale ==> Contents == old(Contents) + [node.value]
      ensures TailStale ==> Contents == old(Contents) && Lost == old(Lost) + [node.value]
      ensures Size() == old(Size()) + 1
    {
      if TailStale {
        forall i | 0 <= i < |Stale| - 1 ensures Stale[i] != tail {
          LastIsUnique(Stale, i);
        }
      } else {
        forall i | 0 <= i < |Spine| - 1 ensures Spine[i] != tail {
          LastIsUnique(Spine, i);
        }
      }
      tail.next := node;
      tail := node;
      if TailStale {
        Lost, Stale := Lost + [node.value], Stale + [node];
      } else {
        Contents, Spine := Contents + [node.value], Spine + [node];
      }
      size := size + 1;
    }
  }

  /**
   * Pushes `xs` at the front of a new list, one by one, and pops once: the pop
   * yields the last value pushed and the size drops by one.
   */
  method PushFrontThenPop<T>(xs: seq<T>) returns (sizeBefore: nat, popped: Option<T>, sizeAfter: nat)
    requires xs != []
    ensures sizeBefore == |xs| && popped == Some(xs[|xs| - 1]) && sizeAfter == |xs| - 1
  {
    var list := new LinkedList<T>();
    var i := 0;
    while i < |xs|
      invariant 0 <= i <= |xs|
      invariant list.Valid() && !list.TailStale && list.Size() == i
      invariant i > 0 ==> list.Contents[0] == xs[i - 1]
      invariant list.tail == null || fresh(list.tail)
    {
      list.PushFront(xs[i]);
      i := i + 1;
    }
    sizeBefore := list.Size();
    popped := list.PopFront();
    sizeAfter := list.Size();
  }

  /** Pushes `xs` at the back of a new list, one by one: the size counts them and a pop yields the first. */
  method PushBackThenPop<T>(xs: seq<T>) returns (size: nat, front: Option<T>)
    requires xs != []
    ensures size == |xs| && front == Some(xs[0])
  {
    var list := new LinkedList<T>();
    var i := 0;
    while i < |xs|
      invariant 0 <= i <= |xs|
      invariant list.Valid() && !list.TailStale && list.Contents == xs[..i]
      invariant list.tail == null || fresh(list.tail)
    {
      list.PushBack(xs[i]);
      i := i + 1;
    }
    size := list.Size();
    front := list.PopFront();
  }

  /**
   * Pops the only value of a list and pushes another at the back: the list never
   * reads as empty again, the new value counts in the size, and the next pop
   * finds nothing to return.
   */
  method PopLastThenPushBack<T>(x: T, y: T) returns (popped: Option<T>, emptyAfterPop: bool, size: nat, next: Option<T>)
    ensures popped == Some(x) && !emptyAfterPop
    ensures size == 1 && next == None
  {
    var list := new LinkedList<T>();
    list.PushBack(x);
    popped := list.PopFront();
    emptyAfterPop := list.Empty();
    list.PushBack(y);
    size := list.Size();
    next := list.PopFront();
  }
}
