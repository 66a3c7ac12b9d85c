/**
 * A LIFO stack built from singly linked nodes: `head` is the top and
 * `size` counts the nodes. Contents lists the values from the top down.
 */
module Stacks {
  import opened Wrappers
  import opened Nodes

  class Stack<T> {
    var head: Node?<T>
    var size: nat
    ghost var Contents: seq<T>
    ghost var Spine: seq<Node<T>>

    ghost predicate Valid()
      reads this, Spine
    {
      && Chain(Spine, Contents)
      && head == First(Spine)
      && size == |Contents|
    }

    /** A new stack is empty. */
    constructor ()
      ensures Valid() && Contents == [] && Empty() && Size() == 0
    {
      head := null;
      size := 0;
      Contents := [];
      Spine := [];
    }

    /** The stack is empty exactly when the head pointer is null, which is exactly when its size is 0. */
    function Empty(): (r: bool)
      reads this, Spine
      requires Valid()
      ensures r <==> Contents == []
      ensures r <==> Size() == 0
    {
      head == null
    }

    /** The number of values on the stack. */
    function Size(): (n: nat)
      reads this, Spine
      requires Valid()
      ensures n == |Contents|
    {
      size
    }

    /** A copy of the top value, or None on an empty stack; nothing changes. */
    function Peek(): (r: Option<T>)
      reads this, Spine
      requires Valid()
      ensures Contents == [] ==> r == None
      ensures Contents != [] ==> r == Some(Contents[0])
    {
      if Empty() then None else Some(head.value)
    }

    /** Puts `value` on top. */
    method Push(value: T)
      requires Valid()
      modifies this
      ensures Valid()
      ensures Contents == [value] + old(Contents)
      ensures Size() == old(Size()) + 1 && !Empty()
    {
      var node := new Node(value);
      if Empty() {
        head := node;
      } else {
        node.next := head;
        head := node;
      }
      size := size + 1;
      Contents := [value] + Contents;
      Spine := [node] + Spine;
    }

    /** Removes and returns the top value; on an empty stack returns None and changes nothing. */
    method Pop() returns (r: Option<T>)
      requires Valid()
      modifies this
      ensures Valid()
      ensures old(Contents) == [] ==> r == None && unchanged(this)
      ensures old(Contents) != [] ==> r == Some(old(Contents)[0]) && Contents == old(Contents)[1..]
      ensures old(Contents) != [] ==> Size() == old(Size()) - 1
    {
      r := None;
      if !Empty() {
        var node := head;
        head := head.next;
        r := Some(node.value);
        size := size - 1;
        Contents := Contents[1..];
        Spine := Spine[1..];
      }
    }
  }

  /**
   * Pushes every value of `xs` onto a new stack and then pops as many times as
   * there were values: every pop yields a value, in the reverse order of the
   * pushes, and the stack ends empty with size 0.
   */
  method PushThenPopAll<T>(xs: seq<T>) returns (popped: seq<T>, size: nat, empty: bool)
    ensures |popped| == |xs|
    ensures forall i :: 0 <= i < |xs| ==> popped[i] == xs[|xs| - 1 - i]
    ensures size == 0 && empty
  {
    var stack := new Stack<T>();
    var i := 0;
    while i < |xs|
      invariant 0 <= i <= |xs|
      invariant stack.Valid() && stack.Size() == i
      invariant forall k :: 0 <= k < i ==> stack.Contents[k] == xs[i - 1 - k]
    {
      stack.Push(xs[i]);
      i := i + 1;
    }
    var n := stack.Size();
    popped := [];
    var j := 0;
    while j < n
      invariant 0 <= j <= n && n == |xs|
      invariant stack.Valid() && stack.Size() == n - j
      invariant forall k :: 0 <= k < n - j ==> stack.Contents[k] == xs[n - 1 - j - k]
      invariant |popped| == j
      invariant forall k :: 0 <= k < j ==> popped[k] == xs[n - 1 - k]
    {
      var r := stack.Pop();
      popped := popped + [r.value];
      j := j + 1;
    }
    size := stack.Size();
    empty := stack.Empty();
  }
}
