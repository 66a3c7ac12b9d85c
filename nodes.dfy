/**
 * The node type shared by the singly linked containers: a value and two links.
 * A container describes the nodes it can reach by a ghost sequence (its spine),
 * and the predicates below say when such a sequence really is a chain of `next` links.
 */
module Nodes {
  class Node<T> {
    var value: T
    var next: Node?<T>
    var prev: Node?<T>

    /** A new node holds `value` and is linked to nothing. */
    constructor (value: T)
      ensures this.value == value && next == null && prev == null
    {
      this.value := value;
      next := null;
      prev := null;
    }
  }

  /** Each node of `spine` links to the following one, and the last links to null. */
  ghost predicate Linked<T>(spine: seq<Node<T>>)
    reads spine
  {
    && (forall i {:trigger spine[i].next} :: 0 <= i < |spine| - 1 ==> spine[i].next == spine[i + 1])
    && (spine != [] ==> spine[|spine| - 1].next == null)
  }

  /** `spine` is a linked chain whose nodes hold `contents`, in order. */
  ghost predicate Chain<T>(spine: seq<Node<T>>, contents: seq<T>)
    reads spine
  {
    && Linked(spine)
    && |spine| == |contents|
    && (forall i :: 0 <= i < |spine| ==> spine[i].value == contents[i])
  }

  /** The pointer a container keeps to the first node of `spine`. */
  function First<T>(spine: seq<Node<T>>): Node?<T>
  {
    if spine == [] then null else spine[0]
  }

  /** The pointer a container keeps to the last node of `spine`. */
  function Last<T>(spine: seq<Node<T>>): Node?<T>
  {
    if spine == [] then null else spine[|spine| - 1]
  }

  /** In a linked chain only the last node has a null `next`, so no earlier node is the last one. */
  lemma {:induction false} LastIsUnique<T>(spine: seq<Node<T>>, i: nat)
    requires Linked(spine) && i < |spine| - 1
    ensures spine[i] != spine[|spine| - 1]
  {
    assert spine[i].next == spine[i + 1];
  }
}
