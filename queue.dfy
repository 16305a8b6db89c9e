/**
 * The singly linked FIFO of run_me.py. One class serves both as a vertex's
 * adjacency list and as the breadth-first frontier; its cells carry vertex ids.
 */
module Queues {

  /** A list cell holding the id of a vertex. */
  class Node {
    const id: int
    var next: Node?

    constructor (id: int)
      ensures this.id == id && next == null
    {
      this.id := id;
      next := null;
    }
  }

  /**
   * A queue linked through `next`, with `head`, `tail` and a `size` counter.
   * The ghost sequence `nodes` lists the cells from head to tail, and
   * `Contents` the ids they carry; `Valid` ties the real fields to them.
   */
  class Queue {
    var head: Node?
    var tail: Node?
    var size: int
    ghost var nodes: seq<Node>
    ghost var Contents: seq<int>
    ghost var Repr: set<object>

    ghost predicate Valid()
      reads this, Repr
      ensures Valid() ==> this in Repr
    {
      && this in Repr
      && |nodes| == |Contents| == size
      && (forall i :: 0 <= i < |nodes| ==> nodes[i] in Repr && nodes[i].id == Contents[i])
      && (forall i, j :: 0 <= i < j < |nodes| ==> nodes[i] != nodes[j])
      && (forall i :: 0 <= i < |nodes| - 1 ==> nodes[i].next == nodes[i + 1])
      && (if nodes == [] then head == null && tail == null
          else head == nodes[0] && tail == nodes[|nodes| - 1] && tail.next == null)
    }

    constructor ()
      ensures Valid() && Repr == {this}
      ensures Contents == [] && head == null && tail == null && size == 0
    {
      head, tail, size := null, null, 0;
      nodes, Contents := [], [];
      Repr := {this};
    }

    /** The queue is empty exactly when it has no head, that is when its size is 0. */
    method IsEmpty() returns (r: bool)
      requires Valid()
      ensures r <==> head == null
      ensures r <==> Contents == []
      ensures r <==> size == 0
    {
      r := head == null;
    }

    /** Links `node` after the tail; it becomes the last element. */
    method Enqueue(node: Node)
      requires Valid()
      requires node !in Repr && node.next == null
      modifies Repr
      ensures Valid() && Repr == old(Repr) + {node}
      ensures nodes == old(nodes) + [node]
      ensures Contents == old(Contents) + [node.id]
      ensures size == old(size) + 1
    {
      if head == null {
        head := node;
        tail := node;
      } else {
        tail.next := node;
        tail := node;
      }
      size := size + 1;
      nodes := nodes + [node];
      Contents := Contents + [node.id];
      Repr := Repr + {node};
    }

    /** Unlinks and returns the head; taking the last node resets head and tail. */
    method Dequeue() returns (node: Node)
      requires Valid() && Contents != []
      modifies this
      ensures Valid() && Repr == old(Repr)
      ensures node == old(nodes)[0] && node.id == old(Contents)[0]
      ensures nodes == old(nodes)[1..] && Contents == old(Contents)[1..]
      ensures size == old(size) - 1
      ensures Contents == [] ==> head == null && tail == null
    {
      node := head;
      if node.next == null {
        head := null;
        tail := null;
      } else {
        head := node.next;
      }
      size := size - 1;
      nodes := nodes[1..];
      Contents := Contents[1..];
    }
  }
}
