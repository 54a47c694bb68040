/** The linked FIFO of the thread pool (module_1/src/queue.c).

    A queue owns a chain of heap nodes reached from `head`.  After the last node has been dequeued `tail` still
    points at the released node: an empty queue says nothing about its two pointers. */
module Queues {
  import opened Options

  /** `data` and `hasFree` (is there a free function?) are written once, when the node is allocated. */
  class QueueNode<T> {
    const data: T
    const hasFree: bool
    var next: QueueNode?<T>

    constructor (data: T, hasFree: bool)
      ensures this.data == data && this.hasFree == hasFree && next == null
    {
      this.data, this.hasFree, next := data, hasFree, null;
    }
  }

  /** The payloads that a free function would be applied to if the chain were destroyed now. */
  ghost function OwnedPayloads<T>(nodes: seq<QueueNode<T>>): seq<T> {
    if nodes == [] then []
    else OwnedPayloads(nodes[..|nodes| - 1]) + (if nodes[|nodes| - 1].hasFree then [nodes[|nodes| - 1].data] else [])
  }

  /** Exactly the payloads of the nodes with a free function, in the order of the chain. */
  lemma {:induction false} OwnedConcat<T>(a: seq<QueueNode<T>>, b: seq<QueueNode<T>>)
    ensures OwnedPayloads(a + b) == OwnedPayloads(a) + OwnedPayloads(b)
    ensures |b| == 1 ==> OwnedPayloads(b) == if b[0].hasFree then [b[0].data] else []
    decreases |b|
  {
    if b == [] {
      assert a + b == a;
    } else {
      var front := b[..|b| - 1];
      assert (a + b)[..|a + b| - 1] == a + front;
      OwnedConcat(a, front);
    }
  }

  lemma {:induction false} OwnedIff<T>(nodes: seq<QueueNode<T>>, x: T)
    ensures x in OwnedPayloads(nodes) <==> exists i :: 0 <= i < |nodes| && nodes[i].hasFree && nodes[i].data == x
  {
    if nodes != [] {
      var front := nodes[..|nodes| - 1];
      OwnedIff(front, x);
      assert forall i :: 0 <= i < |front| ==> front[i] == nodes[i];
    }
  }

  class Queue<T> {
    var head: QueueNode?<T>
    var tail: QueueNode?<T>
    var size: nat
    ghost var nodes: seq<QueueNode<T>>  // the chain, front first
    ghost var contents: seq<T>          // its payloads
    ghost var Repr: set<object>

    ghost predicate Valid()
      reads this, Repr
      ensures Valid() ==> this in Repr && size == |contents|
    {
      && this in Repr
      && size == |nodes| == |contents|
      && (forall i :: 0 <= i < |nodes| ==> nodes[i] in Repr && contents[i] == nodes[i].data)
      && (forall i, j :: 0 <= i < j < |nodes| ==> nodes[i] != nodes[j])
      && (forall i {:trigger nodes[i].next} :: 0 <= i < |nodes| - 1 ==> nodes[i].next == nodes[i + 1])
      && (size > 0 ==> head == nodes[0] && tail == nodes[size - 1] && tail.next == null)
    }

    constructor ()
      ensures Valid() && fresh(Repr) && nodes == [] && contents == []
    {
      head, tail, size, nodes, contents, Repr := null, null, 0, [], [], {this};
    }

    method IsEmpty() returns (empty: bool)
      requires Valid()
      ensures empty <==> contents == []
    {
      empty := size == 0;
    }

    method Enqueue(data: T, hasFree: bool)
      requires Valid()
      modifies Repr
      ensures Valid() && |nodes| == old(|nodes|) + 1
      ensures Repr == old(Repr) + {nodes[|nodes| - 1]} && fresh(nodes[|nodes| - 1])
      ensures nodes[..|nodes| - 1] == old(nodes)
      ensures nodes[|nodes| - 1].hasFree == hasFree
      ensures contents == old(contents) + [data]
    {
      var node := new QueueNode(data, hasFree);
      if size == 0 {
        head, tail := node, node;
        size := size + 1;
      } else {
        size := size + 1;
        tail.next := node;
        tail := node;
      }
      nodes, contents, Repr := nodes + [node], contents + [data], Repr + {node};
    }

    /** On an empty queue nothing happens and no payload is returned. */
    method Dequeue() returns (data: Option<T>)
      requires Valid()
      modifies this
      ensures Valid() && Repr == old(Repr)
      ensures old(contents) == [] ==> data == None && nodes == old(nodes) && contents == []
      ensures old(contents) != [] ==>
                && data == Some(old(contents)[0])
                && nodes == old(nodes)[1..] && contents == old(contents)[1..]
    {
      if size == 0 {
        return None;
      }
      data := Some(head.data);
      head := head.next;
      size := size - 1;
      nodes, contents := nodes[1..], contents[1..];
    }

    method Peek() returns (data: Option<T>)
      requires Valid()
      ensures data == if contents == [] then None else Some(contents[0])
    {
      data := if size == 0 then None else Some(head.data);
    }

    /** Empties the queue.  `freed` lists, in order, the payloads handed to a free function. */
    method DestroyItems() returns (freed: seq<T>)
      requires Valid()
      modifies this
      ensures Valid() && Repr == old(Repr) && nodes == [] && contents == []
      ensures freed == OwnedPayloads(old(nodes))
    {
      freed := [];
      if size == 0 {
        return;
      }
      var node := head;
      for iter := 0 to size
        invariant Valid() && nodes == old(nodes) && contents == old(contents) && size == old(size) && Repr == old(Repr)
        invariant iter < size ==> node == nodes[iter]
        invariant freed == OwnedPayloads(nodes[..iter])
      {
        assert nodes[..iter + 1][..iter] == nodes[..iter];
        if node.hasFree {
          freed := freed + [node.data];
        }
        node := node.next;
      }
      assert nodes[..size] == nodes;
      head, tail, size, nodes, contents := null, null, 0, [], [];
    }
  }
}
