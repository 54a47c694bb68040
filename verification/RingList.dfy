/** The circular singly linked list of list.c. */
module RingLists {
  import opened MergeSort
  import opened Options

  /** The list's size and positions fit in the int32_t that list_first_occurrence returns. */
  const SIZE_LIMIT: nat := 0x7FFF_FFFF

  /** An int32_t position passed on as uint32_t. */
  function ToUint32(i: int): nat {
    i % 0x1_0000_0000
  }

  /** `data` and `hasFree` (is there a free function?) are written once, when the node is allocated. */
  class RingNode<T> {
    const data: T
    const hasFree: bool
    var next: RingNode?<T>

    constructor (data: T, hasFree: bool)
      ensures this.data == data && this.hasFree == hasFree && next == null
    {
      this.data, this.hasFree, next := data, hasFree, null;
    }
  }

  // ----- Specifications on sequences -----

  function RemoveAt<A>(s: seq<A>, k: nat): seq<A>
    requires k < |s|
  {
    s[..k] + s[k + 1..]
  }

  function InsertAt<A>(s: seq<A>, k: nat, x: A): seq<A>
    requires k <= |s|
  {
    s[..k] + [x] + s[k..]
  }

  /** RemoveAt takes out one element and keeps the order of the others. */
  lemma RemoveAtOrder<A>(s: seq<A>, k: nat)
    requires k < |s|
    ensures var r := RemoveAt(s, k);
      |r| == |s| - 1 && r[..k] == s[..k] && r[k..] == s[k + 1..]
  {
  }

  /** InsertAt puts one element in and keeps all others in order. */
  lemma InsertAtOrder<A>(s: seq<A>, k: nat, x: A)
    requires k <= |s|
    ensures var r := InsertAt(s, k, x);
      |r| == |s| + 1 && r[..k] == s[..k] && r[k] == x && r[k + 1..] == s[k..]
  {
  }

  /** Removing undoes inserting, and inserting undoes removing. */
  lemma InsertRemove<A>(s: seq<A>, k: nat, x: A)
    requires k <= |s|
    ensures RemoveAt(InsertAt(s, k, x), k) == s
    ensures k < |s| ==> InsertAt(RemoveAt(s, k), k, s[k]) == s
  {
    var r := InsertAt(s, k, x);
    assert r[..k] + r[k + 1..] == s;
    assert k < |s| ==> s == s[..k] + [s[k]] + s[k + 1..];
  }

  /** The first element that compares equal to `item`, or -1. */
  function FirstMatch<T, K>(s: seq<T>, item: K, comp: (T, K) -> int): (k: int)
    ensures -1 <= k < |s|
    ensures k >= 0 ==> comp(s[k], item) == 0
    ensures forall i :: 0 <= i < (if k < 0 then |s| else k) ==> comp(s[i], item) != 0
  {
    if s == [] then -1
    else if comp(s[0], item) == 0 then 0
    else
      var k := FirstMatch(s[1..], item, comp);
      assert forall i :: 1 <= i < |s| ==> s[i] == s[1..][i - 1];
      if k < 0 then -1 else k + 1
  }

  /** What list_remove_val removes: the head if it matches, else the tail if it matches, else the first match. */
  function RemovalIndex<T, K>(s: seq<T>, item: K, comp: (T, K) -> int): (k: int)
    requires s != []
    ensures -1 <= k < |s|
    ensures k < 0 <==> forall i :: 0 <= i < |s| ==> comp(s[i], item) != 0
    ensures k >= 0 ==> comp(s[k], item) == 0
    ensures k > 0 ==> comp(s[0], item) != 0
    ensures 0 < k < |s| - 1 ==> comp(s[|s| - 1], item) != 0 && forall i :: 0 <= i < k ==> comp(s[i], item) != 0
  {
    if comp(s[0], item) == 0 then 0
    else if comp(s[|s| - 1], item) == 0 then |s| - 1
    else FirstMatch(s, item, comp)
  }

  class RingList<T, K> {
    /** Compares an element with an item; 0 means a match. */
    const compF: (T, K) -> int
    var head: RingNode?<T>
    var tail: RingNode?<T>
    var size: nat
    ghost var nodes: seq<RingNode<T>>  // the ring, from head to tail
    ghost var contents: seq<T>         // its data
    ghost var Repr: set<object>

    /** An empty list says nothing about its pointers: after a pop they still point at a released node. */
    ghost predicate Valid()
      reads this, Repr
      ensures Valid() ==> this in Repr && size == |nodes| == |contents| <= SIZE_LIMIT
    {
      && this in Repr
      && size == |nodes| == |contents| <= SIZE_LIMIT
      && (forall i :: 0 <= i < |nodes| ==> nodes[i] in Repr && contents[i] == nodes[i].data)
      && (forall i, j :: 0 <= i < j < |nodes| ==> nodes[i] != nodes[j])
      && (forall i {:trigger nodes[i].next} :: 0 <= i < |nodes| - 1 ==> nodes[i].next == nodes[i + 1])
      && (size > 0 ==> head == nodes[0] && tail == nodes[size - 1] && tail.next == head)
    }

    constructor (compF: (T, K) -> int)
      ensures Valid() && fresh(Repr) && this.compF == compF
      ensures nodes == [] && contents == [] && head == null
    {
      this.compF := compF;
      head, tail, size, nodes, contents, Repr := null, null, 0, [], [], {this};
    }

    method Append(data: T, hasFree: bool)
      requires Valid() && size < SIZE_LIMIT
      modifies Repr
      ensures Valid() && |nodes| == old(|nodes|) + 1 && fresh(nodes[|nodes| - 1])
      ensures Repr == old(Repr) + {nodes[|nodes| - 1]}
      ensures nodes[..|nodes| - 1] == old(nodes) && nodes[|nodes| - 1].hasFree == hasFree
      ensures contents == old(contents) + [data]
    {
      var node := new RingNode(data, hasFree);
      assert forall i :: 0 <= i < |nodes| ==> nodes[i] != node;
      if size == 0 {
        head, tail := node, node;
        size := size + 1;
        node.next := head;
      } else {
        tail.next := node;
        tail := node;
        node.next := head;
        size := size + 1;
      }
      nodes, contents, Repr := nodes + [node], contents + [data], Repr + {node};
    }

    method Prepend(data: T, hasFree: bool)
      requires Valid() && size < SIZE_LIMIT
      modifies Repr
      ensures Valid() && |nodes| == old(|nodes|) + 1 && fresh(nodes[0])
      ensures Repr == old(Repr) + {nodes[0]}
      ensures nodes[1..] == old(nodes) && nodes[0].hasFree == hasFree
      ensures contents == [data] + old(contents)
    {
      var node := new RingNode(data, hasFree);
      assert forall i :: 0 <= i < |nodes| ==> nodes[i] != node;
      if size == 0 {
        head, tail := node, node;
        size := size + 1;
        node.next := head;
      } else {
        node.next := head;
        head := node;
        tail.next := head;
        size := size + 1;
      }
      nodes, contents, Repr := [node] + nodes, [data] + contents, Repr + {node};
    }

    /** The walk of list_insert and list_remove. */
    method NodeBefore(idx: nat) returns (curr: RingNode<T>)
      requires Valid() && 0 < idx < size
      ensures curr == nodes[idx - 1]
    {
      curr := head;
      var iter := 0;
      while idx != iter + 1
        invariant iter < idx && curr == nodes[iter]
        decreases idx - iter
      {
        curr := curr.next;
        iter := iter + 1;
      }
    }

    /** A position beyond the end means the end. */
    method Insert(data: T, idx: nat, hasFree: bool)
      requires Valid() && size < SIZE_LIMIT
      modifies Repr
      ensures Valid() && fresh(Repr - old(Repr))
      ensures var k := if idx < old(|nodes|) then idx else old(|nodes|);
        && k < |nodes| && fresh(nodes[k]) && nodes[k].hasFree == hasFree
        && nodes == InsertAt(old(nodes), k, nodes[k])
        && contents == InsertAt(old(contents), k, data)
    {
      if idx == 0 || head == null {
        Prepend(data, hasFree);
        return;
      }
      if size <= idx {
        Append(data, hasFree);
        return;
      }
      var curr := NodeBefore(idx);
      LinkAfter(curr, idx - 1, data, hasFree);
    }

    /** Links a new node between positions k and k + 1. */
    method LinkAfter(curr: RingNode<T>, ghost k: nat, data: T, hasFree: bool)
      requires Valid() && size < SIZE_LIMIT && k + 1 < |nodes| && curr == nodes[k]
      modifies Repr
      ensures Valid() && fresh(Repr - old(Repr))
      ensures k + 1 < |nodes| && fresh(nodes[k + 1]) && nodes[k + 1].hasFree == hasFree
      ensures nodes == InsertAt(old(nodes), k + 1, nodes[k + 1])
      ensures contents == InsertAt(old(contents), k + 1, data)
    {
      var node := new RingNode(data, hasFree);
      node.next := curr.next;
      size := size + 1;
      curr.next := node;
      nodes, contents, Repr := InsertAt(nodes, k + 1, node), InsertAt(contents, k + 1, data), Repr + {node};
    }

    method PopTail() returns (data: Option<T>)
      requires Valid()
      modifies Repr
      ensures Valid() && Repr == old(Repr)
      ensures old(contents) == [] ==> data == None && nodes == old(nodes) && contents == []
      ensures old(contents) != [] ==>
        && data == Some(old(contents)[|old(contents)| - 1])
        && nodes == old(nodes)[..|old(nodes)| - 1] && contents == old(contents)[..|old(contents)| - 1]
    {
      if size == 0 {
        return None;
      }
      var curr := head;
      var iter := 0;
      while curr.next != tail
        invariant iter < size && curr == nodes[iter] && (iter < size - 1 || size == 1)
        decreases size - iter
      {
        curr := curr.next;
        iter := iter + 1;
      }
      data := Some(tail.data);
      tail := curr;
      curr.next := head;
      size := size - 1;
      nodes, contents := nodes[..size], contents[..size];
    }

    method PopHead() returns (data: Option<T>)
      requires Valid()
      modifies Repr
      ensures Valid() && Repr == old(Repr)
      ensures old(contents) == [] ==> data == None && nodes == old(nodes) && contents == []
      ensures old(contents) != [] ==>
        && data == Some(old(contents)[0])
        && nodes == old(nodes)[1..] && contents == old(contents)[1..]
    {
      if size == 0 {
        return None;
      }
      data := Some(head.data);
      head := head.next;
      tail.next := head;
      size := size - 1;
      nodes, contents := nodes[1..], contents[1..];
    }

    method Remove(idx: nat) returns (data: Option<T>)
      requires Valid()
      modifies Repr
      ensures Valid() && Repr == old(Repr)
      ensures idx >= old(|contents|) ==> data == None && nodes == old(nodes) && contents == old(contents)
      ensures idx < old(|contents|) ==>
        && data == Some(old(contents)[idx])
        && nodes == RemoveAt(old(nodes), idx) && contents == RemoveAt(old(contents), idx)
    {
      if size == 0 {
        return None;
      }
      if idx == 0 {
        data := PopHead();
        return;
      }
      if idx == size - 1 {
        data := PopTail();
        return;
      }
      if size <= idx {
        return None;
      }
      var curr := NodeBefore(idx);
      data := UnlinkAfter(curr, idx - 1);
    }

    /** Unlinks the node after position k, which is not the tail. */
    method UnlinkAfter(curr: RingNode<T>, ghost k: nat) returns (data: Option<T>)
      requires Valid() && k + 2 < |nodes| && curr == nodes[k]
      modifies Repr
      ensures Valid() && Repr == old(Repr)
      ensures data == Some(old(contents)[k + 1])
      ensures nodes == RemoveAt(old(nodes), k + 1) && contents == RemoveAt(old(contents), k + 1)
    {
      var removed := curr.next;
      data := Some(removed.data);
      curr.next := removed.next;
      size := size - 1;
      removed.next := null;
      nodes, contents := RemoveAt(nodes, k + 1), RemoveAt(contents, k + 1);
    }

    method Index(idx: nat) returns (data: Option<T>)
      requires Valid()
      ensures data == if idx < |contents| then Some(contents[idx]) else None
    {
      if idx >= size {
        return None;
      }
      data := None;
      var curr := head;
      for iter := 0 to idx + 1
        invariant iter < size ==> curr == nodes[iter]
        invariant curr != null
        invariant iter == idx + 1 ==> data == Some(contents[idx])
      {
        if idx == iter {
          data := Some(curr.data);
        }
        curr := curr.next;
      }
    }

    method FirstOccurrence(item: K) returns (k: int)
      requires Valid()
      ensures k == FirstMatch(contents, item, compF)
    {
      var curr := head;
      for iter := 0 to size
        invariant iter < size ==> curr == nodes[iter]
        invariant forall i :: 0 <= i < iter ==> compF(contents[i], item) != 0
      {
        if compF(curr.data, item) == 0 {
          return iter;
        }
        curr := curr.next;
      }
      return -1;
    }

    method RemoveVal(item: K) returns (data: Option<T>)
      requires Valid() && size > 0
      modifies Repr
      ensures Valid() && Repr == old(Repr)
      ensures var k := RemovalIndex(old(contents), item, compF);
        && (k < 0 ==> data == None && nodes == old(nodes) && contents == old(contents))
        && (k >= 0 ==>
             && data == Some(old(contents)[k])
             && nodes == RemoveAt(old(nodes), k) && contents == RemoveAt(old(contents), k))
    {
      hide RemovalIndex, FirstMatch;
      if compF(head.data, item) == 0 {
        data := PopHead();
        return;
      }
      if compF(tail.data, item) == 0 {
        data := PopTail();
        return;
      }
      var curr := head;
      for iter := 0 to size - 1
        invariant unchanged(this) && unchanged(Repr) && Valid()
        invariant curr == nodes[iter]
        invariant forall i :: 0 <= i <= iter ==> compF(contents[i], item) != 0
      {
        if compF(curr.next.data, item) == 0 {
          data := UnlinkAfter(curr, iter);
          return;
        }
        curr := curr.next;
      }
      return None;
    }

    /** Sorts the ring.  A list that has been popped empty still points at released nodes, and must not be sorted. */
    method MergeSort(cmp: (T, T) -> int) returns (ok: bool)
      requires Valid() && (size == 0 ==> head == null)
      modifies Repr
      ensures ok <==> old(size) >= 2
      ensures ok ==> Valid() && Repr == old(Repr)
      ensures ok ==> nodes == Sort(old(nodes), OnData(cmp)) && contents == Sort(old(contents), cmp)
      ensures old(size) == 0 ==> Valid() && nodes == []
      ensures old(size) == 1 ==> nodes == old(nodes) && head == tail == nodes[0] && head.next == null
    {
      if head == null {
        return false;
      }
      ok := SortRing(cmp);
    }

    /** Opens the ring, sorts it, and closes it again when the sort knows its end. */
    method SortRing(cmp: (T, T) -> int) returns (ok: bool)
      requires Valid() && size > 0
      modifies Repr
      ensures ok <==> old(size) >= 2
      ensures ok ==> Valid() && Repr == old(Repr)
      ensures ok ==> nodes == Sort(old(nodes), OnData(cmp)) && contents == Sort(old(contents), cmp)
      ensures !ok ==> nodes == old(nodes) && head == tail == nodes[0] && head.next == null
    {
      assert tail in Repr;
      OpenRing();
      assert nodes[0] == head && forall x :: x in nodes ==> x in Repr;
      hide *;
      ok := SortAndClose(cmp);
    }

    method SortAndClose(cmp: (T, T) -> int) returns (ok: bool)
      requires this in Repr && 0 < size == |nodes| == |contents| <= SIZE_LIMIT
      requires Chain(head, nodes) && nodes[0] == head && forall x :: x in nodes ==> x in Repr
      requires AllIn(nodes, Repr) && IsDataOf(contents, nodes)
      modifies this, nodes
      ensures ok <==> old(size) >= 2
      ensures ok ==> Valid() && Repr == old(Repr)
      ensures ok ==> nodes == Sort(old(nodes), OnData(cmp)) && contents == Sort(old(contents), cmp)
      ensures !ok ==> nodes == old(nodes) && head == old(head) && tail == old(tail) && head.next == null
    {
      hide *;
      ghost var ns, cs := Sort(nodes, OnData(cmp)), Sort(contents, cmp);
      SortStaysIn(nodes, Repr, cmp);
      SortKeepsMembers<RingNode<T>>(nodes, OnData(cmp));
      SortOnData(nodes, contents, cmp);
      var last := SortOpened(cmp);
      if last == null {
        return false;
      }
      CloseRing(last, ns, cs);
      ok := true;
    }

    /** Sorts the opened ring; `last` is its end, when there was something to merge. */
    method SortOpened(cmp: (T, T) -> int) returns (last: RingNode?<T>)
      requires 0 < size == |nodes| && Chain(head, nodes)
      modifies this`head, nodes
      ensures Chain(head, Sort(nodes, OnData(cmp)))
      ensures last == if size == 1 then null else Sort(nodes, OnData(cmp))[size - 1]
      ensures size == 1 ==> head == old(head) && head.next == null
    {
      head, last := NodeMergeSort(head, size, null, nodes, cmp);
    }

    /** Makes a null-terminated chain of the ring. */
    method OpenRing()
      requires Valid() && size > 0
      modifies tail
      ensures Chain(head, nodes)
      ensures tail in Repr && AllIn(nodes, Repr) && IsDataOf(contents, nodes)
      ensures size == 1 ==> head == tail == nodes[0]
    {
      tail.next := null;
    }

    /** Makes a ring of the chain that starts at `head`. */
    method CloseRing(last: RingNode<T>, ghost ns: seq<RingNode<T>>, ghost cs: seq<T>)
      requires this in Repr && Chain(head, ns) && ns != [] && |ns| == |cs| == size <= SIZE_LIMIT
      requires last == ns[|ns| - 1]
      requires AllIn(ns, Repr) && IsDataOf(cs, ns)
      modifies this`tail, this`nodes, this`contents, last
      ensures Valid() && nodes == ns && contents == cs
    {
      tail := last;
      tail.next := head;
      nodes, contents := ns, cs;
    }
  }

  /** The comparison as the sort sees it. */
  function OnData<T>(cmp: (T, T) -> int): (RingNode<T>, RingNode<T>) -> int {
    (a: RingNode<T>, b: RingNode<T>) => cmp(a.data, b.data)
  }

  ghost predicate IsDataOf<T>(cs: seq<T>, ns: seq<RingNode<T>>) {
    |cs| == |ns| && forall i :: 0 <= i < |ns| ==> cs[i] == ns[i].data
  }

  ghost predicate AllIn<T>(ns: seq<RingNode<T>>, repr: set<object>) {
    forall i :: 0 <= i < |ns| ==> ns[i] in repr
  }

  lemma SortStaysIn<T>(ns: seq<RingNode<T>>, repr: set<object>, cmp: (T, T) -> int)
    requires AllIn(ns, repr)
    ensures AllIn(Sort(ns, OnData(cmp)), repr)
  {
    SortKeepsMembers<RingNode<T>>(ns, OnData(cmp));
  }

  /** Sorting nodes by their data sorts the data. */
  lemma {:induction false} SortOnData<T>(ns: seq<RingNode<T>>, cs: seq<T>, cmp: (T, T) -> int)
    requires IsDataOf(cs, ns)
    ensures IsDataOf(Sort(cs, cmp), Sort(ns, OnData(cmp)))
    decreases |ns|
  {
    if |ns| > 1 {
      var h := |ns| / 2;
      SortOnData(ns[..h], cs[..h], cmp);
      SortOnData(ns[h..], cs[h..], cmp);
      MergeOnData(Sort(ns[..h], OnData(cmp)), Sort(ns[h..], OnData(cmp)), Sort(cs[..h], cmp), Sort(cs[h..], cmp), cmp);
    }
  }

  lemma {:induction false} MergeOnData<T>(ls: seq<RingNode<T>>, rs: seq<RingNode<T>>, cl: seq<T>, cr: seq<T>,
                                              cmp: (T, T) -> int)
    requires IsDataOf(cl, ls) && IsDataOf(cr, rs)
    ensures IsDataOf(Merge(cl, cr, cmp), Merge(ls, rs, OnData(cmp)))
    decreases |ls| + |rs|
  {
    if ls != [] && rs != [] {
      if cmp(cl[0], cr[0]) <= 0 {
        MergeOnData(ls[1..], rs, cl[1..], cr, cmp);
      } else {
        MergeOnData(rs[1..], ls, cr[1..], cl, cmp);
      }
    }
  }

  /** p starts a null-terminated chain of exactly the nodes s. */
  ghost predicate Chain<T>(p: RingNode?<T>, s: seq<RingNode<T>>)
    reads s
  {
    && (s == [] ==> p == null)
    && (s != [] ==> p == s[0] && s[|s| - 1].next == null)
    && (forall i {:trigger s[i].next} :: 0 <= i < |s| - 1 ==> s[i].next == s[i + 1])
    && (forall i, j :: 0 <= i < j < |s| ==> s[i] != s[j])
  }

  /** Walks to the end of a chain. */
  method LastOf<T>(p: RingNode<T>, ghost s: seq<RingNode<T>>) returns (last: RingNode<T>)
    requires s != [] && Chain(p, s)
    ensures last == s[|s| - 1]
  {
    last := p;
    ghost var k := 0;
    while last.next != null
      invariant k < |s| && last == s[k]
      decreases |s| - k
    {
      last := last.next;
      k := k + 1;
    }
  }

  lemma ChainTail<T>(p: RingNode<T>, s: seq<RingNode<T>>)
    requires s != [] && Chain(p, s)
    ensures p == s[0] && Chain(p.next, s[1..]) && p !in s[1..]
  {
  }

  method LinkFront<T>(front: RingNode<T>, rest: RingNode<T>, ghost s: seq<RingNode<T>>)
    requires s != [] && Chain(rest, s) && front !in s
    modifies front
    ensures Chain(front, [front] + s)
  {
    front.next := rest;
  }

  /** Relinks two disjoint chains into one; `last` is its end. */
  method MergeChains<T>(left: RingNode?<T>, right: RingNode?<T>, ghost ls: seq<RingNode<T>>, ghost rs: seq<RingNode<T>>,
                        cmp: (T, T) -> int) returns (first: RingNode<T>, last: RingNode<T>)
    requires Chain(left, ls) && Chain(right, rs) && ls + rs != []
    requires forall x :: x in ls ==> x !in rs
    modifies ls, rs
    ensures Chain(first, Merge(ls, rs, OnData(cmp)))
    ensures last == Merge(ls, rs, OnData(cmp))[|ls| + |rs| - 1]
    decreases |ls| + |rs|, 1
  {
    if left == null {
      last := LastOf(right, rs);
      return right, last;
    }
    if right == null {
      last := LastOf(left, ls);
      return left, last;
    }
    MergeUnfold(ls, rs, OnData(cmp));
    hide Merge;
    if cmp(left.data, right.data) <= 0 {
      last := TakeFront(left, right, ls, rs, cmp);
      return left, last;
    }
    last := TakeFront(right, left, rs, ls, cmp);
    return right, last;
  }

  lemma MergeUnfold<A>(ls: seq<A>, rs: seq<A>, cmp: (A, A) -> int)
    requires ls != [] && rs != []
    ensures Merge(ls, rs, cmp) ==
      if cmp(ls[0], rs[0]) <= 0 then [ls[0]] + Merge(ls[1..], rs, cmp) else [rs[0]] + Merge(rs[1..], ls, cmp)
  {
  }

  /** The node `front` of one chain goes first; the merge of its tail with the other chain is linked behind it. */
  method TakeFront<T>(front: RingNode<T>, other: RingNode<T>, ghost fs: seq<RingNode<T>>, ghost os: seq<RingNode<T>>,
                      cmp: (T, T) -> int) returns (last: RingNode<T>)
    requires fs != [] && os != [] && Chain(front, fs) && Chain(other, os)
    requires forall x :: x in fs ==> x !in os
    modifies fs, os
    ensures Chain(front, [front] + Merge(fs[1..], os, OnData(cmp)))
    ensures last == Merge(fs[1..], os, OnData(cmp))[|fs| + |os| - 2]
    decreases |fs| + |os|, 0
  {
    hide Merge, Chain;
    ChainTail(front, fs);
    var rest;
    rest, last := MergeChains(front.next, other, fs[1..], os, cmp);
    MergeKeepsOut<RingNode<T>>(fs[1..], os, OnData(cmp), front);
    LinkFront(front, rest, Merge(fs[1..], os, OnData(cmp)));
  }

  lemma MergeKeepsOut<A>(ls: seq<A>, rs: seq<A>, cmp: (A, A) -> int, x: A)
    requires x !in ls && x !in rs
    ensures x !in Merge(ls, rs, cmp)
  {
    MergePermutes(ls, rs, cmp);
    assert x !in multiset(Merge(ls, rs, cmp));
  }

  /** The loop of node_merge_sort: cuts a chain in two and finds its end. */
  method CutChain<T>(node: RingNode<T>, size: nat, ghost s: seq<RingNode<T>>)
    returns (right: RingNode<T>, last: RingNode<T>)
    requires |s| == size >= 2 && Chain(node, s)
    modifies s
    ensures Chain(node, s[..size / 2]) && Chain(right, s[size / 2..])
    ensures last == s[size - 1]
  {
    var halfSize := size / 2;
    var curr := node;
    right := node;
    var iter := 0;
    while size != iter + 1
      invariant iter < size && curr == s[iter]
      invariant iter >= halfSize ==> right == s[halfSize]
      invariant forall i {:trigger s[i].next} :: 0 <= i < size - 1 ==>
        s[i].next == if i == halfSize - 1 < iter then null else s[i + 1]
      invariant s[size - 1].next == null
      decreases size - iter
    {
      if halfSize == iter + 1 {
        right := curr.next;
        var leftTail := curr;
        curr := curr.next;
        leftTail.next := null;
      } else {
        curr := curr.next;
      }
      iter := iter + 1;
    }
    last := curr;
    last.next := null;
  }

  /** Sorts a chain.  `tail` is only replaced when there is something to merge. */
  method NodeMergeSort<T>(node: RingNode<T>, size: nat, tail: RingNode?<T>, ghost s: seq<RingNode<T>>,
                          cmp: (T, T) -> int)
    returns (first: RingNode<T>, last: RingNode?<T>)
    requires |s| == size > 0 && Chain(node, s)
    modifies s
    ensures Chain(first, Sort(s, OnData(cmp)))
    ensures last == if size == 1 then tail else Sort(s, OnData(cmp))[size - 1]
    ensures size == 1 ==> first == node && node.next == null
    decreases size, 3
  {
    if size == 1 {
      return node, tail;
    }
    hide *;
    first, last := CutAndSort(node, size, s, cmp);
  }

  /** Cuts a chain in two, sorts the halves and merges them. */
  method CutAndSort<T>(node: RingNode<T>, size: nat, ghost s: seq<RingNode<T>>, cmp: (T, T) -> int)
    returns (first: RingNode<T>, last: RingNode<T>)
    requires |s| == size > 1 && Chain(node, s)
    modifies s
    ensures Chain(first, Sort(s, OnData(cmp))) && last == Sort(s, OnData(cmp))[size - 1]
    decreases size, 2
  {
    hide *;
    SortUnfold(s, OnData(cmp));
    var halfSize := size / 2;
    ghost var ls, rs := s[..halfSize], s[halfSize..];
    HalvesDisjoint(node, s, halfSize);
    var right, end := CutChain(node, size, s);
    first, last := SortAndMerge(node, right, halfSize, size - halfSize, end, ls, rs, cmp);
  }

  /** The two recursive calls of node_merge_sort, and the merge. */
  method SortAndMerge<T>(left: RingNode<T>, right: RingNode<T>, leftSize: nat, rightSize: nat, tail: RingNode?<T>,
                         ghost ls: seq<RingNode<T>>, ghost rs: seq<RingNode<T>>, cmp: (T, T) -> int)
    returns (first: RingNode<T>, last: RingNode<T>)
    requires |ls| == leftSize > 0 && Chain(left, ls) && |rs| == rightSize > 0 && Chain(right, rs)
    requires forall x :: x in ls ==> x !in rs
    modifies ls, rs
    ensures Chain(first, Merge(Sort(ls, OnData(cmp)), Sort(rs, OnData(cmp)), OnData(cmp)))
    ensures last == Merge(Sort(ls, OnData(cmp)), Sort(rs, OnData(cmp)), OnData(cmp))[leftSize + rightSize - 1]
    decreases leftSize + rightSize, 1
  {
    hide Sort, Merge, OnData, Chain;
    var left', right' := SortHalves(left, right, leftSize, rightSize, tail, ls, rs, cmp);
    SortKeepsMembers<RingNode<T>>(ls, OnData(cmp));
    SortKeepsMembers<RingNode<T>>(rs, OnData(cmp));
    first, last := MergeChains(left', right', Sort(ls, OnData(cmp)), Sort(rs, OnData(cmp)), cmp);
  }

  /** The two recursive calls of node_merge_sort. */
  method SortHalves<T>(left: RingNode<T>, right: RingNode<T>, leftSize: nat, rightSize: nat, tail: RingNode?<T>,
                       ghost ls: seq<RingNode<T>>, ghost rs: seq<RingNode<T>>, cmp: (T, T) -> int)
    returns (left': RingNode<T>, right': RingNode<T>)
    requires |ls| == leftSize > 0 && Chain(left, ls) && |rs| == rightSize > 0 && Chain(right, rs)
    requires forall x :: x in ls ==> x !in rs
    modifies ls, rs
    ensures Chain(left', Sort(ls, OnData(cmp))) && Chain(right', Sort(rs, OnData(cmp)))
    decreases leftSize + rightSize, 0
  {
    hide Sort;
    SortKeepsMembers<RingNode<T>>(ls, OnData(cmp));
    ghost var sl := Sort(ls, OnData(cmp));
    assert forall i :: 0 <= i < |sl| ==> sl[i] !in rs;
    assert forall i :: 0 <= i < |rs| ==> rs[i] !in ls;
    var last;
    left', last := NodeMergeSort(left, leftSize, tail, ls, cmp);
    right', last := NodeMergeSort(right, rightSize, last, rs, cmp);
  }

  lemma HalvesDisjoint<T>(p: RingNode<T>, s: seq<RingNode<T>>, h: nat)
    requires Chain(p, s) && h <= |s|
    ensures forall x :: x in s[..h] ==> x !in s[h..]
    ensures forall x :: x in s[..h] || x in s[h..] ==> x in s
  {
  }

  lemma SortKeepsMembers<A>(s: seq<A>, cmp: (A, A) -> int)
    ensures forall x :: x in Sort(s, cmp) <==> x in s
    ensures forall i :: 0 <= i < |s| ==> Sort(s, cmp)[i] in s
  {
    SortPermutes(s, cmp);
    forall i | 0 <= i < |s| ensures Sort(s, cmp)[i] in s {
      assert Sort(s, cmp)[i] in multiset(Sort(s, cmp));
    }
    forall x ensures x in Sort(s, cmp) <==> x in s {
      assert x in multiset(s) <==> x in multiset(Sort(s, cmp));
    }
  }
}
