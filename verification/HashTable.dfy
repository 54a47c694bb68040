/** The chained hash table of htable.c: an array of lists, created when their bucket is first used. */
module HashTables {
  import opened HashSpec
  import opened Options
  import opened RingLists

  /** What a bucket holds; no list at all is an empty bucket. */
  ghost predicate Holds<T, K>(list: RingList?<T, K>, chain: seq<T>, comp: (T, K) -> int)
    reads if list == null then {} else {list} + list.Repr
  {
    if list == null then chain == []
    else list.Valid() && list.contents == chain && list.compF == comp
  }

  class HTable<!K, !C, V> {
    const ops: KeyOps<K, C>
    var buckets: array<RingList?<Entry<K, V>, K>>
    var capacity: nat
    var maxSize: nat
    var currSize: int
    ghost var chains: seq<seq<Entry<K, V>>>  // the contents of the buckets
    ghost var Repr: set<object>

    ghost predicate Valid()
      reads this, Repr
      ensures Valid() ==> this in Repr && 0 < capacity == buckets.Length == |chains|
    {
      && this in Repr && buckets in Repr
      && 0 < capacity == buckets.Length == |chains|
      && (forall b :: 0 <= b < capacity && buckets[b] != null ==>
           buckets[b] in Repr && buckets[b].Repr <= Repr && this !in buckets[b].Repr && buckets !in buckets[b].Repr)
      && (forall b :: 0 <= b < capacity ==> Holds(buckets[b], chains[b], EntryComp(ops)))
      && (forall i, j :: 0 <= i < j < capacity && buckets[i] != null && buckets[j] != null ==>
           buckets[i].Repr !! buckets[j].Repr)
    }

    ghost function View(): Table<K, V>
      reads this
    {
      Table(chains, currSize, maxSize)
    }

    /** htable_create: two buckets, and room for one entry. */
    constructor (ops: KeyOps<K, C>)
      ensures Valid() && fresh(Repr) && this.ops == ops && View() == NewTable()
    {
      this.ops := ops;
      buckets := new RingList?<Entry<K, V>, K>[START_CAPACITY](_ => null);
      capacity, maxSize, currSize := START_CAPACITY, MaxSize(START_CAPACITY), 0;
      chains := EmptyChains(START_CAPACITY);
      new;
      Repr := {this, buckets};
    }

    method Find(key: K) returns (found: Option<Entry<K, V>>)
      requires Valid()
      ensures found == HashSpec.Find(ops, View(), key)
    {
      var b := ops.hash(key, capacity) % capacity;
      var list := buckets[b];
      assert Holds(list, chains[b], EntryComp(ops));
      hide RingList<Entry<K, V>, K>.Valid, EntryComp, FirstMatch;
      if list == null {
        return None;
      }
      var k := list.FirstOccurrence(key);
      found := list.Index(ToUint32(k));
    }

    /** No other list is in the way of a change to the list of bucket b. */
    lemma Apart(b: nat)
      requires Valid() && b < capacity
      ensures buckets[b] != null ==> forall i :: 0 <= i < capacity && i != b && buckets[i] != null ==>
        buckets[i] !in buckets[b].Repr && buckets[i].Repr !! buckets[b].Repr
    {
      hide RingList<Entry<K, V>, K>.Valid;
      assert forall i :: 0 <= i < capacity ==> Holds(buckets[i], chains[i], EntryComp(ops));
    }

    /** htable_node_insert. */
    method NodeInsert(e: Entry<K, V>)
      requires Valid() && Total(chains) < SIZE_LIMIT
      modifies Repr
      ensures Valid() && fresh(Repr - old(Repr))
      ensures View() == Table(Place(ops, old(chains), e), old(currSize) + 1, old(maxSize))
      ensures forall b :: 0 <= b < |chains| ==>
        chains[b] == if b == Bucket(ops, e.key, capacity) then [e] + old(chains)[b] else old(chains)[b]
    {
      hide RingList<Entry<K, V>, K>.Valid, Total, EntryComp;
      var b := ops.hash(e.key, capacity) % capacity;
      assert b == Bucket(ops, e.key, capacity);
      ChainWithinTotal(chains, b);
      Apart(b);
      hide Bucket;
      var list := buckets[b];
      assert Holds(list, chains[b], EntryComp(ops));
      if list == null {
        list := new RingList(EntryComp(ops));
      }
      list.Prepend(e, true);
      assert forall i :: 0 <= i < capacity && i != b ==> Holds(buckets[i], chains[i], EntryComp(ops));
      assert forall i :: 0 <= i < capacity && i != b && buckets[i] != null ==>
        list != buckets[i] && buckets[i].Repr !! list.Repr;
      StoreGrown(b, list, [e] + chains[b]);
    }

    /** Stores the list of bucket b, which has one entry more; the other buckets stay. */
    method StoreGrown(b: nat, list: RingList<Entry<K, V>, K>, ghost chain: seq<Entry<K, V>>)
      requires this in Repr && buckets in Repr && b < capacity == buckets.Length == |chains|
      requires forall i :: 0 <= i < capacity && i != b && buckets[i] != null ==>
        && buckets[i] in Repr && buckets[i].Repr <= Repr && this !in buckets[i].Repr && buckets !in buckets[i].Repr
        && list != buckets[i] && buckets[i].Repr !! list.Repr
      requires forall i :: 0 <= i < capacity && i != b ==> Holds(buckets[i], chains[i], EntryComp(ops))
      requires forall i, j :: 0 <= i < j < capacity && i != b && j != b && buckets[i] != null && buckets[j] != null ==>
        buckets[i].Repr !! buckets[j].Repr
      requires Holds(list, chain, EntryComp(ops)) && this !in list.Repr && buckets !in list.Repr
      modifies this`chains, this`Repr, this`currSize, buckets
      ensures Valid() && Repr == old(Repr) + list.Repr
      ensures chains == old(chains)[b := chain] && currSize == old(currSize) + 1
    {
      hide RingList<Entry<K, V>, K>.Valid, EntryComp;
      buckets[b] := list;
      currSize := currSize + 1;
      chains, Repr := chains[b := chain], Repr + list.Repr;
    }

    /** Pops the head of a bucket that is not empty. */
    method PopFrom(b: nat) returns (e: Entry<K, V>)
      requires Valid() && b < capacity && chains[b] != []
      modifies Repr
      ensures Valid() && Repr == old(Repr)
      ensures capacity == old(capacity) && currSize == old(currSize) && buckets == old(buckets)
      ensures buckets[b] != null && buckets[b].size == |chains[b]|
      ensures e == old(chains)[b][0] && chains == old(chains)[b := old(chains)[b][1..]]
    {
      hide RingList<Entry<K, V>, K>.Valid;
      Apart(b);
      assert Holds(buckets[b], chains[b], EntryComp(ops));
      var popped := buckets[b].PopHead();
      e := popped.value;
      assert forall i :: 0 <= i < capacity && i != b ==> Holds(buckets[i], chains[i], EntryComp(ops));
      chains := chains[b := chains[b][1..]];
    }

    /** Gives a new table n buckets. */
    method Enlarge(n: nat)
      requires Valid() && n > 0 && View() == NewTable()
      modifies this
      ensures Valid() && fresh(Repr - old(Repr))
      ensures View() == Table(EmptyChains(n), old(currSize), MaxSize(n))
    {
      buckets := new RingList?<Entry<K, V>, K>[n](_ => null);
      capacity, maxSize := n, MaxSize(n);
      chains, Repr := EmptyChains(n), {this, buckets};
    }

    /** The inner loop of htable_rehash: empties one bucket into another table. */
    method MoveBucket(b: nat, table: HTable<K, C, V>)
      requires Valid() && b < capacity && buckets[b] != null && buckets[b].size == |chains[b]|
      requires table.Valid() && Repr !! table.Repr && table.ops == ops
      requires Total(chains) + Total(table.chains) < SIZE_LIMIT
      modifies Repr, table.Repr
      ensures Valid() && Repr == old(Repr) && capacity == old(capacity) && currSize == old(currSize)
      ensures table.Valid() && fresh(table.Repr - old(table.Repr))
      ensures chains == old(chains)[b := []]
      ensures table.chains == PlaceAll(ops, old(table.chains), old(chains)[b])
      ensures Total(chains) + Total(table.chains) == old(Total(chains) + Total(table.chains))
      ensures table.maxSize == old(table.maxSize)
      ensures table.currSize - Total(table.chains) == old(table.currSize - Total(table.chains))
    {
      hide Total, Place, PlaceAll, HTable<K, C, V>.Valid;
      while buckets[b].size > 0
        invariant Valid() && Repr == old(Repr) && capacity == old(capacity) && currSize == old(currSize)
        invariant buckets[b] != null && |chains[b]| == buckets[b].size
        invariant table.Valid() && fresh(table.Repr - old(table.Repr))
        invariant chains == old(chains)[b := chains[b]]
        invariant PlaceAll(ops, table.chains, chains[b]) == PlaceAll(ops, old(table.chains), old(chains)[b])
        invariant Total(chains) + Total(table.chains) == old(Total(chains) + Total(table.chains))
        invariant table.maxSize == old(table.maxSize)
        invariant table.currSize - Total(table.chains) == old(table.currSize - Total(table.chains))
        decreases |chains[b]|
      {
        PlaceAllUnfold(ops, table.chains, chains[b]);
        MoveHead(b, table);
      }
      PlaceNothing(ops, table.chains);
    }

    /** Pops the head of a bucket and inserts it into another table. */
    method MoveHead(b: nat, table: HTable<K, C, V>)
      requires Valid() && b < capacity && chains[b] != [] && table.Valid() && Repr !! table.Repr && table.ops == ops
      requires Total(chains) + Total(table.chains) < SIZE_LIMIT
      modifies Repr, table.Repr
      ensures Valid() && Repr == old(Repr)
      ensures capacity == old(capacity) && currSize == old(currSize) && buckets == old(buckets)
      ensures buckets[b] != null && |chains[b]| == buckets[b].size
      ensures table.Valid() && fresh(table.Repr - old(table.Repr))
      ensures chains == old(chains)[b := old(chains)[b][1..]]
      ensures table.View() ==
        Table(Place(ops, old(table.chains), old(chains)[b][0]), old(table.currSize) + 1, old(table.maxSize))
      ensures Total(chains) == old(Total(chains)) - 1
      ensures Total(table.chains) == old(Total(table.chains)) + 1
    {
      hide Total, Place, RingList<Entry<K, V>, K>.Valid;
      PopTotal(chains, b);
      PlaceTotal(ops, table.chains, chains[b][0]);
      var e := PopFrom(b);
      hide HTable<K, C, V>.Valid;
      table.NodeInsert(e);
    }

    /** One turn of the outer loop of htable_rehash: a bucket without entries is skipped. */
    method MoveNext(idx: nat, table: HTable<K, C, V>)
      requires Valid() && idx < capacity && table.Valid() && Repr !! table.Repr && table.ops == ops
      requires Total(chains) + Total(table.chains) < SIZE_LIMIT
      modifies Repr, table.Repr
      ensures Valid() && Repr == old(Repr) && capacity == old(capacity) && currSize == old(currSize)
      ensures table.Valid() && fresh(table.Repr - old(table.Repr))
      ensures MoveAll(ops, chains[idx + 1..], table.chains) == MoveAll(ops, old(chains)[idx..], old(table.chains))
      ensures Total(chains) + Total(table.chains) == old(Total(chains) + Total(table.chains))
      ensures table.maxSize == old(table.maxSize)
      ensures table.currSize - Total(table.chains) == old(table.currSize - Total(table.chains))
    {
      hide Total, PlaceAll, RingList<Entry<K, V>, K>.Valid;
      assert Holds(buckets[idx], chains[idx], EntryComp(ops));
      assert chains[idx..][1..] == chains[idx + 1..];
      if buckets[idx] == null || buckets[idx].size == 0 {
        PlaceNothing(ops, table.chains);
        return;
      }
      hide HTable<K, C, V>.Valid;
      MoveBucket(idx, table);
    }

    /** The outer loop of htable_rehash. */
    method MoveBuckets(table: HTable<K, C, V>)
      requires Valid() && table.Valid() && Repr !! table.Repr && table.ops == ops
      requires Total(chains) + Total(table.chains) < SIZE_LIMIT
      modifies Repr, table.Repr
      ensures table.Valid() && fresh(table.Repr - old(table.Repr))
      ensures table.chains == MoveAll(ops, old(chains), old(table.chains))
      ensures table.maxSize == old(table.maxSize)
      ensures table.currSize - Total(table.chains) == old(table.currSize - Total(table.chains))
    {
      hide Total, MoveAll, HTable<K, C, V>.Valid;
      assert chains[0..] == chains;
      for idx := 0 to capacity
        invariant Valid() && Repr == old(Repr) && capacity == old(capacity)
        invariant table.Valid() && fresh(table.Repr - old(table.Repr))
        invariant idx <= |chains| && 0 < |table.chains|
        invariant MoveAll(ops, chains[idx..], table.chains) == MoveAll(ops, old(chains), old(table.chains))
        invariant Total(chains) + Total(table.chains) == old(Total(chains) + Total(table.chains))
        invariant table.maxSize == old(table.maxSize)
        invariant table.currSize - Total(table.chains) == old(table.currSize - Total(table.chains))
      {
        MoveNext(idx, table);
      }
      assert chains[capacity..] == [];
      MoveNothing(ops, table.chains);
    }

    /** htable_rehash: a table that has room is given up, and there is no new one. */
    method Rehash() returns (grown: HTable?<K, C, V>)
      requires Valid() && currSize == Total(chains) < SIZE_LIMIT && 0 < Doubled(capacity)
      modifies Repr
      ensures grown != null <==> old(NeedsRehash(View()))
      ensures grown != null ==> grown.Valid() && fresh(grown.Repr) && grown.ops == ops
      ensures grown != null ==> grown.View() == HashSpec.Rehash(ops, old(View()))
    {
      if maxSize >= currSize + 1 {
        return null;
      }
      RehashTotal(ops, View());
      hide MaxSize, Doubled, Total, MoveAll, EmptyChains, HTable<K, C, V>.Valid;
      var table := NewTableOf(Doubled(capacity));
      MoveBuckets(table);
      grown := table;
    }

    /** A table of n buckets without entries. */
    method NewTableOf(n: nat) returns (table: HTable<K, C, V>)
      requires n > 0
      ensures table.Valid() && fresh(table.Repr) && table.ops == ops
      ensures table.View() == Table(EmptyChains(n), 0, MaxSize(n)) && Total(table.chains) == 0
    {
      hide HTable<K, C, V>.Valid;
      EmptyBag<K, V>(n);
      table := new HTable(ops);
      table.Enlarge(n);
    }

    /** htable_insert, on the table the caller refers to; the table after it may be another one. */
    static method Insert(table: HTable<K, C, V>, e: Entry<K, V>) returns (after: HTable<K, C, V>, ok: bool)
      requires table.Valid() && Usable(table.View())
      requires table.currSize == Total(table.chains) < SIZE_LIMIT
      modifies table.Repr
      ensures after.Valid() && after.ops == table.ops && fresh(after.Repr - old(table.Repr))
      ensures after.View() == HashSpec.Insert(table.ops, old(table.View()), e)
      ensures ok <==> HashSpec.Find(table.ops, old(table.View()), e.key) == None
      ensures !ok ==> after == table
    {
      hide Total, MoveAll, MaxSize, Doubled, FirstMatch, HTable<K, C, V>.Valid;
      after := table;
      var found := table.Find(e.key);
      hide HashSpec.Find;
      if found.Some? {
        return table, false;
      }
      if table.maxSize < table.currSize + 1 {
        RehashTotal(table.ops, table.View());
        after := table.Rehash();
      }
      after.NodeInsert(e);
      ok := true;
    }

    method Remove(key: K) returns (removed: Option<Entry<K, V>>)
      requires Valid()
      modifies Repr
      ensures Valid() && fresh(Repr - old(Repr))
      ensures removed == HashSpec.Find(ops, old(View()), key)
      ensures View() == HashSpec.Remove(ops, old(View()), key)
    {
      removed := Find(key);
      if removed == None {
        return;
      }
      var b := ops.hash(key, capacity) % capacity;
      removed := RemoveFrom(b, key);
    }

    /** Removes the first entry of a bucket that compares equal. */
    method RemoveFrom(b: nat, key: K) returns (removed: Option<Entry<K, V>>)
      requires Valid() && b < capacity && FirstMatch(chains[b], key, EntryComp(ops)) >= 0
      modifies Repr
      ensures Valid() && Repr == old(Repr) && maxSize == old(maxSize)
      ensures var k := FirstMatch(old(chains)[b], key, EntryComp(ops));
        && removed == Some(old(chains)[b][k])
        && chains == old(chains)[b := RemoveAt(old(chains)[b], k)] && currSize == old(currSize) - 1
    {
      hide RingList<Entry<K, V>, K>.Valid, FirstMatch, EntryComp, RemoveAt;
      Apart(b);
      assert Holds(buckets[b], chains[b], EntryComp(ops));
      var k := buckets[b].FirstOccurrence(key);
      removed := buckets[b].Remove(ToUint32(k));
      assert Holds(buckets[b], RemoveAt(chains[b], k), EntryComp(ops));
      assert forall i :: 0 <= i < capacity && i != b ==> Holds(buckets[i], chains[i], EntryComp(ops));
      currSize := currSize - 1;
      chains := chains[b := RemoveAt(chains[b], k)];
    }
  }
}
