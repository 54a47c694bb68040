/** What the chained hash table of htable.c computes, on sequences of buckets: it refines a finite map, a rehash
    moves every entry to its place, and growing is paid for by inserting. */
module HashSpec {
  import opened Options
  import opened Powers
  import opened RingLists

  const UINT32: nat := 0x1_0000_0000
  const START_CAPACITY: nat := 2
  const LOAD_FACT_NUM: nat := 3
  const LOAD_FACT_DENOM: nat := 4

  /** The hash and comparison that the table is created with.  `name` says what the comparison identifies: two keys
      with the same name are one key.  It occurs in specifications only. */
  datatype KeyOps<!K, !C> = KeyOps(hash: (K, nat) -> nat, comp: (K, K) -> int, name: K -> C)

  /** Keys that compare equal have the same name and hash alike. */
  ghost predicate Lawful<K(!new), C(!new)>(ops: KeyOps<K, C>) {
    && (forall k, l :: ops.comp(k, l) == 0 <==> ops.name(k) == ops.name(l))
    && (forall k, l, size :: ops.name(k) == ops.name(l) ==> ops.hash(k, size) == ops.hash(l, size))
  }

  /** An htable_node_t, written once when it is inserted. */
  datatype Entry<K, V> = Entry(key: K, value: V, hasFree: bool)

  function EntryComp<K, C, V>(ops: KeyOps<K, C>): (Entry<K, V>, K) -> int {
    (e: Entry<K, V>, k: K) => ops.comp(e.key, k)
  }

  function Bucket<K, C>(ops: KeyOps<K, C>, key: K, capacity: nat): (b: nat)
    requires capacity > 0
    ensures b < capacity
  {
    ops.hash(key, capacity) % capacity
  }

  // ----- Capacity and load, in 32-bit arithmetic -----

  function MaxSize(capacity: nat): nat {
    ((capacity * LOAD_FACT_NUM) % UINT32) / LOAD_FACT_DENOM
  }

  function Doubled(capacity: nat): nat {
    (capacity * 2) % UINT32
  }

  const LAST_CAPACITY: nat := 0x4000_0000

  /** Up to 2^30 buckets the maximum load is three quarters of the capacity, without overflow. */
  lemma MaxSizeIsThreeQuarters(capacity: nat)
    requires capacity <= LAST_CAPACITY
    ensures capacity * LOAD_FACT_NUM < UINT32 && Doubled(capacity) == 2 * capacity
    ensures MaxSize(capacity) == 3 * capacity / 4
  {
  }

  /** One doubling of 2^n buckets makes room for another entry exactly when the new capacity is at most 2^30: with
      2^31 buckets `capacity * 3` overflows. */
  lemma DoublingMakesRoomIff(n: nat)
    requires 1 <= n <= 31
    ensures MaxSize(Doubled(Pow2(n))) > MaxSize(Pow2(n)) <==> n < 30
  {
    Pow2Values();
    hide Pow2;
    if n < 30 {
      Pow2Grows(n, 30);
      Pow2Grows(0, n);
      hide MaxSize, Doubled;
      MaxSizeIsThreeQuarters(Pow2(n));
      MaxSizeIsThreeQuarters(2 * Pow2(n));
    } else {
      assert n == 30 || n == 31;
    }
  }

  /** A power of two from 2 to 2^30. */
  ghost predicate IsCapacity(c: nat) {
    exists n :: 1 <= n <= 30 && c == Pow2(n)
  }

  lemma CapacityShape(c: nat)
    requires IsCapacity(c)
    ensures 2 <= c <= LAST_CAPACITY && (c == 2 || c % 4 == 0)
  {
    var n :| 1 <= n <= 30 && c == Pow2(n);
    if n > 1 {
      Pow2OfMore(n);
    }
    Pow2Values();
    if n < 30 {
      Pow2Grows(n, 30);
    }
    hide Pow2;
  }

  lemma Pow2OfMore(n: nat)
    requires n > 1
    ensures Pow2(n) % 4 == 0
  {
    var p := Pow2(n - 2);
    assert Pow2(n - 1) == 2 * p;
    assert Pow2(n) == 4 * p;
    hide Pow2;
  }

  lemma CapacityDoubles(c: nat)
    requires IsCapacity(c) && c < LAST_CAPACITY
    ensures IsCapacity(2 * c) && Doubled(c) == 2 * c && MaxSize(2 * c) > MaxSize(c)
  {
    var n :| 1 <= n <= 30 && c == Pow2(n);
    Pow2Values();
    Pow2Next(n);
    hide Pow2;
    assert n < 30;
    DoublingMakesRoomIff(n);
    MaxSizeIsThreeQuarters(c);
  }

  lemma Pow2Next(n: nat)
    ensures Pow2(n + 1) == 2 * Pow2(n)
  {
  }

  lemma Pow2Values()
    ensures Pow2(0) == 1 && Pow2(1) == 2 && Pow2(30) == 0x4000_0000 && Pow2(31) == 0x8000_0000
  {
    assert Pow2(10) == 1024;
    assert Pow2(20) == 0x10_0000;
  }

  // ----- The table on values -----

  datatype Table<K, V> = Table(chains: seq<seq<Entry<K, V>>>, currSize: int, maxSize: int)

  /** Puts an entry at the front of its bucket. */
  function Place<K, C, V>(ops: KeyOps<K, C>, chains: seq<seq<Entry<K, V>>>, e: Entry<K, V>): (r: seq<seq<Entry<K, V>>>)
    requires chains != []
    ensures |r| == |chains|
  {
    var b := Bucket(ops, e.key, |chains|);
    chains[b := [e] + chains[b]]
  }

  /** Pops the entries of an old bucket from its head and places them. */
  function PlaceAll<K, C, V>(ops: KeyOps<K, C>, chains: seq<seq<Entry<K, V>>>, es: seq<Entry<K, V>>)
    : (r: seq<seq<Entry<K, V>>>)
    requires chains != []
    ensures |r| == |chains|
    decreases |es|
  {
    if es == [] then chains else PlaceAll(ops, Place(ops, chains, es[0]), es[1..])
  }

  /** Moves the old buckets, in order, into `chains`. */
  function MoveAll<K, C, V>(ops: KeyOps<K, C>, from: seq<seq<Entry<K, V>>>, chains: seq<seq<Entry<K, V>>>)
    : (r: seq<seq<Entry<K, V>>>)
    requires chains != []
    ensures |r| == |chains|
    decreases |from|
  {
    if from == [] then chains else MoveAll(ops, from[1..], PlaceAll(ops, chains, from[0]))
  }

  function EmptyChains<K, V>(n: nat): (r: seq<seq<Entry<K, V>>>)
    ensures |r| == n && forall b :: 0 <= b < n ==> r[b] == []
  {
    if n == 0 then [] else EmptyChains(n - 1) + [[]]
  }

  function NewTable<K, V>(): Table<K, V> {
    Table(EmptyChains(START_CAPACITY), 0, MaxSize(START_CAPACITY))
  }

  function Rehash<K, C, V>(ops: KeyOps<K, C>, t: Table<K, V>): Table<K, V>
    requires 0 < |t.chains| && 0 < Doubled(|t.chains|)
  {
    var capacity := Doubled(|t.chains|);
    Table(MoveAll(ops, t.chains, EmptyChains(capacity)), t.currSize, MaxSize(capacity))
  }

  function Find<K, C, V>(ops: KeyOps<K, C>, t: Table<K, V>, key: K): Option<Entry<K, V>>
    requires t.chains != []
  {
    var chain := t.chains[Bucket(ops, key, |t.chains|)];
    var k := FirstMatch(chain, key, EntryComp(ops));
    if k < 0 then None else Some(chain[k])
  }

  predicate NeedsRehash<K, V>(t: Table<K, V>) {
    t.maxSize < t.currSize + 1
  }

  function Insert<K, C, V>(ops: KeyOps<K, C>, t: Table<K, V>, e: Entry<K, V>): Table<K, V>
    requires t.chains != [] && (NeedsRehash(t) ==> 0 < Doubled(|t.chains|))
  {
    if Find(ops, t, e.key).Some? then t
    else
      var t' := if NeedsRehash(t) then Rehash(ops, t) else t;
      t'.(chains := Place(ops, t'.chains, e), currSize := t'.currSize + 1)
  }

  function Remove<K, C, V>(ops: KeyOps<K, C>, t: Table<K, V>, key: K): Table<K, V>
    requires t.chains != []
  {
    var b := Bucket(ops, key, |t.chains|);
    var k := FirstMatch(t.chains[b], key, EntryComp(ops));
    if k < 0 then t
    else t.(chains := t.chains[b := RemoveAt(t.chains[b], k)], currSize := t.currSize - 1)
  }

  // ----- The entries of a table, as a multiset and as a map -----

  ghost function Bag<K, V>(chains: seq<seq<Entry<K, V>>>): multiset<Entry<K, V>> {
    if chains == [] then multiset{} else Bag(chains[..|chains| - 1]) + multiset(chains[|chains| - 1])
  }

  /** The sum of the bucket sizes. */
  function Total<K, V>(chains: seq<seq<Entry<K, V>>>): nat {
    if chains == [] then 0 else Total(chains[..|chains| - 1]) + |chains[|chains| - 1]|
  }

  lemma {:induction false} TotalIsBagSize<K, V>(chains: seq<seq<Entry<K, V>>>)
    ensures |Bag(chains)| == Total(chains)
  {
    if chains != [] {
      TotalIsBagSize(chains[..|chains| - 1]);
    }
  }

  lemma {:induction false} BagUpdate<K, V>(chains: seq<seq<Entry<K, V>>>, b: nat, chain: seq<Entry<K, V>>)
    requires b < |chains|
    ensures Bag(chains[b := chain]) + multiset(chains[b]) == Bag(chains) + multiset(chain)
  {
    var front, last := chains[..|chains| - 1], chains[|chains| - 1];
    if b < |front| {
      BagUpdate(front, b, chain);
      assert chains[b := chain][..|chains| - 1] == front[b := chain];
      assert Bag(chains[b := chain]) + multiset(chains[b])
          == (Bag(front[b := chain]) + multiset(front[b])) + multiset(last);
    } else {
      assert chains[b := chain][..|chains| - 1] == front;
    }
  }

  lemma {:induction false} InBag<K, V>(chains: seq<seq<Entry<K, V>>>, e: Entry<K, V>)
    ensures e in Bag(chains) <==> exists b :: 0 <= b < |chains| && e in chains[b]
  {
    if chains != [] {
      var front := chains[..|chains| - 1];
      InBag(front, e);
      if e in Bag(chains) && e !in chains[|chains| - 1] {
        var b :| 0 <= b < |front| && e in front[b];
        assert e in chains[b];
      }
      if b :| 0 <= b < |chains| && e in chains[b] {
        assert b < |front| ==> e in front[b];
      }
    }
  }

  /** Every entry is in the bucket of its key. */
  ghost predicate Placed<K, C, V>(ops: KeyOps<K, C>, chains: seq<seq<Entry<K, V>>>) {
    forall b, e :: 0 <= b < |chains| && e in chains[b] ==> Bucket(ops, e.key, |chains|) == b
  }

  /** m maps the name of every entry to that entry, and nothing else. */
  ghost predicate IsMap<K, C, V>(ops: KeyOps<K, C>, bag: multiset<Entry<K, V>>, m: map<C, Entry<K, V>>) {
    && (forall e :: e in bag ==> bag[e] == 1 && ops.name(e.key) in m && m[ops.name(e.key)] == e)
    && (forall c :: c in m ==> m[c] in bag && ops.name(m[c].key) == c)
  }

  ghost predicate Sized<K, V>(t: Table<K, V>) {
    && IsCapacity(|t.chains|)
    && t.maxSize == MaxSize(|t.chains|)
    && t.currSize == Total(t.chains) <= t.maxSize
  }

  /** The table t represents the finite map m. */
  ghost predicate Represents<K, C, V>(ops: KeyOps<K, C>, t: Table<K, V>, m: map<C, Entry<K, V>>) {
    Sized(t) && Placed(ops, t.chains) && IsMap(ops, Bag(t.chains), m)
  }

  // ----- A rehash keeps every entry and puts it in its place -----

  lemma PlaceKeeps<K, C, V>(ops: KeyOps<K, C>, chains: seq<seq<Entry<K, V>>>, e: Entry<K, V>)
    requires chains != [] && Placed(ops, chains)
    ensures Placed(ops, Place(ops, chains, e))
    ensures Bag(Place(ops, chains, e)) == Bag(chains) + multiset{e}
  {
    hide Bag;
    var b := Bucket(ops, e.key, |chains|);
    ReplaceKeeps(ops, chains, b, [e] + chains[b]);
    BagUpdate(chains, b, [e] + chains[b]);
    assert multiset([e] + chains[b]) == multiset{e} + multiset(chains[b]);
    CancelBag(Bag(Place(ops, chains, e)), Bag(chains) + multiset{e}, multiset(chains[b]));
  }

  /** Only the bucket that changes has to be looked at. */
  lemma ReplaceKeeps<K, C, V>(ops: KeyOps<K, C>, chains: seq<seq<Entry<K, V>>>, b: nat, chain: seq<Entry<K, V>>)
    requires Placed(ops, chains) && b < |chains|
    requires forall e :: e in chain ==> Bucket(ops, e.key, |chains|) == b
    ensures Placed(ops, chains[b := chain])
  {
    hide Bucket;
  }

  lemma CancelBag<A>(a: multiset<A>, b: multiset<A>, x: multiset<A>)
    requires a + x == b + x
    ensures a == b
  {
    assert a == (a + x) - x;
    assert b == (b + x) - x;
  }

  lemma {:induction false} PlaceAllKeeps<K, C, V>(ops: KeyOps<K, C>, chains: seq<seq<Entry<K, V>>>,
                                                es: seq<Entry<K, V>>)
    requires chains != [] && Placed(ops, chains)
    ensures Placed(ops, PlaceAll(ops, chains, es))
    ensures Bag(PlaceAll(ops, chains, es)) == Bag(chains) + multiset(es)
    decreases |es|
  {
    if es != [] {
      PlaceKeeps(ops, chains, es[0]);
      PlaceAllKeeps(ops, Place(ops, chains, es[0]), es[1..]);
      assert es == [es[0]] + es[1..];
    }
  }

  lemma {:induction false} BagFront<K, V>(chains: seq<seq<Entry<K, V>>>)
    requires chains != []
    ensures Bag(chains) == multiset(chains[0]) + Bag(chains[1..])
  {
    if |chains| > 1 {
      BagFront(chains[..|chains| - 1]);
      assert chains[..|chains| - 1][1..] == chains[1..][..|chains| - 2];
    } else {
      assert chains[1..] == [] && chains[..0] == [];
    }
  }

  /** What is still in the old table and what is already in the new one add up, bucket after bucket. */
  lemma {:induction false} MoveAllKeeps<K, C, V>(ops: KeyOps<K, C>, from: seq<seq<Entry<K, V>>>,
                                               chains: seq<seq<Entry<K, V>>>)
    requires chains != [] && Placed(ops, chains)
    ensures Placed(ops, MoveAll(ops, from, chains))
    ensures Bag(MoveAll(ops, from, chains)) == Bag(from) + Bag(chains)
    decreases |from|
  {
    if from != [] {
      PlaceAllKeeps(ops, chains, from[0]);
      MoveAllKeeps(ops, from[1..], PlaceAll(ops, chains, from[0]));
      BagFront(from);
    }
  }

  lemma {:induction false} EmptyBag<K, V>(n: nat)
    ensures Bag<K, V>(EmptyChains(n)) == multiset{} && Total<K, V>(EmptyChains(n)) == 0
  {
    if n > 0 {
      EmptyBag<K, V>(n - 1);
      BagSnoc<K, V>(EmptyChains(n - 1), []);
      hide Bag, Total;
    } else {
      assert EmptyChains<K, V>(n) == [];
    }
  }

  lemma BagSnoc<K, V>(chains: seq<seq<Entry<K, V>>>, chain: seq<Entry<K, V>>)
    ensures Bag(chains + [chain]) == Bag(chains) + multiset(chain)
    ensures Total(chains + [chain]) == Total(chains) + |chain|
  {
    assert (chains + [chain])[..|chains|] == chains;
  }

  /** No entry is lost, duplicated or misplaced by a rehash, from any table. */
  lemma RehashKeeps<K, C, V>(ops: KeyOps<K, C>, t: Table<K, V>)
    requires 0 < |t.chains| && 0 < Doubled(|t.chains|)
    ensures Bag(Rehash(ops, t).chains) == Bag(t.chains)
    ensures Placed(ops, Rehash(ops, t).chains) && Rehash(ops, t).currSize == t.currSize
  {
    EmptyBag<K, V>(Doubled(|t.chains|));
    MoveAllKeeps(ops, t.chains, EmptyChains(Doubled(|t.chains|)));
  }

  // ----- A rehash reverses what it moves -----

  /** The entries of a list that belong to bucket b of `capacity`, the last one first. */
  function Arrivals<K, C, V>(ops: KeyOps<K, C>, es: seq<Entry<K, V>>, capacity: nat, b: nat): seq<Entry<K, V>>
    requires capacity > 0
  {
    if es == [] then []
    else Arrivals(ops, es[1..], capacity, b) + if Bucket(ops, es[0].key, capacity) == b then [es[0]] else []
  }

  lemma {:induction false} ArrivalsConcat<K, C, V>(ops: KeyOps<K, C>, a: seq<Entry<K, V>>, b: seq<Entry<K, V>>,
                                                 capacity: nat, i: nat)
    requires capacity > 0
    ensures Arrivals(ops, a + b, capacity, i) == Arrivals(ops, b, capacity, i) + Arrivals(ops, a, capacity, i)
    decreases |a|
  {
    if a == [] {
      assert a + b == b;
    } else {
      assert (a + b)[0] == a[0] && (a + b)[1..] == a[1..] + b;
      ArrivalsConcat(ops, a[1..], b, capacity, i);
    }
  }

  lemma {:induction false} PlaceAllOrder<K, C, V>(ops: KeyOps<K, C>, chains: seq<seq<Entry<K, V>>>,
                                                es: seq<Entry<K, V>>, b: nat)
    requires b < |chains|
    ensures PlaceAll(ops, chains, es)[b] == Arrivals(ops, es, |chains|, b) + chains[b]
    decreases |es|
  {
    if es != [] {
      hide Bucket;
      PlaceAllOrder(ops, Place(ops, chains, es[0]), es[1..], b);
    }
  }

  /** The entries of all buckets, in order. */
  function Flat<K, V>(chains: seq<seq<Entry<K, V>>>): seq<Entry<K, V>> {
    if chains == [] then [] else chains[0] + Flat(chains[1..])
  }

  lemma {:induction false} MoveAllOrder<K, C, V>(ops: KeyOps<K, C>, from: seq<seq<Entry<K, V>>>,
                                               chains: seq<seq<Entry<K, V>>>, b: nat)
    requires b < |chains|
    ensures MoveAll(ops, from, chains)[b] == Arrivals(ops, Flat(from), |chains|, b) + chains[b]
    decreases |from|
  {
    if from != [] {
      PlaceAllOrder(ops, chains, from[0], b);
      MoveAllOrder(ops, from[1..], PlaceAll(ops, chains, from[0]), b);
      ArrivalsConcat(ops, from[0], Flat(from[1..]), |chains|, b);
      hide Arrivals, PlaceAll;
    }
  }

  /** A bucket of the new table holds what belongs there of the old one, in reverse order. */
  lemma RehashOrder<K, C, V>(ops: KeyOps<K, C>, t: Table<K, V>, b: nat)
    requires 0 < |t.chains| && b < Doubled(|t.chains|)
    ensures Rehash(ops, t).chains[b] == Arrivals(ops, Flat(t.chains), Doubled(|t.chains|), b)
  {
    hide MoveAll, Arrivals, Doubled;
    MoveAllOrder(ops, t.chains, EmptyChains(Doubled(|t.chains|)), b);
  }

  // ----- One operation on a table is one operation on its map -----

  /** The bucket of a key holds the entry of its name, if there is one, and no other entry that compares equal. */
  lemma BucketHolds<K(!new), C(!new), V>(ops: KeyOps<K, C>, t: Table<K, V>, m: map<C, Entry<K, V>>, key: K)
    requires Lawful(ops) && t.chains != [] && Placed(ops, t.chains) && IsMap(ops, Bag(t.chains), m)
    ensures var chain := t.chains[Bucket(ops, key, |t.chains|)];
      && (ops.name(key) in m ==> m[ops.name(key)] in chain)
      && (forall e :: e in chain && ops.comp(e.key, key) == 0 ==> ops.name(key) in m && m[ops.name(key)] == e)
  {
    var b := Bucket(ops, key, |t.chains|);
    if ops.name(key) in m {
      var e := m[ops.name(key)];
      InBag(t.chains, e);
      var b' :| 0 <= b' < |t.chains| && e in t.chains[b'];
      assert b' == b;
    }
    forall e | e in t.chains[b] && ops.comp(e.key, key) == 0 ensures ops.name(key) in m && m[ops.name(key)] == e {
      InBag(t.chains, e);
    }
  }

  /** htable_find agrees with the map. */
  lemma FindCorrect<K(!new), C(!new), V>(ops: KeyOps<K, C>, t: Table<K, V>, m: map<C, Entry<K, V>>, key: K)
    requires Lawful(ops) && t.chains != [] && Placed(ops, t.chains) && IsMap(ops, Bag(t.chains), m)
    ensures Find(ops, t, key) == if ops.name(key) in m then Some(m[ops.name(key)]) else None
  {
    BucketHolds(ops, t, m, key);
    var chain := t.chains[Bucket(ops, key, |t.chains|)];
    var k := FirstMatch(chain, key, EntryComp(ops));
    if ops.name(key) in m {
      var i :| 0 <= i < |chain| && chain[i] == m[ops.name(key)];
      var e := m[ops.name(key)];
      assert ops.name(e.key) == ops.name(key);
      assert EntryComp<K, C, V>(ops)(chain[i], key) == 0;
      assert k >= 0;
    }
    if k >= 0 {
      assert chain[k] in chain && ops.comp(chain[k].key, key) == 0;
    }
  }

  /** The sum of the bucket sizes is the number of keys. */
  lemma {:induction false} MapSize<K, C, V>(ops: KeyOps<K, C>, bag: multiset<Entry<K, V>>, m: map<C, Entry<K, V>>)
    requires IsMap(ops, bag, m)
    ensures |bag| == |m|
    decreases |m|
  {
    if m == map[] {
      assert forall e :: e !in bag;
      assert bag == multiset{};
    } else {
      var c :| c in m;
      var e := m[c];
      DropEntry(ops, bag, m, c);
      MapSize(ops, bag - multiset{e}, m - {c});
      assert m.Keys == (m - {c}).Keys + {c};
    }
  }

  lemma DropEntry<K, C, V>(ops: KeyOps<K, C>, bag: multiset<Entry<K, V>>, m: map<C, Entry<K, V>>, c: C)
    requires IsMap(ops, bag, m) && c in m
    ensures IsMap(ops, bag - multiset{m[c]}, m - {c})
  {
  }

  lemma AddEntry<K, C, V>(ops: KeyOps<K, C>, bag: multiset<Entry<K, V>>, m: map<C, Entry<K, V>>, e: Entry<K, V>)
    requires IsMap(ops, bag, m) && ops.name(e.key) !in m
    ensures IsMap(ops, bag + multiset{e}, m[ops.name(e.key) := e])
  {
  }

  /** No rehash changes the sum of the bucket sizes. */
  lemma MoveAllTotal<K, C, V>(ops: KeyOps<K, C>, from: seq<seq<Entry<K, V>>>, chains: seq<seq<Entry<K, V>>>)
    requires chains != [] && Placed(ops, chains)
    ensures Total(MoveAll(ops, from, chains)) == Total(from) + Total(chains)
  {
    hide Total, Bag, MoveAll;
    MoveAllKeeps(ops, from, chains);
    TotalIsBagSize(from);
    TotalIsBagSize(chains);
    TotalIsBagSize(MoveAll(ops, from, chains));
  }

  lemma RehashTotal<K, C, V>(ops: KeyOps<K, C>, t: Table<K, V>)
    requires 0 < |t.chains| && 0 < Doubled(|t.chains|)
    ensures Total(Rehash(ops, t).chains) == Total(t.chains)
  {
    EmptyBag<K, V>(Doubled(|t.chains|));
    MoveAllTotal(ops, t.chains, EmptyChains(Doubled(|t.chains|)));
  }

  lemma MoveNothing<K, C, V>(ops: KeyOps<K, C>, chains: seq<seq<Entry<K, V>>>)
    requires chains != []
    ensures MoveAll(ops, [], chains) == chains
  {
  }

  lemma PlaceAllUnfold<K, C, V>(ops: KeyOps<K, C>, chains: seq<seq<Entry<K, V>>>, es: seq<Entry<K, V>>)
    requires chains != [] && es != []
    ensures PlaceAll(ops, chains, es) == PlaceAll(ops, Place(ops, chains, es[0]), es[1..])
  {
  }

  lemma PlaceNothing<K, C, V>(ops: KeyOps<K, C>, chains: seq<seq<Entry<K, V>>>)
    requires chains != []
    ensures PlaceAll(ops, chains, []) == chains
  {
  }

  /** After one rehash a full table has room if and only if it had fewer than 2^30 buckets. */
  lemma RehashMakesRoomIff<K, C, V>(ops: KeyOps<K, C>, t: Table<K, V>)
    requires Sized(t) && NeedsRehash(t)
    ensures 0 < |t.chains| && Doubled(|t.chains|) == 2 * |t.chains|
    ensures !NeedsRehash(Rehash(ops, t)) <==> |t.chains| < LAST_CAPACITY
    ensures |t.chains| < LAST_CAPACITY <==> t.currSize < MaxSize(LAST_CAPACITY)
    ensures |t.chains| < LAST_CAPACITY ==> Sized(Rehash(ops, t))
  {
    CapacityShape(|t.chains|);
    MaxSizeIsThreeQuarters(|t.chains|);
    RehashKeeps(ops, t);
    RehashTotal(ops, t);
    if |t.chains| < LAST_CAPACITY {
      CapacityDoubles(|t.chains|);
      MaxSizeGrows(|t.chains|);
      hide IsCapacity, MaxSize, Doubled, Bag, Total, Placed, MoveAll;
    } else {
      assert MaxSize(2 * LAST_CAPACITY) < MaxSize(LAST_CAPACITY);
      hide IsCapacity, MaxSize, Doubled, Bag, Total, Placed, MoveAll;
    }
  }

  lemma MaxSizeGrows(c: nat)
    requires c <= LAST_CAPACITY - 4
    ensures MaxSize(c) < MaxSize(LAST_CAPACITY)
  {
  }

  lemma TotalUpdate<K, V>(chains: seq<seq<Entry<K, V>>>, b: nat, chain: seq<Entry<K, V>>)
    requires b < |chains|
    ensures Total(chains[b := chain]) + |chains[b]| == Total(chains) + |chain|
  {
    hide Total, Bag;
    BagUpdate(chains, b, chain);
    TotalIsBagSize(chains);
    TotalIsBagSize(chains[b := chain]);
    assert |Bag(chains[b := chain]) + multiset(chains[b])| == |Bag(chains[b := chain])| + |chains[b]|;
    assert |Bag(chains) + multiset(chain)| == |Bag(chains)| + |chain|;
  }

  lemma PlaceTotal<K, C, V>(ops: KeyOps<K, C>, chains: seq<seq<Entry<K, V>>>, e: Entry<K, V>)
    requires chains != []
    ensures Total(Place(ops, chains, e)) == Total(chains) + 1
  {
    hide Total;
    var b := Bucket(ops, e.key, |chains|);
    TotalUpdate(chains, b, [e] + chains[b]);
  }

  lemma PopTotal<K, V>(chains: seq<seq<Entry<K, V>>>, b: nat)
    requires b < |chains| && chains[b] != []
    ensures Total(chains[b := chains[b][1..]]) == Total(chains) - 1
  {
    hide Total;
    TotalUpdate(chains, b, chains[b][1..]);
  }

  lemma {:induction false} ChainWithinTotal<K, V>(chains: seq<seq<Entry<K, V>>>, b: nat)
    requires b < |chains|
    ensures |chains[b]| <= Total(chains)
  {
    if b < |chains| - 1 {
      ChainWithinTotal(chains[..|chains| - 1], b);
    }
  }

  /** htable_insert fails and changes nothing when the name is there, and adds it otherwise. */
  lemma InsertCorrect<K(!new), C(!new), V>(ops: KeyOps<K, C>, t: Table<K, V>, m: map<C, Entry<K, V>>, e: Entry<K, V>)
    requires Lawful(ops) && Represents(ops, t, m)
    requires ops.name(e.key) in m || t.currSize < MaxSize(LAST_CAPACITY)
    ensures Usable(t)
    ensures ops.name(e.key) in m ==> Insert(ops, t, e) == t
    ensures ops.name(e.key) !in m ==> Represents(ops, Insert(ops, t, e), m[ops.name(e.key) := e])
  {
    SizedUsable(t);
    FindCorrect(ops, t, m, e.key);
    InsertUnfold(ops, t, e);
    hide Insert, Find;
    if ops.name(e.key) !in m {
      hide Sized, Placed, Place, IsMap, Bag, Rehash, Lawful;
      if NeedsRehash(t) {
        RehashMakesRoomIff(ops, t);
        RehashKeeps(ops, t);
        RehashRepresents(ops, t, m);
        InsertWithRoom(ops, Rehash(ops, t), m, e);
      } else {
        InsertWithRoom(ops, t, m, e);
      }
    }
  }

  lemma InsertUnfold<K, C, V>(ops: KeyOps<K, C>, t: Table<K, V>, e: Entry<K, V>)
    requires Usable(t)
    ensures Find(ops, t, e.key).Some? ==> Insert(ops, t, e) == t
    ensures Find(ops, t, e.key).None? ==>
      var t' := if NeedsRehash(t) then Rehash(ops, t) else t;
      Insert(ops, t, e) == t'.(chains := Place(ops, t'.chains, e), currSize := t'.currSize + 1)
  {
    hide Find, Place, MoveAll, EmptyChains;
  }

  lemma RehashRepresents<K, C, V>(ops: KeyOps<K, C>, t: Table<K, V>, m: map<C, Entry<K, V>>)
    requires 0 < |t.chains| && 0 < Doubled(|t.chains|) && Represents(ops, t, m) && Sized(Rehash(ops, t))
    ensures Represents(ops, Rehash(ops, t), m)
  {
    RehashKeeps(ops, t);
    hide Sized, Placed, IsMap, Bag, Rehash;
  }

  lemma InsertWithRoom<K, C, V>(ops: KeyOps<K, C>, t: Table<K, V>, m: map<C, Entry<K, V>>, e: Entry<K, V>)
    requires Represents(ops, t, m) && t.chains != [] && !NeedsRehash(t) && ops.name(e.key) !in m
    ensures Represents(ops, t.(chains := Place(ops, t.chains, e), currSize := t.currSize + 1), m[ops.name(e.key) := e])
  {
    PlaceKeeps(ops, t.chains, e);
    PlaceTotal(ops, t.chains, e);
    AddEntry(ops, Bag(t.chains), m, e);
    hide Place, Placed, IsMap, Bag, Total;
  }

  /** The limit is exact: a new key may be followed by another one if and only if there are fewer than 3 * 2^28 keys. */
  lemma LimitIsExact<K(!new), C(!new), V>(ops: KeyOps<K, C>, t: Table<K, V>, m: map<C, Entry<K, V>>, e: Entry<K, V>)
    requires Lawful(ops) && Represents(ops, t, m) && ops.name(e.key) !in m
    ensures Usable(t)
    ensures Usable(Insert(ops, t, e)) <==> |m| < MaxSize(LAST_CAPACITY)
  {
    SizedUsable(t);
    SizeAndLoad(ops, t, m);
    if |m| < MaxSize(LAST_CAPACITY) {
      InsertCorrect(ops, t, m, e);
      SizedUsable(Insert(ops, t, e));
    } else {
      FindCorrect(ops, t, m, e.key);
      InsertUnfold(ops, t, e);
      FullAtLimit(ops, t);
      hide Insert, Find, Rehash, Bag, Total, Placed, IsMap, Lawful;
    }
  }

  lemma FullAtLimit<K, C, V>(ops: KeyOps<K, C>, t: Table<K, V>)
    requires Sized(t) && t.currSize >= MaxSize(LAST_CAPACITY)
    ensures NeedsRehash(t) && |t.chains| == LAST_CAPACITY
    ensures |Rehash(ops, t).chains| == 2 * LAST_CAPACITY && Doubled(2 * LAST_CAPACITY) == 0
    ensures NeedsRehash(Rehash(ops, t)) && Rehash(ops, t).currSize == t.currSize
  {
    CapacityShape(|t.chains|);
    if |t.chains| < LAST_CAPACITY {
      MaxSizeGrows(|t.chains|);
    }
    assert MaxSize(2 * LAST_CAPACITY) < MaxSize(LAST_CAPACITY);
    hide IsCapacity, Bag, Total, Placed, MoveAll, EmptyChains;
  }

  /** Is the next insertion defined?  A table that must grow beyond 2^31 buckets gets none at all. */
  predicate Usable<K, V>(t: Table<K, V>) {
    t.chains != [] && (NeedsRehash(t) ==> 0 < Doubled(|t.chains|))
  }

  lemma SizedUsable<K, V>(t: Table<K, V>)
    requires Sized(t)
    ensures Usable(t) && |t.chains| <= LAST_CAPACITY
  {
    CapacityShape(|t.chains|);
    hide IsCapacity, MaxSize;
    if NeedsRehash(t) {
      DoubledIsPositive(|t.chains|);
    }
  }

  lemma DoubledIsPositive(c: nat)
    requires 0 < c <= LAST_CAPACITY
    ensures Doubled(c) > 0
  {
  }

  /** htable_remove takes out the entry of the name, and changes nothing when there is none. */
  lemma RemoveCorrect<K(!new), C(!new), V>(ops: KeyOps<K, C>, t: Table<K, V>, m: map<C, Entry<K, V>>, key: K)
    requires Lawful(ops) && Represents(ops, t, m)
    ensures t.chains != []
    ensures ops.name(key) !in m ==> Remove(ops, t, key) == t
    ensures ops.name(key) in m ==> Represents(ops, Remove(ops, t, key), m - {ops.name(key)})
  {
    SizedUsable(t);
    FindCorrect(ops, t, m, key);
    hide Represents, Lawful, RemoveAt, FirstMatch, Bucket;
    var b := Bucket(ops, key, |t.chains|);
    var k := FirstMatch(t.chains[b], key, EntryComp(ops));
    if ops.name(key) in m {
      RemoveEntry(ops, t, m, b, k);
    }
  }

  /** Any entry may be taken out. */
  lemma RemoveEntry<K, C, V>(ops: KeyOps<K, C>, t: Table<K, V>, m: map<C, Entry<K, V>>, b: nat, k: nat)
    requires Represents(ops, t, m) && b < |t.chains| && k < |t.chains[b]|
    ensures var e := t.chains[b][k];
      && ops.name(e.key) in m && e == m[ops.name(e.key)]
      && Represents(ops, t.(chains := t.chains[b := RemoveAt(t.chains[b], k)], currSize := t.currSize - 1),
                    m - {ops.name(e.key)})
  {
    var e := t.chains[b][k];
    InBag(t.chains, e);
    RemoveAtKeeps(ops, t.chains, b, k);
    hide RemoveAt, Placed, Total, Bag;
    DropEntry(ops, Bag(t.chains), m, ops.name(e.key));
  }

  lemma RemoveAtKeeps<K, C, V>(ops: KeyOps<K, C>, chains: seq<seq<Entry<K, V>>>, b: nat, k: nat)
    requires Placed(ops, chains) && b < |chains| && k < |chains[b]|
    ensures var r := chains[b := RemoveAt(chains[b], k)];
      && Placed(ops, r) && Total(r) == Total(chains) - 1
      && Bag(r) == Bag(chains) - multiset{chains[b][k]}
  {
    var chain, e := RemoveAt(chains[b], k), chains[b][k];
    assert forall x :: x in chain ==> x in chains[b];
    assert forall x :: x in chain ==> Bucket(ops, x.key, |chains|) == b;
    hide *;
    RemoveFromChain(chains[b], k);
    ReplaceKeeps(ops, chains, b, chain);
    BagUpdate(chains, b, chain);
    TotalUpdate(chains, b, chain);
    CancelBag(Bag(chains[b := chain]) + multiset{e}, Bag(chains), multiset(chain));
  }

  lemma RemoveFromChain<A>(s: seq<A>, k: nat)
    requires k < |s|
    ensures multiset(s) == multiset(RemoveAt(s, k)) + multiset{s[k]} && |RemoveAt(s, k)| == |s| - 1
  {
    assert s == s[..k] + [s[k]] + s[k + 1..];
  }

  lemma NewTableCorrect<K, C, V>(ops: KeyOps<K, C>)
    ensures Represents(ops, NewTable<K, V>(), map[])
  {
    EmptyBag<K, V>(START_CAPACITY);
    Pow2Values();
    hide Pow2;
    assert IsCapacity(2);
  }

  // ----- Whole runs -----

  datatype Op<K, V> = InsertOp(entry: Entry<K, V>) | FindOp(key: K) | RemoveOp(key: K)

  /** What a caller sees: was the entry inserted, or which entry was found or removed. */
  datatype Outcome<K, V> = Inserted(ok: bool) | Got(entry: Option<Entry<K, V>>)

  datatype Trace<K, V> = Trace(replies: seq<Outcome<K, V>>, table: Table<K, V>, moved: int, inserted: int)

  function StepTable<K, C, V>(ops: KeyOps<K, C>, t: Table<K, V>, op: Op<K, V>): Table<K, V>
    requires Usable(t)
  {
    match op
    case InsertOp(e) => Insert(ops, t, e)
    case FindOp(_) => t
    case RemoveOp(key) => Remove(ops, t, key)
  }

  function StepReply<K, C, V>(ops: KeyOps<K, C>, t: Table<K, V>, op: Op<K, V>): Outcome<K, V>
    requires Usable(t)
  {
    match op
    case InsertOp(e) => Inserted(Find(ops, t, e.key) == None)
    case FindOp(key) => Got(Find(ops, t, key))
    case RemoveOp(key) => Got(Find(ops, t, key))
  }

  /** The entries moved by a rehash during this operation. */
  function StepMoved<K, C, V>(ops: KeyOps<K, C>, t: Table<K, V>, op: Op<K, V>): nat
    requires Usable(t)
  {
    if op.InsertOp? && Find(ops, t, op.entry.key) == None && NeedsRehash(t) then Total(t.chains) else 0
  }

  function Run<K, C, V>(ops: KeyOps<K, C>, t: Table<K, V>, todo: seq<Op<K, V>>): Trace<K, V>
    decreases |todo|
  {
    if todo == [] || !Usable(t) then Trace([], t, 0, 0)
    else
      var reply := StepReply(ops, t, todo[0]);
      var rest := Run(ops, StepTable(ops, t, todo[0]), todo[1..]);
      Trace([reply] + rest.replies, rest.table, StepMoved(ops, t, todo[0]) + rest.moved,
            (if reply == Inserted(true) then 1 else 0) + rest.inserted)
  }

  /** The same operations on the finite map. */
  function Lookup<K, C, V>(ops: KeyOps<K, C>, m: map<C, Entry<K, V>>, key: K): Option<Entry<K, V>> {
    if ops.name(key) in m then Some(m[ops.name(key)]) else None
  }

  function MapStep<K, C, V>(ops: KeyOps<K, C>, m: map<C, Entry<K, V>>, op: Op<K, V>): map<C, Entry<K, V>> {
    match op
    case InsertOp(e) => if ops.name(e.key) in m then m else m[ops.name(e.key) := e]
    case FindOp(_) => m
    case RemoveOp(key) => m - {ops.name(key)}
  }

  function MapReply<K, C, V>(ops: KeyOps<K, C>, m: map<C, Entry<K, V>>, op: Op<K, V>): Outcome<K, V> {
    match op
    case InsertOp(e) => Inserted(ops.name(e.key) !in m)
    case FindOp(key) => Got(Lookup(ops, m, key))
    case RemoveOp(key) => Got(Lookup(ops, m, key))
  }

  function MapReplies<K, C, V>(ops: KeyOps<K, C>, m: map<C, Entry<K, V>>, todo: seq<Op<K, V>>): seq<Outcome<K, V>>
    decreases |todo|
  {
    if todo == [] then [] else [MapReply(ops, m, todo[0])] + MapReplies(ops, MapStep(ops, m, todo[0]), todo[1..])
  }

  function MapAfter<K, C, V>(ops: KeyOps<K, C>, m: map<C, Entry<K, V>>, todo: seq<Op<K, V>>): map<C, Entry<K, V>>
    decreases |todo|
  {
    if todo == [] then m else MapAfter(ops, MapStep(ops, m, todo[0]), todo[1..])
  }

  /** There are never more than 3 * 2^28 keys. */
  ghost predicate WithinLimit<K, C, V>(ops: KeyOps<K, C>, m: map<C, Entry<K, V>>, todo: seq<Op<K, V>>) {
    forall i :: 0 <= i <= |todo| ==> |MapAfter(ops, m, todo[..i])| <= MaxSize(LAST_CAPACITY)
  }

  lemma WithinLimitStep<K, C, V>(ops: KeyOps<K, C>, m: map<C, Entry<K, V>>, todo: seq<Op<K, V>>)
    requires WithinLimit(ops, m, todo) && todo != []
    ensures |MapStep(ops, m, todo[0])| <= MaxSize(LAST_CAPACITY)
    ensures WithinLimit(ops, MapStep(ops, m, todo[0]), todo[1..])
  {
    hide MapStep, MaxSize;
    var m' := MapStep(ops, m, todo[0]);
    forall i | 0 <= i <= |todo[1..]| ensures |MapAfter(ops, m', todo[1..][..i])| <= MaxSize(LAST_CAPACITY) {
      assert todo[..i + 1][1..] == todo[1..][..i] && todo[..i + 1][0] == todo[0];
      assert |MapAfter(ops, m, todo[..i + 1])| <= MaxSize(LAST_CAPACITY);
    }
    assert todo[1..][..0] == [];
    assert |MapAfter(ops, m', todo[1..][..0])| <= MaxSize(LAST_CAPACITY);
  }

  lemma StepCorrect<K(!new), C(!new), V>(ops: KeyOps<K, C>, t: Table<K, V>, m: map<C, Entry<K, V>>, op: Op<K, V>)
    requires Lawful(ops) && Represents(ops, t, m) && |MapStep(ops, m, op)| <= MaxSize(LAST_CAPACITY)
    ensures Usable(t)
    ensures Represents(ops, StepTable(ops, t, op), MapStep(ops, m, op))
    ensures StepReply(ops, t, op) == MapReply(ops, m, op)
    ensures StepReply(ops, t, op) == Inserted(true) ==> t.currSize < MaxSize(LAST_CAPACITY)
  {
    SizedUsable(t);
    SizeAndLoad(ops, t, m);
    hide Lawful, Represents, Usable, MaxSize, Insert, Find, Remove;
    match op {
      case InsertOp(e) => InsertStepCorrect(ops, t, m, e);
      case FindOp(key) => FindCorrect(ops, t, m, key);
      case RemoveOp(key) => RemoveStepCorrect(ops, t, m, key);
    }
  }

  lemma InsertStepCorrect<K(!new), C(!new), V>(ops: KeyOps<K, C>, t: Table<K, V>, m: map<C, Entry<K, V>>,
                                               e: Entry<K, V>)
    requires Lawful(ops) && Represents(ops, t, m) && Usable(t)
    requires t.currSize == |m| && |MapStep(ops, m, InsertOp(e))| <= MaxSize(LAST_CAPACITY)
    ensures Represents(ops, Insert(ops, t, e), MapStep(ops, m, InsertOp(e)))
    ensures Find(ops, t, e.key) == None <==> ops.name(e.key) !in m
    ensures Find(ops, t, e.key) == None ==> t.currSize < MaxSize(LAST_CAPACITY)
  {
    hide Lawful, Represents, Usable, MaxSize, Insert, Find, Sized, Placed, IsMap;
    SizedOf(ops, t, m);
    FindCorrect(ops, t, m, e.key);
    InsertCorrect(ops, t, m, e);
  }

  lemma RemoveStepCorrect<K(!new), C(!new), V>(ops: KeyOps<K, C>, t: Table<K, V>, m: map<C, Entry<K, V>>, key: K)
    requires Lawful(ops) && Represents(ops, t, m) && Usable(t)
    ensures Represents(ops, Remove(ops, t, key), m - {ops.name(key)})
    ensures Find(ops, t, key) == Lookup(ops, m, key)
  {
    hide Lawful, Represents, Remove, Find, Placed, IsMap;
    SizedOf(ops, t, m);
    FindCorrect(ops, t, m, key);
    RemoveCorrect(ops, t, m, key);
    assert ops.name(key) !in m ==> m - {ops.name(key)} == m;
  }

  lemma SizedOf<K, C, V>(ops: KeyOps<K, C>, t: Table<K, V>, m: map<C, Entry<K, V>>)
    requires Represents(ops, t, m)
    ensures Sized(t) && Placed(ops, t.chains) && IsMap(ops, Bag(t.chains), m) && t.chains != []
  {
    SizedUsable(t);
  }

  /** Over every run the table answers like the finite map and goes on representing it. */
  lemma {:induction false} RunRefinesMap<K(!new), C(!new), V>(ops: KeyOps<K, C>, t: Table<K, V>, m: map<C, Entry<K, V>>,
                                                        todo: seq<Op<K, V>>)
    requires Lawful(ops) && Represents(ops, t, m) && WithinLimit(ops, m, todo)
    ensures Run(ops, t, todo).replies == MapReplies(ops, m, todo)
    ensures Represents(ops, Run(ops, t, todo).table, MapAfter(ops, m, todo))
    decreases |todo|
  {
    if todo != [] {
      hide Represents, StepTable, StepReply, StepMoved, MapStep, MapReply, Usable, WithinLimit, Lawful;
      WithinLimitStep(ops, m, todo);
      StepCorrect(ops, t, m, todo[0]);
      RunRefinesMap(ops, StepTable(ops, t, todo[0]), MapStep(ops, m, todo[0]), todo[1..]);
    }
  }

  /** curr_size is the sum of the bucket sizes and the number of keys, and within the load bound. */
  lemma SizeAndLoad<K, C, V>(ops: KeyOps<K, C>, t: Table<K, V>, m: map<C, Entry<K, V>>)
    requires Represents(ops, t, m)
    ensures t.currSize == Total(t.chains) == |m|
    ensures t.currSize <= t.maxSize == 3 * |t.chains| / 4
    ensures IsCapacity(|t.chains|)
  {
    TotalIsBagSize(t.chains);
    MapSize(ops, Bag(t.chains), m);
    SizedUsable(t);
    MaxSizeIsThreeQuarters(|t.chains|);
    hide Bag, Total, Placed, IsMap, MaxSize;
  }

  // ----- Growing is paid for by inserting -----

  /** The books of a run from the empty table: what rehashes have moved, and what has been inserted. */
  ghost predicate Paid<K, V>(t: Table<K, V>, moved: int, inserted: int) {
    var capacity := |t.chains|;
    && t.currSize <= inserted
    && (capacity == 2 ==> moved == 0)
    && (capacity > 2 ==> 4 * moved == 3 * capacity - 8 && inserted >= MaxSize(capacity / 2) + 1)
  }

  /** An operation doubles the buckets exactly when it moves entries, and changes curr_size by at most one. */
  lemma StepShape<K, C, V>(ops: KeyOps<K, C>, t: Table<K, V>, op: Op<K, V>)
    requires Usable(t)
    ensures var t' := StepTable(ops, t, op);
      var added := StepReply(ops, t, op) == Inserted(true);
      && t'.currSize <= t.currSize + (if added then 1 else 0)
      && (added && NeedsRehash(t) ==> |t'.chains| == Doubled(|t.chains|) && StepMoved(ops, t, op) == Total(t.chains))
      && (!(added && NeedsRehash(t)) ==> |t'.chains| == |t.chains| && StepMoved(ops, t, op) == 0)
  {
    hide Find, FirstMatch, Bucket, Doubled, MoveAll, PlaceAll, Place, MaxSize, Total, EmptyChains;
  }

  lemma PaidStep<K, C, V>(ops: KeyOps<K, C>, t: Table<K, V>, m: map<C, Entry<K, V>>, op: Op<K, V>,
                          moved: int, inserted: int)
    requires Represents(ops, t, m) && Usable(t)
    requires StepReply(ops, t, op) == Inserted(true) ==> t.currSize < MaxSize(LAST_CAPACITY)
    requires Paid(t, moved, inserted)
    ensures Paid(StepTable(ops, t, op), moved + StepMoved(ops, t, op),
                 inserted + if StepReply(ops, t, op) == Inserted(true) then 1 else 0)
  {
    hide StepTable, StepReply, StepMoved, Total, Usable, Find, Placed, IsMap, Bag;
    StepShape(ops, t, op);
    if StepReply(ops, t, op) == Inserted(true) && NeedsRehash(t) {
      CapacityShape(|t.chains|);
      CapacityDoubles(|t.chains|);
      MaxSizeIsThreeQuarters(|t.chains|);
      hide IsCapacity, Doubled, MaxSize;
      MovedByDoubling(|t.chains|, moved);
    }
  }

  /** The sum of 3c/4 over the capacities c from 2. */
  lemma MovedByDoubling(c: nat, moved: int)
    requires (c == 2 && moved == 0) || (c % 4 == 0 && 4 * moved == 3 * c - 8)
    ensures 4 * (moved + 3 * c / 4) == 3 * (2 * c) - 8
  {
    var q := c / 4;
    assert c == 2 || c == 4 * q;
    assert 3 * (4 * q) / 4 == 3 * q;
  }

  lemma RunUnfold<K, C, V>(ops: KeyOps<K, C>, t: Table<K, V>, todo: seq<Op<K, V>>)
    ensures todo == [] ==> Run(ops, t, todo) == Trace([], t, 0, 0)
    ensures todo != [] && Usable(t) ==>
      var r, rest := Run(ops, t, todo), Run(ops, StepTable(ops, t, todo[0]), todo[1..]);
      && r.table == rest.table && r.moved == StepMoved(ops, t, todo[0]) + rest.moved
      && r.inserted == (if StepReply(ops, t, todo[0]) == Inserted(true) then 1 else 0) + rest.inserted
  {
    hide StepTable, StepReply, StepMoved, Usable;
  }

  lemma {:induction false} PaidAlong<K(!new), C(!new), V>(ops: KeyOps<K, C>, t: Table<K, V>, m: map<C, Entry<K, V>>,
                                                    todo: seq<Op<K, V>>, moved: int, inserted: int)
    requires Lawful(ops) && Represents(ops, t, m) && WithinLimit(ops, m, todo)
    requires Paid(t, moved, inserted)
    ensures var r := Run(ops, t, todo); Paid(r.table, moved + r.moved, inserted + r.inserted)
    decreases |todo|
  {
    hide *;
    RunUnfold(ops, t, todo);
    if todo != [] {
      WithinLimitStep(ops, m, todo);
      StepCorrect(ops, t, m, todo[0]);
      PaidStep(ops, t, m, todo[0], moved, inserted);
      PaidAlong(ops, StepTable(ops, t, todo[0]), MapStep(ops, m, todo[0]), todo[1..],
        moved + StepMoved(ops, t, todo[0]), inserted + if StepReply(ops, t, todo[0]) == Inserted(true) then 1 else 0);
    }
  }

  /** Over every run from the empty table all rehashes together move fewer than two entries per insertion. */
  lemma GrowthIsAmortized<K(!new), C(!new), V>(ops: KeyOps<K, C>, todo: seq<Op<K, V>>)
    requires Lawful(ops) && WithinLimit(ops, map[], todo)
    ensures var r := Run(ops, NewTable(), todo); r.inserted > 0 ==> r.moved < 2 * r.inserted
  {
    hide *;
    var t: Table<K, V> := NewTable();
    NewTableCorrect<K, C, V>(ops);
    NewTablePaid<K, V>();
    PaidAlong(ops, t, map[], todo, 0, 0);
    RunRefinesMap(ops, t, map[], todo);
    var r := Run(ops, t, todo);
    SizeAndLoad(ops, r.table, MapAfter(ops, map[], todo));
    PaidIsCheap(r.table, r.moved, r.inserted);
  }

  lemma NewTablePaid<K, V>()
    ensures Paid(NewTable<K, V>(), 0, 0)
  {
  }

  lemma PaidIsCheap<K, V>(t: Table<K, V>, moved: int, inserted: int)
    requires IsCapacity(|t.chains|) && Paid(t, moved, inserted)
    ensures inserted > 0 ==> moved < 2 * inserted
  {
    CapacityShape(|t.chains|);
    MaxSizeIsThreeQuarters(|t.chains| / 2);
    hide IsCapacity, MaxSize;
  }
}
