// libbpf/src/hashmap.c: the hash map on linked entries.
module HashMap {
  import opened Prelude
  import opened Words
  import opened HashSpec

  /** struct hashmap_entry. */
  class Node {
    var key: int
    var value: int
    var next: Node?

    constructor (key: int, value: int)
      ensures this.key == key && this.value == value && next == null
    {
      this.key, this.value, this.next := key, value, null;
    }
  }

  /** The chain from `head` is exactly ns, ending in NULL. */
  ghost predicate Linked(head: Node?, ns: seq<Node>)
    reads ns
  {
    && head == (if ns == [] then null else ns[0])
    && forall i {:trigger ns[i].next} :: 0 <= i < |ns| ==> ns[i].next == (if i + 1 < |ns| then ns[i + 1] else null)
  }

  ghost predicate NoDup(ns: seq<Node>) { forall i, j :: 0 <= i < j < |ns| ==> ns[i] != ns[j] }

  /** The entries of a chain are the pairs c. */
  ghost predicate Holds(ns: seq<Node>, c: Chain)
    reads ns
  {
    && |ns| == |c|
    && forall i {:trigger ns[i].key} {:trigger ns[i].value} :: 0 <= i < |ns| ==>
         ns[i].key == c[i].key && ns[i].value == c[i].value
  }

  ghost predicate ChainOk(head: Node?, ns: seq<Node>, c: Chain)
    reads ns
  {
    Linked(head, ns) && NoDup(ns) && Holds(ns, c)
  }

  /** hashmap_add_entry: link the entry in front of a chain. */
  method AddEntry(buckets: array<Node?>, h: nat, entry: Node, ghost ns: seq<Node>, ghost c: Chain)
    requires h < buckets.Length && ChainOk(buckets[h], ns, c) && entry !in ns
    modifies buckets, entry`next
    ensures ChainOk(buckets[h], [entry] + ns, [Pair(entry.key, entry.value)] + c)
    ensures forall b :: 0 <= b < buckets.Length && b != h ==> buckets[b] == old(buckets[b])
  {
    entry.next := buckets[h];
    buckets[h] := entry;
  }

  /** Every bucket's chain holds its part of the table, and the chains link exactly the nodes of the pool. */
  ghost predicate AllOk(buckets: array<Node?>, chains: seq<seq<Node>>, table: Table, pool: set<Node>)
    reads buckets, pool
  {
    && buckets.Length == |chains| == |table|
    && (forall b {:trigger chains[b]} :: 0 <= b < |chains| ==> InPool(chains[b], pool))
    && CoversFrom(chains, 0, pool, {})
    && forall b {:trigger chains[b]} :: 0 <= b < |chains| ==> ChainOk(buckets[b], chains[b], table[b])
  }

  ghost predicate InPool(ns: seq<Node>, pool: set<Node>) { forall n :: n in ns ==> n in pool }

  ghost function NodesOf(ns: seq<Node>): set<Node> { set n | n in ns }

  /** Every node of the pool is among the moved ones or on some chain from k on. */
  ghost predicate CoversFrom(chains: seq<seq<Node>>, k: nat, pool: set<Node>, moved: set<Node>) {
    forall n :: n in pool ==> n in moved || OnChainFrom(chains, k, n)
  }

  ghost predicate OnChainFrom(chains: seq<seq<Node>>, k: nat, n: Node) {
    exists b :: k <= b < |chains| && n in chains[b]
  }

  /** An entry put on a chain is on some chain, and so are the others. */
  lemma PushCovers(chains: seq<seq<Node>>, h: nat, entry: Node, pool: set<Node>)
    requires h < |chains| && CoversFrom(chains, 0, pool, {})
    ensures CoversFrom(chains[h := [entry] + chains[h]], 0, pool + {entry}, {})
  {
    var now := chains[h := [entry] + chains[h]];
    assert now[h][0] == entry;
    forall n | n in pool
      ensures OnChainFrom(now, 0, n)
    {
      var b :| 0 <= b < |chains| && n in chains[b];
      assert n in now[b];
    }
  }

  /** An entry taken off its chain is the only one that is on no chain any more. */
  lemma DropCovers(chains: seq<seq<Node>>, h: nat, i: nat, pool: set<Node>)
    requires h < |chains| && i < |chains[h]| && CoversFrom(chains, 0, pool, {})
    ensures CoversFrom(chains[h := DropNode(chains[h], i)], 0, pool - {chains[h][i]}, {})
  {
    var now := chains[h := DropNode(chains[h], i)];
    forall n | n in pool - {chains[h][i]}
      ensures OnChainFrom(now, 0, n)
    {
      var b :| 0 <= b < |chains| && n in chains[b];
      var j :| 0 <= j < |chains[b]| && chains[b][j] == n;
      assert now[b][if b == h && j > i then j - 1 else j] == n;
    }
  }

  /** Moving chain k leaves the chains after it. */
  lemma MoveCovers(chains: seq<seq<Node>>, k: nat, pool: set<Node>, moved: set<Node>)
    requires k < |chains| && CoversFrom(chains, k, pool, moved)
    ensures CoversFrom(chains, k + 1, pool, moved + NodesOf(chains[k]))
  {
    var now := moved + NodesOf(chains[k]);
    forall n | n in pool
      ensures n in now || OnChainFrom(chains, k + 1, n)
    {
      if n !in moved {
        var b :| k <= b < |chains| && n in chains[b];
        assert b == k ==> n in now;
      }
    }
  }

  /** hashmap_add_entry into one of a whole array of chains. */
  method PushEntry(
      buckets: array<Node?>, h: nat, entry: Node, ghost chains: seq<seq<Node>>, ghost table: Table,
      ghost pool: set<Node>)
    requires AllOk(buckets, chains, table, pool) && h < buckets.Length && entry !in pool
    modifies buckets, entry`next
    ensures AllOk(buckets, chains[h := [entry] + chains[h]],
                  table[h := [Pair(entry.key, entry.value)] + table[h]], pool + {entry})
  {
    assert InPool(chains[h], pool);
    PushCovers(chains, h, entry, pool);
    AddEntry(buckets, h, entry, chains[h], table[h]);
    ghost var nowChains := chains[h := [entry] + chains[h]];
    ghost var nowTable := table[h := [Pair(entry.key, entry.value)] + table[h]];
    forall b | 0 <= b < |chains|
      ensures InPool(nowChains[b], pool + {entry})
      ensures ChainOk(buckets[b], nowChains[b], nowTable[b])
    {
      assert InPool(chains[b], pool);
    }
  }

  lemma PushedTable(fns: Fns, done: Chain, c: Chain, i: nat, bits: nat)
    requires 0 < bits <= 64 && i < |c|
    ensures Bucket(fns, c[i].key, bits) < Capacity(bits)
    ensures var g, h := GrownFrom(fns, done + c[..i], bits), Bucket(fns, c[i].key, bits);
      GrownFrom(fns, done + c[..i + 1], bits) == g[h := [c[i]] + g[h]]
  {
    BucketInRange(fns, c[i].key, bits);
    GrownSnoc(fns, done + c[..i], c[i], bits);
    assert done + c[..i + 1] == (done + c[..i]) + [c[i]];
  }

  /** The part of a chain not yet moved: entries i, i + 1, .. still linked, and not among the moved ones. */
  ghost predicate Pending(cur: Node?, ns: seq<Node>, c: Chain, i: nat, moved: set<Node>)
    reads ns
  {
    && i <= |ns| && NoDup(ns) && Holds(ns, c)
    && cur == (if i < |ns| then ns[i] else null)
    && (forall k {:trigger ns[k].next} :: i <= k < |ns| ==> ns[k].next == (if k + 1 < |ns| then ns[k + 1] else null))
    && forall k :: i <= k < |ns| ==> ns[k] !in moved
  }

  /** One turn of hashmap_grow's inner loop. */
  method MoveEntry(
      fns: Fns, bits: nat, buckets: array<Node?>, cur: Node, ghost ns: seq<Node>, ghost c: Chain, ghost i: nat,
                   ghost chains: seq<seq<Node>>, ghost pool: set<Node>, ghost done: Chain)
    returns (tmp: Node?, ghost nowChains: seq<seq<Node>>)
    requires 0 < bits <= 64 && buckets.Length == Capacity(bits)
    requires Pending(cur, ns, c, i, pool) && i < |ns|
    requires AllOk(buckets, chains, GrownFrom(fns, done + c[..i], bits), pool)
    modifies buckets, cur`next
    ensures AllOk(buckets, nowChains, GrownFrom(fns, done + c[..i + 1], bits), pool + {cur})
    ensures Pending(tmp, ns, c, i + 1, pool + {cur})
  {
    tmp := cur.next;
    assert tmp == ns[i].next;
    var h := Bucket(fns, cur.key, bits);
    assert cur.key == ns[i].key == c[i].key && cur.value == ns[i].value == c[i].value;
    PushedTable(fns, done, c, i, bits);
    PushEntry(buckets, h, cur, chains, GrownFrom(fns, done + c[..i], bits), pool);
    nowChains := chains[h := [cur] + chains[h]];
  }

  /** hashmap_grow's inner loop: push every entry of one old chain onto its new chain. */
  method MoveChain(fns: Fns, bits: nat, buckets: array<Node?>, first: Node?, ghost ns: seq<Node>, ghost c: Chain,
                   ghost chains: seq<seq<Node>>, ghost pool: set<Node>, ghost done: Chain)
    returns (ghost nowChains: seq<seq<Node>>)
    requires 0 < bits <= 64 && buckets.Length == Capacity(bits)
    requires AllOk(buckets, chains, GrownFrom(fns, done, bits), pool)
    requires ChainOk(first, ns, c) && forall n :: n in ns ==> n !in pool
    modifies buckets, NodesOf(ns)`next
    ensures AllOk(buckets, nowChains, GrownFrom(fns, done + c, bits), pool + NodesOf(ns))
  {
    nowChains := chains;
    var cur := first;
    ghost var i: nat := 0;
    assert done + c[..0] == done;
    ghost var moved: set<Node> := pool;
    while cur != null
      invariant Pending(cur, ns, c, i, moved)
      invariant moved == pool + NodesOf(ns[..i])
      invariant AllOk(buckets, nowChains, GrownFrom(fns, done + c[..i], bits), moved)
      decreases |ns| - i
    {
      FirstNodes(ns, i);
      ghost var before := moved;
      moved := moved + {ns[i]};
      cur, nowChains := MoveEntry(fns, bits, buckets, cur, ns, c, i, nowChains, before, done);
      i := i + 1;
    }
    assert ns[..i] == ns && c[..i] == c;
  }

  lemma FirstNodes(ns: seq<Node>, i: nat)
    requires i < |ns|
    ensures NodesOf(ns[..i + 1]) == NodesOf(ns[..i]) + {ns[i]}
  {
    assert ns[..i + 1] == ns[..i] + [ns[i]];
  }

  function DropNode(ns: seq<Node>, i: nat): seq<Node>
    requires i < |ns|
  {
    ns[..i] + ns[i + 1..]
  }

  /** hashmap_del_entry: `pprev` is the bucket, or the next field of the entry before. */
  method DelEntry(
      buckets: array<Node?>, h: nat, prev: Node?, entry: Node, ghost ns: seq<Node>, ghost c: Chain, ghost i: nat)
    requires h < buckets.Length && ChainOk(buckets[h], ns, c) && i < |ns| && entry == ns[i]
    requires prev == if i == 0 then null else ns[i - 1]
    modifies buckets, NodesOf(ns)`next
    ensures ChainOk(buckets[h], DropNode(ns, i), Drop(c, i))
    ensures forall b :: 0 <= b < buckets.Length && b != h ==> buckets[b] == old(buckets[b])
  {
    assert entry.next == ns[i].next;
    if prev == null {
      buckets[h] := entry.next;
    } else {
      prev.next := entry.next;
    }
    entry.next := null;
  }

  /** struct hashmap. `chains` are the linked entries, `table` their contents, `nodes` all entries. */
  class HashMap {
    const fns: Fns
    var buckets: array<Node?>
    var cap: nat
    var capBits: nat
    var sz: nat
    ghost var chains: seq<seq<Node>>
    ghost var table: Table
    ghost var nodes: set<Node>

    ghost predicate Valid()
      reads this, buckets, nodes
    {
      && cap == buckets.Length == Capacity(capBits) && (capBits == 0 || 2 <= capBits < FAIL_BITS)
      && AllOk(buckets, chains, table, nodes)
      && TableOk(fns, table, capBits)
      && sz == |Flatten(table)|
    }

    /** hashmap__init: no bucket array yet. */
    constructor (fns: Fns)
      ensures Valid() && this.fns == fns && table == [] && capBits == 0 && nodes == {} && fresh(buckets)
    {
      this.fns := fns;
      buckets := new Node?[0];
      cap, capBits, sz := 0, 0, 0;
      chains, table, nodes := [], [], {};
    }

    /** hashmap_grow. */
    method Grow() returns (err: Err)
      requires Valid()
      modifies this, nodes`next
      ensures Valid() && nodes == old(nodes) && (buckets == old(buckets) || fresh(buckets))
      ensures err == if NewBits(old(capBits)) >= FAIL_BITS then ENOMEM else OK
      ensures err == ENOMEM ==> table == old(table) && capBits == old(capBits)
      ensures err == OK ==> capBits == NewBits(old(capBits)) && table == Grown(fns, old(table), capBits)
    {
      var newBits := if capBits + 1 < HASHMAP_MIN_CAP_BITS then HASHMAP_MIN_CAP_BITS else capBits + 1;
      if newBits >= FAIL_BITS {
        return ENOMEM;
      }
      var newCap := Pow2(newBits);
      var newBuckets := new Node?[newCap](_ => null);
      ghost var newChains := MoveAll(newBits, newBuckets);
      ghost var newTable := GrownFacts(fns, table, newBits);
      Install(newBits, newCap, newBuckets, newChains, newTable);
      return OK;
    }

    /** The end of hashmap_grow: the new array replaces the old one. */
    method Install(
        newBits: nat, newCap: nat, newBuckets: array<Node?>, ghost newChains: seq<seq<Node>>, ghost newTable: Table)
      requires newCap == newBuckets.Length == Capacity(newBits) && 2 <= newBits < FAIL_BITS
      requires AllOk(newBuckets, newChains, newTable, nodes) && TableOk(fns, newTable, newBits)
      requires sz == |Flatten(newTable)|
      modifies this`cap, this`capBits, this`buckets, this`chains, this`table
      ensures Valid() && buckets == newBuckets && capBits == newBits && table == newTable
    {
      cap, capBits := newCap, newBits;
      buckets := newBuckets;
      chains, table := newChains, newTable;
    }

    /** hashmap_find_entry: walk one chain; `prev` stands for the pointer to the link that holds `entry`. */
    method FindEntry(key: int, hash: nat) returns (found: bool, prev: Node?, entry: Node?, ghost i: nat)
      requires Valid() && (cap > 0 ==> hash < cap)
      ensures found <==> cap > 0 && FirstMatch(fns, table[hash], key).Some?
      ensures found ==> i < |chains[hash]| && FirstMatch(fns, table[hash], key) == Some(i)
      ensures found ==> entry == chains[hash][i] && entry in nodes && prev == (if i == 0 then null else chains[hash][i - 1])
      ensures found ==> entry.key == table[hash][i].key && entry.value == table[hash][i].value
    {
      found, prev, entry, i := false, null, null, 0;
      if buckets.Length == 0 {
        return;
      }
      ghost var ns, c := chains[hash], table[hash];
      assert ChainOk(buckets[hash], ns, c) && InPool(ns, nodes);
      entry := buckets[hash];
      while entry != null
        invariant i <= |ns| == |c| && entry == (if i < |ns| then ns[i] else null)
        invariant prev == if i == 0 then null else ns[i - 1]
        invariant forall k :: 0 <= k < i ==> !fns.eq(c[k].key, key)
        decreases |ns| - i
      {
        assert entry.key == ns[i].key && entry.next == ns[i].next;
        if fns.eq(entry.key, key) {
          found := true;
          assert ns[i].value == c[i].value;
          return;
        }
        prev, entry, i := entry, entry.next, i + 1;
      }
    }

    /** Overwriting a found entry's key and value in place. */
    method Overwrite(h: nat, ghost i: nat, entry: Node, key: int, value: int)
      requires Valid() && h < cap && i < |chains[h]| && entry == chains[h][i] && Bucket(fns, key, capBits) == h
      modifies this`table, entry`key, entry`value
      ensures Valid() && table == old(table)[h := old(table)[h][i := Pair(key, value)]]
    {
      assert forall b {:trigger chains[b]} :: 0 <= b < cap && b != h ==> entry !in chains[b] by {
        OnlyInItsChain(h, i);
      }
      ghost var was := table;
      assert ChainOk(buckets[h], chains[h], table[h]);
      assert InPool(chains[h], nodes);
      entry.key := key;
      entry.value := value;
      table := table[h := table[h][i := Pair(key, value)]];
      forall b | 0 <= b < |chains|
        ensures ChainOk(buckets[b], chains[b], table[b])
      {
      }
      SameSizes(was, h, i, Pair(key, value));
    }

    lemma OnlyInItsChain(h: nat, i: nat)
      requires Valid() && h < cap && i < |chains[h]|
      ensures forall b {:trigger chains[b]} :: 0 <= b < cap && b != h ==> chains[h][i] !in chains[b]
    {
      assert ChainOk(buckets[h], chains[h], table[h]);
      InBucket(fns, chains[h], table, h, capBits);
      forall b {:trigger chains[b]} | 0 <= b < cap && b != h
        ensures chains[h][i] !in chains[b]
      {
        assert ChainOk(buckets[b], chains[b], table[b]);
        InBucket(fns, chains[b], table, b, capBits);
        assert chains[h][i] in chains[h];
      }
    }

    /** A new entry at the head of its bucket. */
    method PushNew(h: nat, key: int, value: int)
      requires Valid() && h < cap && Bucket(fns, key, capBits) == h
      modifies this, buckets
      ensures Valid() && table == Pushed(fns, old(table), capBits, Pair(key, value))
      ensures capBits == old(capBits) && buckets == old(buckets) && sz == old(sz) + 1
      ensures old(nodes) <= nodes && forall n :: n in nodes ==> n in old(nodes) || fresh(n)
    {
      var entry := new Node(key, value);
      ghost var was := table;
      PushEntry(buckets, h, entry, chains, table, nodes);
      PushedOk(fns, was, capBits, Pair(key, value));
      PushAdds(was, h, Pair(key, value));
      Record(chains[h := [entry] + chains[h]], Pushed(fns, was, capBits, Pair(key, value)), nodes + {entry}, sz + 1);
    }

    /** Bookkeeping after a chain has changed. */
    method Record(ghost chains': seq<seq<Node>>, ghost table': Table, ghost nodes': set<Node>, sz': nat)
      requires cap == buckets.Length == Capacity(capBits) && (capBits == 0 || 2 <= capBits < FAIL_BITS)
      requires AllOk(buckets, chains', table', nodes') && TableOk(fns, table', capBits) && sz' == |Flatten(table')|
      modifies this`chains, this`table, this`nodes, this`sz
      ensures Valid() && chains == chains' && table == table' && nodes == nodes' && sz == sz'
    {
      chains, table, nodes, sz := chains', table', nodes', sz';
    }

    /** hashmap_insert. */
    method Insert(key: int, value: int, strategy: Strategy) returns (err: Err, oldKey: int, oldValue: int)
      requires Valid()
      modifies this, buckets, nodes
      ensures Valid()
      ensures Outcome(table, capBits, err, oldKey, oldValue)
           == HashSpec.Insert(fns, old(table), old(capBits), key, value, strategy)
      ensures buckets == old(buckets) || fresh(buckets)
      ensures old(nodes) <= nodes && forall n :: n in nodes ==> n in old(nodes) || fresh(n)
    {
      oldKey, oldValue := 0, 0;
      var h := Bucket(fns, key, capBits);
      BucketSmall(fns, key, capBits);
      if strategy != APPEND {
        var found, _, entry, i := FindEntry(key, h);
        if found {
          oldKey, oldValue := entry.key, entry.value;
          if strategy == SET || strategy == UPDATE {
            Overwrite(h, i, entry, key, value);
            return OK, oldKey, oldValue;
          }
          return EEXIST, oldKey, oldValue;
        }
      }
      if strategy == UPDATE {
        return ENOENT, oldKey, oldValue;
      }
      err := InsertNew(key, value);
    }

    /** The second half of hashmap_insert: grow if needed, then link a new entry. */
    method InsertNew(key: int, value: int) returns (err: Err)
      requires Valid()
      modifies this, buckets, nodes
      ensures Valid()
      ensures Outcome(table, capBits, err, 0, 0) == HashSpec.Insert(fns, old(table), old(capBits), key, value, APPEND)
      ensures buckets == old(buckets) || fresh(buckets)
      ensures old(nodes) <= nodes && forall n :: n in nodes ==> n in old(nodes) || fresh(n)
    {
      if cap == 0 || (sz + 1) * 4 / 3 > cap {
        err := Grow();
        if err != OK {
          return;
        }
      }
      var h := Bucket(fns, key, capBits);
      BucketSmall(fns, key, capBits);
      PushNew(h, key, value);
      err := OK;
    }

    /** hashmap_find. */
    method Find(key: int) returns (r: Option<int>)
      requires Valid()
      ensures r == Lookup(fns, table, capBits, key)
    {
      var h := Bucket(fns, key, capBits);
      BucketSmall(fns, key, capBits);
      var found, _, entry, _ := FindEntry(key, h);
      return if found then Some(entry.value) else None;
    }

    /** hashmap_delete. */
    method Delete(key: int) returns (found: bool, oldKey: int, oldValue: int)
      requires Valid()
      modifies this, buckets, nodes`next
      ensures Valid() && capBits == old(capBits) && buckets == old(buckets)
      ensures if found then exists n :: n in old(nodes) && nodes == old(nodes) - {n} else nodes == old(nodes)
      ensures table == HashSpec.Delete(fns, old(table), capBits, key)
      ensures found <==> Lookup(fns, old(table), capBits, key).Some?
      ensures found ==> fns.eq(oldKey, key) && Lookup(fns, old(table), capBits, key) == Some(oldValue)
    {
      oldKey, oldValue := 0, 0;
      var h := Bucket(fns, key, capBits);
      BucketSmall(fns, key, capBits);
      var prev, entry;
      ghost var i;
      found, prev, entry, i := FindEntry(key, h);
      if found {
        oldKey, oldValue := entry.key, entry.value;
        Remove(h, i, prev, entry);
      }
    }

    /** Unlinking and freeing a found entry. */
    method Remove(h: nat, ghost i: nat, prev: Node?, entry: Node)
      requires Valid() && h < cap && i < |chains[h]| && entry == chains[h][i]
      requires prev == if i == 0 then null else chains[h][i - 1]
      modifies this, buckets, nodes`next
      ensures Valid() && capBits == old(capBits) && buckets == old(buckets) && nodes == old(nodes) - {entry}
      ensures table == old(table)[h := Drop(old(table)[h], i)]
    {
      ghost var ns, c, was := chains[h], table[h], table;
      assert ChainOk(buckets[h], ns, c) && InPool(ns, nodes);
      DelEntry(buckets, h, prev, entry, ns, c, i);
      ghost var chains', table' := chains[h := DropNode(ns, i)], table[h := Drop(c, i)];
      forall b | 0 <= b < |chains|
        ensures InPool(chains'[b], nodes - {entry})
        ensures ChainOk(buckets[b], chains'[b], table'[b])
      {
        assert InPool(chains[b], nodes);
        if b != h {
          OtherChain(fns, chains[b], ns, was, b, h, capBits);
        }
      }
      DropOk(fns, was, capBits, h, i);
      DropCovers(chains, h, i, nodes);
      Record(chains', table', nodes - {entry}, sz - 1);
    }

    /** hashmap__for_each_key_entry: the values stored for a key, in the order they are visited. */
    method ForEachKeyEntry(key: int) returns (values: seq<int>)
      requires Valid()
      ensures values == ValuesFor(fns, table, capBits, key)
    {
      values := [];
      var h := Bucket(fns, key, capBits);
      BucketSmall(fns, key, capBits);
      if buckets.Length == 0 {
        return;
      }
      ghost var ns, c := chains[h], table[h];
      assert ChainOk(buckets[h], ns, c);
      var cur := buckets[h];
      ghost var i, done: Chain := 0, [];
      while cur != null
        invariant 0 <= i <= |ns| == |c| && cur == (if i < |ns| then ns[i] else null)
        invariant done == c[..i] && values == Matches(fns, done, key)
        decreases |ns| - i
      {
        assert cur.key == ns[i].key == c[i].key && cur.value == ns[i].value == c[i].value && cur.next == ns[i].next;
        MatchesSnoc(fns, done, c[i], key);
        if fns.eq(cur.key, key) {
          values := values + [cur.value];
        }
        done := done + [c[i]];
        cur, i := cur.next, i + 1;
      }
      assert done == c;
    }

    /** hashmap__for_each_entry: every entry once, bucket by bucket. */
    method ForEachEntry() returns (entries: seq<Pair>)
      requires Valid()
      ensures entries == Flatten(table) && |entries| == sz
    {
      entries := [];
      assert table[..0] == [];
      var bkt := 0;
      while bkt < cap
        invariant bkt <= cap && entries == Flatten(table[..bkt])
      {
        var chain := ChainEntries(bkt);
        assert table[..bkt + 1][..bkt] == table[..bkt];
        entries := entries + chain;
        bkt := bkt + 1;
      }
      assert table[..bkt] == table;
    }

    method ChainEntries(bkt: nat) returns (entries: seq<Pair>)
      requires Valid() && bkt < cap
      ensures entries == table[bkt]
    {
      entries := [];
      ghost var ns, c := chains[bkt], table[bkt];
      assert ChainOk(buckets[bkt], ns, c);
      var cur := buckets[bkt];
      ghost var i: nat := 0;
      while cur != null
        invariant i <= |ns| == |c| && cur == (if i < |ns| then ns[i] else null) && entries == c[..i]
        decreases |ns| - i
      {
        assert cur.key == ns[i].key == c[i].key && cur.value == ns[i].value == c[i].value && cur.next == ns[i].next;
        entries := entries + [Pair(cur.key, cur.value)];
        cur, i := cur.next, i + 1;
      }
    }

    /** hashmap__clear. */
    method Clear()
      requires Valid()
      modifies this
      ensures Valid() && table == [] && capBits == 0 && fresh(buckets)
    {
      buckets := new Node?[0];
      cap, capBits, sz := 0, 0, 0;
      chains, table, nodes := [], [], {};
    }

    /** The old chains from bucket bkt on are untouched; the moved entries come from the buckets before. */
    ghost predicate Untouched(bkt: nat, pool: set<Node>)
      reads this, buckets, nodes
    {
      && buckets.Length == |chains| == |table| == cap
      && (forall b {:trigger chains[b]} :: 0 <= b < cap ==> InPool(chains[b], nodes))
      && (forall b {:trigger chains[b]} :: bkt <= b < cap ==> ChainOk(buckets[b], chains[b], table[b]))
      && pool <= nodes && forall n :: n in pool ==> Bucket(fns, n.key, capBits) < bkt
    }

    lemma StartUntouched()
      requires Valid()
      ensures Untouched(0, {})
    {
    }

    /** hashmap_grow for one old bucket. */
    method MoveBucket(
        newBits: nat, newBuckets: array<Node?>, bkt: nat, ghost newChains: seq<seq<Node>>, ghost pool: set<Node>)
      returns (ghost nowChains: seq<seq<Node>>, ghost nowPool: set<Node>)
      requires bkt < cap && Untouched(bkt, pool) && TableOk(fns, table, capBits) && 0 < newBits <= 64
      requires newBuckets != buckets && newBuckets.Length == Capacity(newBits)
      requires AllOk(newBuckets, newChains, GrownFrom(fns, Flatten(table[..bkt]), newBits), pool)
      modifies newBuckets, nodes`next
      ensures AllOk(newBuckets, nowChains, GrownFrom(fns, Flatten(table[..bkt + 1]), newBits), nowPool)
      ensures Untouched(bkt + 1, nowPool) && nowPool == pool + NodesOf(chains[bkt])
    {
      ghost var ns, c := chains[bkt], table[bkt];
      assert ChainOk(buckets[bkt], ns, c) && InPool(ns, nodes);
      InBucket(fns, ns, table, bkt, capBits);
      FlattenNext(table, bkt);
      nowChains := MoveChain(fns, newBits, newBuckets, buckets[bkt], ns, c, newChains, pool, Flatten(table[..bkt]));
      nowPool := pool + NodesOf(ns);
      forall b {:trigger chains[b]} | bkt < b < cap
        ensures ChainOk(buckets[b], chains[b], table[b])
      {
        OtherChain(fns, chains[b], ns, table, b, bkt, capBits);
      }
    }

    /** The loop of hashmap_grow over the old buckets. */
    method MoveAll(newBits: nat, newBuckets: array<Node?>) returns (ghost newChains: seq<seq<Node>>)
      requires Valid() && 0 < newBits <= 64
      requires newBuckets != buckets && newBuckets.Length == Capacity(newBits)
      requires forall b :: 0 <= b < newBuckets.Length ==> newBuckets[b] == null
      modifies newBuckets, nodes`next
      ensures AllOk(newBuckets, newChains, Grown(fns, table, newBits), nodes)
    {
      newChains := StartEmpty(fns, newBits, newBuckets);
      ghost var pool: set<Node> := {};
      assert table[..0] == [];
      StartUntouched();
      var bkt := 0;
      while bkt < cap
        invariant bkt <= cap && Untouched(bkt, pool) && CoversFrom(chains, bkt, nodes, pool)
        invariant AllOk(newBuckets, newChains, GrownFrom(fns, Flatten(table[..bkt]), newBits), pool)
      {
        MoveCovers(chains, bkt, nodes, pool);
        newChains, pool := MoveBucket(newBits, newBuckets, bkt, newChains, pool);
        bkt := bkt + 1;
      }
      assert table[..bkt] == table;
      AllMoved(bkt, pool);
    }

    /** After the last bucket every node has been moved. */
    lemma AllMoved(bkt: nat, pool: set<Node>)
      requires Untouched(bkt, pool) && CoversFrom(chains, bkt, nodes, pool) && bkt >= cap
      ensures pool == nodes
    {
      assert forall n :: n in nodes ==> !OnChainFrom(chains, bkt, n);
    }
  }

  lemma FlattenNext(t: Table, k: nat)
    requires k < |t|
    ensures Flatten(t[..k + 1]) == Flatten(t[..k]) + t[k]
  {
    assert t[..k + 1][..k] == t[..k];
  }

  /** Entries of different buckets differ. */
  lemma OtherChain(fns: Fns, a: seq<Node>, b: seq<Node>, table: Table, i: nat, j: nat, bits: nat)
    requires TableOk(fns, table, bits) && i < |table| && j < |table| && i != j
    requires Holds(a, table[i]) && Holds(b, table[j])
    ensures forall n :: n in a ==> n !in b
  {
    InBucket(fns, a, table, i, bits);
    InBucket(fns, b, table, j, bits);
  }

  lemma BucketSmall(fns: Fns, key: int, bits: nat)
    requires bits <= 64
    ensures bits > 0 ==> Bucket(fns, key, bits) < Capacity(bits)
  {
    if bits > 0 {
      BucketInRange(fns, key, bits);
    }
  }

  lemma GrownFacts(fns: Fns, t: Table, bits: nat) returns (r: Table)
    requires 0 < bits <= 64
    ensures r == Grown(fns, t, bits) && TableOk(fns, r, bits) && |Flatten(r)| == |Flatten(t)|
  {
    r := Grown(fns, t, bits);
    GrownOk(fns, t, bits);
    GrowthKeepsPairs(fns, t, bits);
  }

  lemma StartEmpty(fns: Fns, bits: nat, buckets: array<Node?>) returns (chains: seq<seq<Node>>)
    requires buckets.Length == Capacity(bits) && forall b :: 0 <= b < buckets.Length ==> buckets[b] == null
    ensures AllOk(buckets, chains, GrownFrom(fns, Flatten([]), bits), {})
  {
    chains := seq(buckets.Length, b => []);
    assert forall b :: 0 <= b < Capacity(bits) ==> GrownFrom(fns, Flatten([]), bits)[b] == [];
  }

  /** The entries of chain b hash to b. */
  lemma InBucket(fns: Fns, ns: seq<Node>, table: Table, b: nat, bits: nat)
    requires TableOk(fns, table, bits) && b < |table| && Holds(ns, table[b])
    ensures forall n :: n in ns ==> Bucket(fns, n.key, bits) == b
  {
  }
}
