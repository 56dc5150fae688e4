/**
 * A separate-chaining hash table. The slots live in an array; each slot
 * holds its chain of key/data nodes, head first. A new key is prepended to
 * its slot's chain; when the load factor is above the load limit before an
 * insertion, the table is first rebuilt with a prime number of slots at
 * least twice as many as before.
 */
module HashtableImplementation {
  import opened Chains
  import opened Primes

  /** The slot count of the argument-less constructor. */
  const DefaultBucketSize: int := 2047

  /** The default slot count is not prime: 2047 = 23 * 89. */
  lemma DefaultBucketSizeNotPrime()
    ensures !Prime(DefaultBucketSize)
  {
    assert 2047 == 23 * 89;
    assert Divides(23, DefaultBucketSize);
  }

  /** The default load limit 0.75, as the fraction 3 / 4. */
  const DefaultLoadLimitNum: int := 3
  const DefaultLoadLimitDen: int := 4

  class Hashtable<K(==, !new), V> {
    /** The keys' `hashCode()`. */
    const hashCode: K -> int32
    /** The load limit, as the fraction loadLimitNum / loadLimitDen. */
    const loadLimitNum: int
    const loadLimitDen: int

    var table: array<Chain<K, V>>
    var size: nat
    var bucketSize: nat

    /** The map the table stores. */
    ghost var contents: map<K, V>

    /**
     * The table invariant: `bucketSize` slots, each node in the chain of its
     * key's slot, no key twice, lookups agree with `contents`, and `size`
     * counts the nodes, which is the number of stored keys.
     */
    ghost predicate Valid()
      reads this, table
    {
      && loadLimitDen > 0
      && bucketSize == table.Length
      && Wellformed(table[..], hashCode, contents)
      && size == Total(table[..])
      && size == |contents|
    }

    /** An empty table of `initialCapacity` slots and the given load limit. */
    constructor (initialCapacity: int, initialLoadLimitNum: int, initialLoadLimitDen: int,
                 hashCode: K -> int32)
      requires initialCapacity >= 1 && initialLoadLimitDen > 0
      ensures Valid() && fresh(table)
      ensures size == 0 && bucketSize == initialCapacity && contents == map[]
      ensures forall i :: 0 <= i < table.Length ==> table[i] == []
      ensures loadLimitNum == initialLoadLimitNum && loadLimitDen == initialLoadLimitDen
      ensures this.hashCode == hashCode
    {
      this.hashCode := hashCode;
      loadLimitNum, loadLimitDen := initialLoadLimitNum, initialLoadLimitDen;
      size := 0;
      bucketSize := initialCapacity;
      table := new Chain<K, V>[initialCapacity](_ => []);
      contents := map[];
      new;
      EmptyWellformed(table[..], hashCode);
      TotalEmpty(table[..]);
    }

    /** An empty table of `initialSize` slots and the default load limit. */
    constructor WithCapacity(initialSize: int, hashCode: K -> int32)
      requires initialSize >= 1
      ensures Valid() && fresh(table)
      ensures size == 0 && bucketSize == initialSize && contents == map[]
      ensures forall i :: 0 <= i < table.Length ==> table[i] == []
      ensures loadLimitNum == DefaultLoadLimitNum && loadLimitDen == DefaultLoadLimitDen
      ensures this.hashCode == hashCode
    {
      this.hashCode := hashCode;
      loadLimitNum, loadLimitDen := DefaultLoadLimitNum, DefaultLoadLimitDen;
      size := 0;
      bucketSize := initialSize;
      table := new Chain<K, V>[initialSize](_ => []);
      contents := map[];
      new;
      EmptyWellformed(table[..], hashCode);
      TotalEmpty(table[..]);
    }

    /** An empty table with the default slot count and load limit. */
    constructor Default(hashCode: K -> int32)
      ensures Valid() && fresh(table)
      ensures size == 0 && bucketSize == DefaultBucketSize && contents == map[]
      ensures forall i :: 0 <= i < table.Length ==> table[i] == []
      ensures loadLimitNum == DefaultLoadLimitNum && loadLimitDen == DefaultLoadLimitDen
      ensures this.hashCode == hashCode
    {
      this.hashCode := hashCode;
      loadLimitNum, loadLimitDen := DefaultLoadLimitNum, DefaultLoadLimitDen;
      size := 0;
      bucketSize := DefaultBucketSize;
      table := new Chain<K, V>[DefaultBucketSize](_ => []);
      contents := map[];
      new;
      EmptyWellformed(table[..], hashCode);
      TotalEmpty(table[..]);
    }

    /** The slot of `key` in the current table. */
    function GetSlot(key: K): (s: nat)
      reads this
      requires table.Length > 0
      ensures s < table.Length
    {
      Slot(hashCode(key), table.Length)
    }

    /** The stored key count. */
    function Size(): (n: nat)
      reads this, table
      requires Valid()
      ensures n == |contents|
    {
      size
    }

    /** The current slot count. */
    function BucketSize(): (n: nat)
      reads this, table
      requires Valid()
      ensures n == table.Length && n >= 1
    {
      bucketSize
    }

    /**
     * Whether the load factor `size / bucketSize` is above the load limit,
     * decided exactly by cross-multiplying.
     */
    function LoadFactorExceedsLimit(): (b: bool)
      reads this
      requires bucketSize > 0 && loadLimitDen > 0
      ensures b <==> (size as real) / (bucketSize as real) > (loadLimitNum as real) / (loadLimitDen as real)
    {
      CrossMultiply(size, bucketSize, loadLimitNum, loadLimitDen);
      size * loadLimitDen > loadLimitNum * bucketSize
    }

    /**
     * The position of `key` in its slot's chain, walking from the head, or
     * None when no node holds it.
     */
    method GetNode(key: K) returns (node: Option<nat>)
      requires Valid()
      ensures node.Some? <==> key in contents
      ensures node.Some? ==> node.value < |table[GetSlot(key)]|
      ensures node.Some? ==> table[GetSlot(key)][node.value] == (key, contents[key])
    {
      var chain := table[GetSlot(key)];
      assert chain == table[..][GetSlot(key)];
      assert UniqueKeys(chain);
      assert Find(chain, key) == Lookup(contents, key);
      var j := 0;
      while j < |chain|
        invariant 0 <= j <= |chain|
        invariant forall i :: 0 <= i < j ==> chain[i].0 != key
      {
        if chain[j].0 == key {
          FindAt(chain, j);
          return Some(j);
        }
        j := j + 1;
      }
      return None;
    }

    /** Whether a node holds `key`. */
    method ContainsKey(key: K) returns (b: bool)
      requires Valid()
      ensures b <==> key in contents
    {
      var node := GetNode(key);
      b := node.Some?;
    }

    /** The data stored under `key`, or None. */
    method Get(key: K) returns (r: Option<V>)
      requires Valid()
      ensures r == Lookup(contents, key)
    {
      var node := GetNode(key);
      if node.Some? {
        return Some(table[GetSlot(key)][node.value].1);
      }
      return None;
    }

    /**
     * Stores `data` under `key`: overwrites the node of a present key in
     * place; otherwise rebuilds the table first if the load factor is above
     * the limit, then prepends a new node to the key's chain.
     */
    method Put(key: K, data: V)
      requires Valid()
      modifies this, table
      ensures Valid()
      ensures contents == old(contents)[key := data]
      ensures size == if key in old(contents) then old(size) else old(size) + 1
      ensures key in old(contents) ==>
        && table == old(table) && bucketSize == old(bucketSize)
        && exists j :: 0 <= j < |old(table[GetSlot(key)])|
             && old(table[GetSlot(key)])[j].0 == key
             && table[..] == old(table[..])[GetSlot(key) := old(table[GetSlot(key)])[j := (key, data)]]
      ensures key !in old(contents) && !old(LoadFactorExceedsLimit()) ==>
        && table == old(table) && bucketSize == old(bucketSize)
        && table[..] == old(table[..])[GetSlot(key) := [(key, data)] + old(table[GetSlot(key)])]
      ensures key !in old(contents) && old(LoadFactorExceedsLimit()) ==>
        && fresh(table)
        && IsNextPrime(2 * old(bucketSize), bucketSize)
        && |table[GetSlot(key)]| > 0 && table[GetSlot(key)][0] == (key, data)
    {
      var node := GetNode(key);
      if node.Some? {
        var s := GetSlot(key);
        var j := node.value;
        Overwrite(table[..], hashCode, contents, key, data, j);
        TotalUpdate(table[..], s, table[s][j := (key, data)]);
        table[s] := table[s][j := (key, data)];
        contents := contents[key := data];
      } else {
        if LoadFactorExceedsLimit() {
          Reload();
        }
        var index := GetSlot(key);
        InsertNew(table[..], hashCode, contents, key, data);
        TotalUpdate(table[..], index, [(key, data)] + table[index]);
        table[index] := [(key, data)] + table[index];
        size := size + 1;
        contents := contents[key := data];
      }
    }

    /**
     * Unlinks the node of `key` and returns its data: the head node by
     * resetting the slot, a later node by splicing it out after walking to
     * its predecessor. An absent key returns None and changes nothing.
     */
    method Remove(key: K) returns (r: Option<V>)
      requires Valid()
      modifies this, table
      ensures Valid() && table == old(table) && bucketSize == old(bucketSize)
      ensures r == Lookup(old(contents), key)
      ensures contents == old(contents) - {key}
      ensures size == if key in old(contents) then old(size) - 1 else old(size)
      ensures key !in old(contents) ==> table[..] == old(table[..])
      ensures key in old(contents) ==>
        && (forall i :: 0 <= i < table.Length && i != GetSlot(key) ==> table[i] == old(table[i]))
        && RemoveAsWritten(old(table[GetSlot(key)]), key) == Removed(r.value, table[GetSlot(key)])
    {
      var slot := GetSlot(key);
      var head := table[slot];
      assert head == table[..][slot];
      assert UniqueKeys(head);
      assert Find(head, key) == Lookup(contents, key);
      if head == [] {
        return None;
      }
      var meta := 0;
      if head[0].0 != key {
        var proto := 0;
        while proto + 1 < |head| && head[proto + 1].0 != key
          invariant 0 <= proto < |head|
          invariant forall i :: 0 <= i <= proto ==> head[i].0 != key
        {
          proto := proto + 1;
        }
        if proto + 1 == |head| {
          return None;
        }
        meta := proto + 1;
      }
      RemoveAt(table[..], hashCode, contents, key, meta);
      RemoveAsWrittenUnlinks(head, key, meta);
      TotalUpdate(table[..], slot, head[..meta] + head[meta + 1..]);
      r := Some(head[meta].1);
      table[slot] := head[..meta] + head[meta + 1..];
      size := size - 1;
      contents := contents - {key};
    }

    /** Rebuilds the table with the smallest prime slot count at or above twice the current one. */
    method Reload()
      requires Valid()
      modifies this
      ensures Valid() && fresh(table)
      ensures contents == old(contents) && size == old(size)
      ensures IsNextPrime(2 * old(bucketSize), bucketSize)
    {
      var tempSize := GetNextPrime(2 * bucketSize);
      ReloadWith(tempSize);
    }

    /** Rebuilds the table with `tempSize` slots, as `BuildTable` lays them out. */
    method ReloadWith(tempSize: int)
      requires Valid() && tempSize >= 1
      modifies this
      ensures Valid() && fresh(table)
      ensures bucketSize == tempSize
      ensures contents == old(contents) && size == old(size)
    {
      var temp := BuildTable(tempSize);
      table := temp;
      bucketSize := tempSize;
    }

    /**
     * The new slots of a rebuild: walks every old chain from its head and
     * prepends a copy of each node to its slot's chain among `tempSize` new
     * slots, which then store exactly the current pairs.
     */
    method BuildTable(tempSize: int) returns (temp: array<Chain<K, V>>)
      requires Valid() && tempSize >= 1
      ensures fresh(temp) && temp.Length == tempSize
      ensures Wellformed(temp[..], hashCode, contents)
      ensures Total(temp[..]) == size
    {
      temp := new Chain<K, V>[tempSize](_ => []);
      ghost var bs, m := table[..], contents;
      ghost var moved: map<K, V> := map[];
      EmptyWellformed(temp[..], hashCode);
      TotalEmpty(temp[..]);
      var i := 0;
      while i < table.Length
        modifies temp
        invariant 0 <= i <= table.Length
        invariant Wellformed(temp[..], hashCode, moved)
        invariant Total(temp[..]) == Total(bs[..i])
        invariant MovedBefore(bs, hashCode, m, moved, i)
      {
        moved := MoveChain(temp, table[i], bs, m, i, moved);
        TotalSnoc(bs, i);
        i := i + 1;
      }
      assert bs[..table.Length] == bs;
      MovedAll(bs, hashCode, m, moved);
    }

    /**
     * The inner walk of a rebuild: prepends each node of old chain `i`, from
     * the head on, to its slot's chain in `temp`.
     */
    method MoveChain(temp: array<Chain<K, V>>, chain: Chain<K, V>, ghost bs: seq<Chain<K, V>>,
                     ghost m: map<K, V>, ghost i: int, ghost moved: map<K, V>)
      returns (ghost moved': map<K, V>)
      requires Wellformed(bs, hashCode, m) && 0 <= i < |bs| && chain == bs[i]
      requires Wellformed(temp[..], hashCode, moved)
      requires MovedBefore(bs, hashCode, m, moved, i)
      modifies temp
      ensures Wellformed(temp[..], hashCode, moved')
      ensures MovedBefore(bs, hashCode, m, moved', i + 1)
      ensures Total(temp[..]) == old(Total(temp[..])) + |chain|
    {
      MovedChainStart(bs, hashCode, m, moved, i);
      moved' := moved;
      var node := 0;
      while node < |chain|
        invariant 0 <= node <= |chain|
        invariant Wellformed(temp[..], hashCode, moved')
        invariant Total(temp[..]) == old(Total(temp[..])) + node
        invariant MovedWithin(bs, hashCode, m, moved', i, node)
      {
        var (k, v) := chain[node];
        var index := Slot(hashCode(k), temp.Length);
        MoveStep(bs, hashCode, m, moved', i, node);
        InsertNew(temp[..], hashCode, moved', k, v);
        TotalUpdate(temp[..], index, [(k, v)] + temp[index]);
        temp[index] := [(k, v)] + temp[index];
        moved' := moved'[k := v];
        node := node + 1;
      }
      MovedChainEnd(bs, hashCode, m, moved', i);
    }
  }

  /** Comparing two fractions with positive denominators by cross-multiplying. */
  lemma CrossMultiply(a: int, b: int, c: int, d: int)
    requires b > 0 && d > 0
    ensures (a as real) / (b as real) > (c as real) / (d as real) <==> a * d > c * b
  {
    var x, y := (a as real) / (b as real), (c as real) / (d as real);
    assert x * (b as real) == a as real;
    assert y * (d as real) == c as real;
    assert (a * d) as real == x * (b as real) * (d as real);
    assert (c * b) as real == y * (d as real) * (b as real);
  }
}
