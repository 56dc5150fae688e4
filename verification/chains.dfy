/**
 * The values behind the hash table: slot addressing, chains of key/value
 * nodes (head first) and the invariant that ties a sequence of chains to
 * the map it stores. Everything here is pure; the class in hashtable.dfy
 * keeps its chains in an array and proves its methods against these
 * definitions.
 */
module Chains {

  datatype Option<T> = None | Some(value: T)

  /** A Java `int`, the result type of `hashCode()`. */
  newtype int32 = x: int | -0x8000_0000 <= x < 0x8000_0000

  const MinInt: int32 := -0x8000_0000

  /** One chain: its nodes from the head on, each a key and its data. */
  type Chain<K, V> = seq<(K, V)>

  // ---------------------------------------------------------------------
  // Slot addressing

  /** The slot with the magnitude of the hash taken without wrap-around. */
  function Slot(h: int32, n: int): (s: nat)
    requires n > 0
    ensures s < n
  {
    (if h < 0 then -(h as int) else h as int) % n
  }

  /** `Math.abs` on a Java `int`: the negation wraps at the minimum value. */
  function JavaAbs(h: int32): int32 {
    if h == MinInt then h else if h < 0 then -h else h
  }

  /** Java's `%`, which truncates towards zero. */
  function JavaRem(a: int, n: int): int
    requires n > 0
  {
    if a >= 0 then a % n else -((-a) % n)
  }

  /**
   * The slot as the source computes it: `Math.abs(hash) % size`. It has the
   * magnitude of `Slot` but may be negative, and then lies outside the table.
   */
  function JavaSlot(h: int32, n: int): (s: int)
    requires n > 0
    ensures -n < s < n
    ensures s == Slot(h, n) || s == -(Slot(h, n) as int)
  {
    JavaRem(JavaAbs(h) as int, n)
  }

  /** Wherever `Math.abs` does not wrap, the source's slot is `Slot`. */
  lemma SlotAgreesWithJava(h: int32, n: int)
    requires n > 0 && h != MinInt
    ensures JavaSlot(h, n) == Slot(h, n)
  {
  }

  /**
   * For the minimum `int` hash the source's slot is negative whenever the
   * size does not divide 2^31, which is every odd size above 1, so every
   * prime size above 2.
   */
  lemma JavaSlotNegativeAtMinInt(n: int)
    requires n > 0 && 0x8000_0000 % n != 0
    ensures JavaSlot(MinInt, n) < 0
    ensures JavaSlot(MinInt, n) == -(Slot(MinInt, n) as int)
  {
  }

  /** The default table of 2047 slots sends a key hashing to the minimum `int` to slot -512. */
  lemma JavaSlotAtMinIntInDefaultTable()
    ensures JavaSlot(MinInt, 2047) == -512
  {
    JavaSlotNegativeAtMinInt(2047);
  }

  // ---------------------------------------------------------------------
  // Chains

  /** The keys stored in a chain. */
  ghost function KeysOf<K(!new), V>(c: Chain<K, V>): set<K> {
    set i | 0 <= i < |c| :: c[i].0
  }

  /** The data of the first node with key `k`, walking from the head. */
  ghost function Find<K(!new), V>(c: Chain<K, V>, k: K): (r: Option<V>)
    ensures r.Some? <==> k in KeysOf(c)
    ensures r.Some? ==> (k, r.value) in c
  {
    if c == [] then None
    else if c[0].0 == k then Some(c[0].1)
    else
      assert KeysOf(c) == {c[0].0} + KeysOf(c[1..]) by {
        assert c == [c[0]] + c[1..];
      }
      Find(c[1..], k)
  }

  /** No two nodes of a chain hold the same key. */
  ghost predicate UniqueKeys<K(!new), V>(c: Chain<K, V>) {
    forall i, j :: 0 <= i < j < |c| ==> c[i].0 != c[j].0
  }

  /** In a chain with distinct keys `Find` returns the one node's data. */
  lemma {:induction false} FindAt<K(!new), V>(c: Chain<K, V>, j: int)
    requires UniqueKeys(c) && 0 <= j < |c|
    ensures Find(c, c[j].0) == Some(c[j].1)
  {
    if j > 0 {
      FindAt(c[1..], j - 1);
    }
  }

  /** A key of a chain with distinct keys is not among the nodes before it. */
  lemma NotInPrefix<K(!new), V>(c: Chain<K, V>, j: int)
    requires UniqueKeys(c) && 0 <= j < |c|
    ensures c[j].0 !in KeysOf(c[..j])
  {
  }

  lemma KeysOfSnoc<K(!new), V>(c: Chain<K, V>, j: int)
    requires 0 <= j < |c|
    ensures KeysOf(c[..j + 1]) == KeysOf(c[..j]) + {c[j].0}
  {
    assert c[..j + 1] == c[..j] + [c[j]];
  }

  /** The total number of nodes over all chains. */
  ghost function Total<K(!new), V>(bs: seq<Chain<K, V>>): nat {
    if bs == [] then 0 else Total(bs[..|bs| - 1]) + |bs[|bs| - 1]|
  }

  /** Replacing one chain changes the node count by the difference in length. */
  lemma {:induction false} TotalUpdate<K(!new), V>(bs: seq<Chain<K, V>>, i: int, c: Chain<K, V>)
    requires 0 <= i < |bs|
    ensures Total(bs[i := c]) == Total(bs) - |bs[i]| + |c|
  {
    var n := |bs| - 1;
    if i < n {
      assert bs[i := c][..n] == bs[..n][i := c];
      TotalUpdate(bs[..n], i, c);
    } else {
      assert bs[i := c][..n] == bs[..n];
    }
  }

  /** Chains that are all empty hold no node. */
  lemma {:induction false} TotalEmpty<K(!new), V>(bs: seq<Chain<K, V>>)
    requires forall i :: 0 <= i < |bs| ==> bs[i] == []
    ensures Total(bs) == 0
  {
    if bs != [] {
      TotalEmpty(bs[..|bs| - 1]);
    }
  }

  /** The nodes of the first `i` chains and the `i`-th together. */
  lemma TotalSnoc<K(!new), V>(bs: seq<Chain<K, V>>, i: int)
    requires 0 <= i < |bs|
    ensures Total(bs[..i + 1]) == Total(bs[..i]) + |bs[i]|
  {
    assert bs[..i + 1][..i] == bs[..i];
  }

  // ---------------------------------------------------------------------
  // The table invariant

  ghost function Lookup<K(!new), V>(m: map<K, V>, k: K): Option<V> {
    if k in m then Some(m[k]) else None
  }

  /** Every node sits in the chain its key's slot names. */
  ghost predicate Placed<K(!new), V>(bs: seq<Chain<K, V>>, hash: K -> int32) {
    forall i, j :: 0 <= i < |bs| && 0 <= j < |bs[i]| ==> Slot(hash(bs[i][j].0), |bs|) == i
  }

  /** Looking a key up in its slot's chain gives its value in `m`. */
  ghost predicate Represents<K(!new), V>(bs: seq<Chain<K, V>>, hash: K -> int32, m: map<K, V>)
    requires |bs| > 0
  {
    forall k {:trigger Lookup(m, k)} :: Find(bs[Slot(hash(k), |bs|)], k) == Lookup(m, k)
  }

  /**
   * The chains `bs` are a table for `m` under `hash`: at least one slot,
   * every node in its slot, no key twice in a chain, and lookups agree
   * with `m`.
   */
  ghost predicate Wellformed<K(!new), V>(bs: seq<Chain<K, V>>, hash: K -> int32, m: map<K, V>) {
    && |bs| > 0
    && Placed(bs, hash)
    && (forall i :: 0 <= i < |bs| ==> UniqueKeys(bs[i]))
    && Represents(bs, hash, m)
  }

  /** A table of empty chains stores the empty map. */
  lemma EmptyWellformed<K(!new), V>(bs: seq<Chain<K, V>>, hash: K -> int32)
    requires |bs| > 0 && forall i :: 0 <= i < |bs| ==> bs[i] == []
    ensures Wellformed(bs, hash, map[])
  {
  }

  /** Keys are unique across the whole table, not only within a chain. */
  lemma KeysUniqueAcrossChains<K(!new), V>(bs: seq<Chain<K, V>>, hash: K -> int32, m: map<K, V>,
                                     i1: int, j1: int, i2: int, j2: int)
    requires Wellformed(bs, hash, m)
    requires 0 <= i1 < |bs| && 0 <= j1 < |bs[i1]|
    requires 0 <= i2 < |bs| && 0 <= j2 < |bs[i2]|
    requires bs[i1][j1].0 == bs[i2][j2].0
    ensures i1 == i2 && j1 == j2
  {
    assert Slot(hash(bs[i1][j1].0), |bs|) == i1;
    assert Slot(hash(bs[i2][j2].0), |bs|) == i2;
    assert UniqueKeys(bs[i1]);
  }

  /** Every stored pair is a node of the chain its key's slot names. */
  lemma StoredInSlot<K(!new), V>(bs: seq<Chain<K, V>>, hash: K -> int32, m: map<K, V>, k: K)
    requires Wellformed(bs, hash, m) && k in m
    ensures (k, m[k]) in bs[Slot(hash(k), |bs|)]
  {
    assert Find(bs[Slot(hash(k), |bs|)], k) == Lookup(m, k);
  }

  /** Prepending a node for a new key to its slot's chain stores it. */
  lemma InsertNew<K(!new), V>(bs: seq<Chain<K, V>>, hash: K -> int32, m: map<K, V>, k: K, v: V)
    requires Wellformed(bs, hash, m) && k !in m
    ensures var s := Slot(hash(k), |bs|);
      Wellformed(bs[s := [(k, v)] + bs[s]], hash, m[k := v])
  {
    var s := Slot(hash(k), |bs|);
    var bs': seq<Chain<K, V>> := bs[s := [(k, v)] + bs[s]];
    assert Find(bs[s], k) == Lookup(m, k) == None;
    forall i, j | 0 <= i < |bs'| && 0 <= j < |bs'[i]|
      ensures Slot(hash(bs'[i][j].0), |bs'|) == i
    {
      if i == s && j > 0 {
        assert bs'[i][j] == bs[s][j - 1];
      }
    }
    forall i | 0 <= i < |bs'|
      ensures UniqueKeys(bs'[i])
    {
      if i == s {
        forall j | 0 < j < |bs'[i]|
          ensures bs'[i][j].0 != k
        {
          assert bs'[i][j] in bs[s];
        }
        assert UniqueKeys(bs[s]);
        forall a, b | 0 <= a < b < |bs'[i]|
          ensures bs'[i][a].0 != bs'[i][b].0
        {
          if a > 0 {
            assert bs'[i][a] == bs[s][a - 1] && bs'[i][b] == bs[s][b - 1];
          }
        }
      }
    }
    forall k' ensures Find(bs'[Slot(hash(k'), |bs'|)], k') == Lookup(m[k := v], k') {
      assert Find(bs[Slot(hash(k'), |bs|)], k') == Lookup(m, k');
      if Slot(hash(k'), |bs|) == s {
        assert bs'[s][1..] == bs[s];
      }
    }
  }

  /** `Find` looks past a node whose key differs from the one sought. */
  lemma {:induction false} FindUpdateOther<K(!new), V>(c: Chain<K, V>, j: int, v: V, k': K)
    requires 0 <= j < |c| && k' != c[j].0
    ensures Find(c[j := (c[j].0, v)], k') == Find(c, k')
  {
    if c[0].0 != k' && j > 0 {
      assert c[j := (c[j].0, v)][1..] == c[1..][j - 1 := (c[j].0, v)];
      FindUpdateOther(c[1..], j - 1, v, k');
    }
  }

  /** Overwriting the data of the node holding `k` stores `k`'s new value. */
  lemma Overwrite<K(!new), V>(bs: seq<Chain<K, V>>, hash: K -> int32, m: map<K, V>, k: K, v: V, j: int)
    requires Wellformed(bs, hash, m)
    requires 0 <= j < |bs[Slot(hash(k), |bs|)]| && bs[Slot(hash(k), |bs|)][j].0 == k
    ensures var s := Slot(hash(k), |bs|);
      Wellformed(bs[s := bs[s][j := (k, v)]], hash, m[k := v])
  {
    var s := Slot(hash(k), |bs|);
    var c := bs[s][j := (k, v)];
    var bs': seq<Chain<K, V>> := bs[s := c];
    assert UniqueKeys(bs[s]);
    assert UniqueKeys(c) by {
      forall a, b | 0 <= a < b < |c| ensures c[a].0 != c[b].0 {
        assert c[a].0 == bs[s][a].0 && c[b].0 == bs[s][b].0;
      }
    }
    forall i, j' | 0 <= i < |bs'| && 0 <= j' < |bs'[i]|
      ensures Slot(hash(bs'[i][j'].0), |bs'|) == i
    {
      if i == s {
        assert bs'[i][j'].0 == bs[s][j'].0;
      }
    }
    forall k' ensures Find(bs'[Slot(hash(k'), |bs'|)], k') == Lookup(m[k := v], k') {
      assert Find(bs[Slot(hash(k'), |bs|)], k') == Lookup(m, k');
      if k' == k {
        FindAt(c, j);
      } else if Slot(hash(k'), |bs|) == s {
        FindUpdateOther(bs[s], j, v, k');
      }
    }
  }

  /** Splicing a node out of a chain hides only that node's key. */
  lemma {:induction false} FindSpliceOther<K(!new), V>(c: Chain<K, V>, j: int, k': K)
    requires 0 <= j < |c| && k' != c[j].0
    ensures Find(c[..j] + c[j + 1..], k') == Find(c, k')
  {
    if j == 0 {
      assert c[..j] + c[j + 1..] == c[1..];
    } else if c[0].0 != k' {
      assert (c[..j] + c[j + 1..])[1..] == c[1..][..j - 1] + c[1..][j..];
      FindSpliceOther(c[1..], j - 1, k');
    }
  }

  /** The nodes left after splicing out node `j`, in their order. */
  lemma SpliceNodes<K(!new), V>(c: Chain<K, V>, j: int)
    requires UniqueKeys(c) && 0 <= j < |c|
    ensures var c' := c[..j] + c[j + 1..];
      && |c'| == |c| - 1
      && (forall a :: 0 <= a < |c'| ==> c'[a] == c[if a < j then a else a + 1])
      && UniqueKeys(c')
      && c[j].0 !in KeysOf(c')
  {
    var c' := c[..j] + c[j + 1..];
    forall a | 0 <= a < |c'| ensures c'[a] == c[if a < j then a else a + 1] {
    }
  }

  /** Splicing out the node holding `k` removes `k` and nothing else. */
  lemma RemoveAt<K(!new), V>(bs: seq<Chain<K, V>>, hash: K -> int32, m: map<K, V>, k: K, j: int)
    requires Wellformed(bs, hash, m)
    requires 0 <= j < |bs[Slot(hash(k), |bs|)]| && bs[Slot(hash(k), |bs|)][j].0 == k
    ensures k in m && m[k] == bs[Slot(hash(k), |bs|)][j].1
    ensures var s := Slot(hash(k), |bs|);
      Wellformed(bs[s := bs[s][..j] + bs[s][j + 1..]], hash, m - {k})
  {
    var s := Slot(hash(k), |bs|);
    var c := bs[s][..j] + bs[s][j + 1..];
    var bs': seq<Chain<K, V>> := bs[s := c];
    assert UniqueKeys(bs[s]);
    FindAt(bs[s], j);
    assert Find(bs[s], k) == Lookup(m, k);
    SpliceNodes(bs[s], j);
    forall i, j' | 0 <= i < |bs'| && 0 <= j' < |bs'[i]|
      ensures Slot(hash(bs'[i][j'].0), |bs'|) == i
    {
      if i == s {
        assert bs'[i][j'] == bs[s][if j' < j then j' else j' + 1];
      }
    }
    forall k' ensures Find(bs'[Slot(hash(k'), |bs'|)], k') == Lookup(m - {k}, k') {
      assert Find(bs[Slot(hash(k'), |bs|)], k') == Lookup(m, k');
      if k' != k && Slot(hash(k'), |bs|) == s {
        FindSpliceOther(bs[s], j, k');
      }
    }
  }

  // ---------------------------------------------------------------------
  // Rehashing: moving the nodes of `bs` one by one into new chains

  /** `moved` holds exactly the pairs of `m` whose old slot lies below `i`. */
  ghost predicate MovedBefore<K(!new), V>(bs: seq<Chain<K, V>>, hash: K -> int32, m: map<K, V>,
                                          moved: map<K, V>, i: int)
    requires |bs| > 0
  {
    && (forall k :: k in moved <==> k in m && Slot(hash(k), |bs|) < i)
    && (forall k :: k in moved ==> moved[k] == m[k])
  }

  /**
   * `moved` holds exactly the pairs of `m` whose old slot lies below `i`,
   * and those of the first `node` nodes of chain `i`.
   */
  ghost predicate MovedWithin<K(!new), V>(bs: seq<Chain<K, V>>, hash: K -> int32, m: map<K, V>,
                                          moved: map<K, V>, i: int, node: int)
    requires 0 <= i < |bs| && 0 <= node <= |bs[i]|
  {
    && (forall k :: k in moved <==>
         (k in m && (Slot(hash(k), |bs|) < i || (Slot(hash(k), |bs|) == i && k in KeysOf(bs[i][..node])))))
    && (forall k :: k in moved ==> moved[k] == m[k])
  }

  lemma MovedChainStart<K(!new), V>(bs: seq<Chain<K, V>>, hash: K -> int32, m: map<K, V>,
                                    moved: map<K, V>, i: int)
    requires 0 <= i < |bs| && MovedBefore(bs, hash, m, moved, i)
    ensures MovedWithin(bs, hash, m, moved, i, 0)
  {
  }

  /** Once chain `i` is walked to its end, every pair of slot `i` is moved. */
  lemma MovedChainEnd<K(!new), V>(bs: seq<Chain<K, V>>, hash: K -> int32, m: map<K, V>,
                                  moved: map<K, V>, i: int)
    requires Wellformed(bs, hash, m)
    requires 0 <= i < |bs| && MovedWithin(bs, hash, m, moved, i, |bs[i]|)
    ensures MovedBefore(bs, hash, m, moved, i + 1)
  {
    assert bs[i][..|bs[i]|] == bs[i];
    forall k | k in m && Slot(hash(k), |bs|) == i
      ensures k in KeysOf(bs[i])
    {
      assert Find(bs[Slot(hash(k), |bs|)], k) == Lookup(m, k);
    }
  }

  /** After every chain, the moved pairs are all of `m`. */
  lemma MovedAll<K(!new), V>(bs: seq<Chain<K, V>>, hash: K -> int32, m: map<K, V>, moved: map<K, V>)
    requires |bs| > 0 && MovedBefore(bs, hash, m, moved, |bs|)
    ensures moved == m
  {
  }

  /**
   * Node `node` of old chain `i` holds a pair of `m` that is not yet moved;
   * moving it extends the moved pairs by one node of chain `i`.
   */
  lemma MoveStep<K(!new), V>(bs: seq<Chain<K, V>>, hash: K -> int32, m: map<K, V>,
                             moved: map<K, V>, i: int, node: int)
    requires Wellformed(bs, hash, m)
    requires 0 <= i < |bs| && 0 <= node < |bs[i]| && MovedWithin(bs, hash, m, moved, i, node)
    ensures bs[i][node].0 !in moved
    ensures MovedWithin(bs, hash, m, moved[bs[i][node].0 := bs[i][node].1], i, node + 1)
  {
    var (k, v) := bs[i][node];
    assert Slot(hash(k), |bs|) == i;
    assert UniqueKeys(bs[i]);
    FindAt(bs[i], node);
    assert Find(bs[Slot(hash(k), |bs|)], k) == Lookup(m, k);
    NotInPrefix(bs[i], node);
    KeysOfSnoc(bs[i], node);
  }

  // ---------------------------------------------------------------------
  // remove as the source writes it

  /** The outcome of the source's unlinking walk on one chain. */
  datatype RemoveOutcome<K, V> = NullDereference | Removed(data: V, rest: Chain<K, V>)

  /**
   * `remove` on the key's chain as the source writes it: an empty chain
   * dereferences the null head; a matching head is unlinked; otherwise the
   * walk stops at the node before the match and splices it out.
   */
  function RemoveAsWritten<K(==), V>(c: Chain<K, V>, k: K): (r: RemoveOutcome<K, V>)
    ensures r.NullDereference? <==> forall i :: 0 <= i < |c| ==> c[i].0 != k
    ensures r.Removed? ==> |r.rest| == |c| - 1
  {
    if c == [] then NullDereference
    else if c[0].0 == k then Removed(c[0].1, c[1..])
    else SpliceAsWritten(c, k, 0)
  }

  /**
   * The walk from node `p` (`proto`): advance while a next node exists and
   * does not match; a missing next node is the null `meta` it dereferences.
   */
  function SpliceAsWritten<K(==), V>(c: Chain<K, V>, k: K, p: int): (r: RemoveOutcome<K, V>)
    requires 0 <= p < |c|
    ensures r.NullDereference? <==> forall i :: p < i < |c| ==> c[i].0 != k
    ensures r.Removed? ==> |r.rest| == |c| - 1
    decreases |c| - p
  {
    if p + 1 < |c| && c[p + 1].0 != k then SpliceAsWritten(c, k, p + 1)
    else if p + 1 == |c| then NullDereference
    else Removed(c[p + 1].1, c[..p + 1] + c[p + 2..])
  }

  lemma {:induction false} SpliceAbsent<K(!new), V>(c: Chain<K, V>, k: K, p: int)
    requires 0 <= p < |c| && k !in KeysOf(c)
    ensures SpliceAsWritten(c, k, p) == NullDereference
    decreases |c| - p
  {
    if p + 1 < |c| {
      assert c[p + 1] in c;
      SpliceAbsent(c, k, p + 1);
    }
  }

  lemma {:induction false} SplicePresent<K(!new), V>(c: Chain<K, V>, k: K, p: int)
    requires 0 <= p < |c| && k in KeysOf(c[p + 1..])
    ensures SpliceAsWritten(c, k, p).Removed?
    decreases |c| - p
  {
    if c[p + 1].0 != k {
      assert c[p + 1..] == [c[p + 1]] + c[p + 2..];
      SplicePresent(c, k, p + 1);
    }
  }

  lemma {:induction false} SpliceFound<K(!new), V>(c: Chain<K, V>, k: K, p: int, j: int)
    requires 0 <= p < j < |c| && c[j].0 == k
    requires forall i :: p < i < j ==> c[i].0 != k
    ensures SpliceAsWritten(c, k, p) == Removed(c[j].1, c[..j] + c[j + 1..])
    decreases j - p
  {
    if p + 1 < j {
      SpliceFound(c, k, p + 1, j);
    }
  }

  /** The source's `remove` fails exactly when the key is not in its chain. */
  lemma RemoveAsWrittenFailsIffAbsent<K(!new), V>(c: Chain<K, V>, k: K)
    ensures RemoveAsWritten(c, k) == NullDereference <==> k !in KeysOf(c)
  {
    if c != [] && c[0].0 != k {
      if k in KeysOf(c) {
        assert c == [c[0]] + c[1..];
        SplicePresent(c, k, 0);
      } else {
        SpliceAbsent(c, k, 0);
      }
    }
  }

  /**
   * On a well-formed table the source's `remove` fails exactly when the key
   * is not stored.
   */
  lemma RemoveAsWrittenFailsIffNotStored<K(!new), V>(bs: seq<Chain<K, V>>, hash: K -> int32,
                                                     m: map<K, V>, k: K)
    requires Wellformed(bs, hash, m)
    ensures RemoveAsWritten(bs[Slot(hash(k), |bs|)], k) == NullDereference <==> k !in m
  {
    assert Find(bs[Slot(hash(k), |bs|)], k) == Lookup(m, k);
    RemoveAsWrittenFailsIffAbsent(bs[Slot(hash(k), |bs|)], k);
  }

  /** On a present key the source's `remove` unlinks exactly its node. */
  lemma RemoveAsWrittenUnlinks<K(!new), V>(c: Chain<K, V>, k: K, j: int)
    requires UniqueKeys(c) && 0 <= j < |c| && c[j].0 == k
    ensures RemoveAsWritten(c, k) == Removed(c[j].1, c[..j] + c[j + 1..])
  {
    if j > 0 {
      SpliceFound(c, k, 0, j);
    }
  }
}
