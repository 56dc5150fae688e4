# Separate-chaining hash table, modelled in Dafny

This project models `HashtableImplementation<K, D>`, a generic hash table with
separate chaining. The table keeps an array of slots. Each slot holds a chain
of key/data nodes, head first. A key's slot is `|hashCode(key)| % bucketSize`.

- `put` overwrites the data of a present key in place.
- For a new key, `put` first checks the load factor. When `size / bucketSize`
  is above the load limit, it rebuilds the table with the smallest prime slot
  count at or above `2 * bucketSize`. It then prepends a node to the key's chain.
- `remove` unlinks the head node, or walks to the node before the match and
  splices the match out.
- `getNextPrime` counts upwards from its argument until `isPrime` holds.
  `isPrime` uses trial division by odd numbers.

Files:

- `primes.dfy` (module `Primes`): primality, `IsPrime`, `GetNextPrime`, and
  Euclid's argument that there is a prime above every number. That argument is
  what makes `GetNextPrime` terminate.
- `chains.dfy` (module `Chains`): slot arithmetic (both Java's and the corrected
  one), chains as sequences of pairs, and the table invariant `Wellformed`.
  `Wellformed` says every node is in its key's slot, no chain repeats a key, and
  looking a key up in its slot's chain gives its value in the stored map. The
  lemmas show how inserting, overwriting, splicing and rehashing preserve it.
  The module also holds `remove` exactly as the source writes it.
- `hashtable.dfy` (module `HashtableImplementation`): the class `Hashtable`.
  Its fields are `table: array<Chain<K, V>>`, `size` and `bucketSize`. It has a
  ghost field `contents: map<K, V>`, and `Valid()` ties the fields to it. Every
  method is proved against `contents`.
- `scenario.dfy` (module `Scenario`): a client that stores two colliding keys
  in five slots, then reads, overwrites and removes them using only the
  contracts.

The keys' `hashCode()` is a function `K -> int32` that the constructor takes.
Key equality is Dafny's equality. The load limit is the fraction
`loadLimitNum / loadLimitDen`; the default 0.75 is 3/4.

## Model

| member | source | states |
|---|---|---|
| `HashtableImplementation.Hashtable.constructor` | HashtableImplementation.java:13-21 | The new table has `initialCapacity` slots, all empty, `size == 0`, stores the empty map, and keeps the given load limit |
| `HashtableImplementation.Hashtable.WithCapacity` | HashtableImplementation.java:23-25 | As the constructor, with the default load limit 3/4 |
| `HashtableImplementation.Hashtable.Default` | HashtableImplementation.java:27-29 | As the constructor, with 2047 slots and the load limit 3/4 |
| `HashtableImplementation.DefaultBucketSizeNotPrime` | HashtableImplementation.java:5 | The default slot count 2047 is not prime (23 * 89), so only rebuilt tables are guaranteed a prime slot count |
| `HashtableImplementation.Hashtable.GetSlot` | HashtableImplementation.java:88-94 | A key's slot lies in `[0, table.Length)` |
| `HashtableImplementation.Hashtable.Size` | HashtableImplementation.java:158-160 | The size is the number of stored keys |
| `HashtableImplementation.Hashtable.BucketSize` | HashtableImplementation.java:154-156 | The bucket size is the slot count, at least 1 |
| `HashtableImplementation.Hashtable.LoadFactorExceedsLimit` | HashtableImplementation.java:96-98 | The integer test on line 49 holds exactly when `size / bucketSize > loadLimit` over the rationals |
| `HashtableImplementation.CrossMultiply` | HashtableImplementation.java:49 | For positive denominators, `a/b > c/d` holds exactly when `a*d > c*b` |
| `HashtableImplementation.Hashtable.GetNode` | HashtableImplementation.java:100-110 | The chain walk finds a node exactly when the key is stored, and the node found holds the key and its stored data |
| `HashtableImplementation.Hashtable.ContainsKey` | HashtableImplementation.java:31-33 | True exactly when the key is stored |
| `HashtableImplementation.Hashtable.Get` | HashtableImplementation.java:35-40 | Returns the stored data of the key, or None when it is absent |
| `HashtableImplementation.Hashtable.Put` | HashtableImplementation.java:42-57 | Afterwards the map is the old map with `key` bound to `data`. A present key changes one node's data in its chain and nothing else. A new key adds 1 to `size`. It rebuilds exactly when the load factor was above the limit, to the smallest prime at or above twice the old slot count. The new node heads the key's chain |
| `HashtableImplementation.Hashtable.Remove` | HashtableImplementation.java:59-78 | Returns the key's data or None. The key is removed and nothing else. `size` drops by one exactly when the key was present. Only the key's chain changes, as the source's unlinking walk changes it |
| `HashtableImplementation.Hashtable.Reload` | HashtableImplementation.java:112-114 | The rebuilt table stores the same map and size, with the smallest prime slot count at or above twice the old one |
| `HashtableImplementation.Hashtable.ReloadWith` | HashtableImplementation.java:116-133 | The rebuilt table has `tempSize` slots, `bucketSize == tempSize`, and the same map and size |
| `HashtableImplementation.Hashtable.BuildTable` | HashtableImplementation.java:117-128 | The new slots form a well-formed table for exactly the stored map, with one node per stored key |
| `HashtableImplementation.Hashtable.MoveChain` | HashtableImplementation.java:123-127 | Moving one old chain keeps the new slots well-formed and extends the moved pairs to every pair whose old slot is at most `i` |
| `Chains.MoveStep` | HashtableImplementation.java:124-126 | Each node moved during a rebuild carries a stored key not yet moved, so prepending it keeps keys unique |
| `Chains.MovedChainEnd` | HashtableImplementation.java:122-128 | Walking an old chain to its end moves every stored pair of that slot |
| `Chains.Slot` | HashtableImplementation.java:92-94 | The slot taken without wrap-around lies in `[0, n)` |
| `Chains.JavaSlot` | HashtableImplementation.java:92-94 | The source's slot has the magnitude of `Slot` and lies strictly between `-n` and `n`, but may be negative |
| `Chains.SlotAgreesWithJava` | HashtableImplementation.java:92-94 | For every hash except the minimum `int`, Java's `Math.abs(h) % n` equals `Slot` |
| `Chains.JavaSlotNegativeAtMinInt` | HashtableImplementation.java:93 | For the minimum `int` hash, Java's slot is negative whenever `n` does not divide 2^31 |
| `Chains.JavaSlotAtMinIntInDefaultTable` | HashtableImplementation.java:93 | In the default table of 2047 slots, that slot is -512 |
| `Chains.Find` | HashtableImplementation.java:104-108 | Walking a chain finds data exactly when the key is in the chain, and the found pair is a node of the chain |
| `Chains.FindAt` | HashtableImplementation.java:104-108 | In a chain without repeated keys, the walk returns the data of the one node holding the key |
| `Chains.KeysUniqueAcrossChains` | HashtableImplementation.java:44-55 | In a well-formed table, no two nodes anywhere hold the same key |
| `Chains.StoredInSlot` | HashtableImplementation.java:88-94 | Every stored pair is a node of the chain its key's slot names |
| `Chains.InsertNew` | HashtableImplementation.java:52-55 | Prepending a node for a new key to its slot's chain gives a well-formed table for the map extended with that key |
| `Chains.Overwrite` | HashtableImplementation.java:44-46 | Overwriting the data of a key's node gives a well-formed table for the map with the key rebound |
| `Chains.RemoveAt` | HashtableImplementation.java:63-77 | Splicing out a key's node returns its stored data and gives a well-formed table for the map without that key |
| `Chains.TotalUpdate` | HashtableImplementation.java:55 | Replacing one chain changes the node count by the difference in chain length |
| `Chains.RemoveAsWritten` | HashtableImplementation.java:59-78 | The source's `remove` on the key's chain dereferences null exactly when no node holds the key, and otherwise removes one node |
| `Chains.SpliceAsWritten` | HashtableImplementation.java:69-76 | The walk from `proto` dereferences a null `meta` exactly when no later node holds the key, and otherwise splices out one node |
| `Chains.RemoveAsWrittenFailsIffNotStored` | HashtableImplementation.java:59-78 | On a well-formed table, the source's `remove` fails exactly when the key is not stored |
| `Chains.RemoveAsWrittenFailsIffAbsent` | HashtableImplementation.java:59-78 | The source's `remove` dereferences null exactly when the key is not in its slot's chain |
| `Chains.RemoveAsWrittenUnlinks` | HashtableImplementation.java:59-78 | On a present key, the source's `remove` returns the key's data and leaves the chain minus exactly that node |
| `Primes.IsPrime` | HashtableImplementation.java:143-152 | True exactly when the value is prime |
| `Primes.NoDivisorBelowRoot` | HashtableImplementation.java:146-151 | With no divisor below `i` and `i*i > n`, `n` is prime, so trial division can stop at the square root |
| `Primes.OddHasNoEvenDivisor` | HashtableImplementation.java:144-147 | An odd number has no even divisor, so trial division may skip even candidates |
| `Primes.PrimeAtLeast` | HashtableImplementation.java:137-139 | There is a prime at or above every integer, so the search terminates |
| `Primes.GetNextPrime` | HashtableImplementation.java:136-141 | Returns the smallest prime at or above the value |

## Left out

- Chains are sequences of pairs, not linked `HashNode` objects. The model keeps
  each node's key, data and position, but not node identity or the `next`
  references. `node.data = data` and `proto.next = meta` become updates of the
  chain sequence.
- The float `loadFactor()` and the float `loadLimit` are not modelled. The test
  on line 49 is an exact rational comparison, so float rounding near the limit
  is not captured.
- `Math.sqrt` in `isPrime` is replaced by the loop condition `i * i <= value`.
  This is the same bound whenever the square root is computed exactly.
- `hashCode()` is a function given to the constructor, and `equals` is Dafny's
  equality. Key types are value types (`K(!new)`).
- Throwing `NullPointerException` on a null key (lines 101-103) is not modelled,
  because Dafny keys cannot be null.
- Java `int` overflow of `2*bucketSize`, of `value++` in `getNextPrime` and of
  `size++` is not modelled. These counters are unbounded integers.
- HashtableImplementation.Hashtable.constructor: requires initialCapacity >= 1.
  With 0, every key operation (`containsKey`, `get`, `put`, `remove`) throws
  `ArithmeticException` from the `% list.size()` in `getSlot`.
  With a negative capacity, `new ArrayList<>(n)` throws.
- HashtableImplementation.Hashtable.WithCapacity: requires initialSize >= 1, for
  the same reason.
- HashtableImplementation.Hashtable.ReloadWith: states the stored map, the node
  count and the slot count of the rebuilt table. It does not state the order of
  the nodes within each new chain.
- The unused `HashNode.hashCode` override and the two-argument `HashNode`
  constructor (lines 179-185) are not modelled.

## Findings

| source | as written | input that shows it | evidently intended | confidence | as-written member | corrected member |
|---|---|---|---|---|---|---|
| HashtableImplementation.java:59-78 | `remove` dereferences `head` when the slot is empty and `meta` when no node matches. Either way it throws `NullPointerException` | `remove(k)` on a new, empty table | return `null` (None) and leave the table unchanged | high; not executed | `Chains.RemoveAsWrittenFailsIffAbsent` | `HashtableImplementation.Hashtable.Remove` |
| HashtableImplementation.java:93 | `Math.abs(Integer.MIN_VALUE)` is still negative, so Java's `%` gives a negative slot and `table.get` throws | a key whose `hashCode()` is -2147483648, in the default table of 2047 slots: slot -512 | a slot in `[0, bucketSize)` | high; not executed | `Chains.JavaSlotNegativeAtMinInt` | `Chains.Slot` |
