# ADS_set in Dafny

A model of `ADS_set<Key, N>`, a generic unordered set of unique keys kept
in a hash table with separate chaining, together with its forward
iterator. The table has `maxSize` buckets (`N` when a table is first
allocated or cleared), and each bucket holds a singly linked chain of
nodes. New nodes are linked in front of their chain. The counter `sz` counts the live keys.
Once `sz` exceeds `maxSize * 10`, the table is rehashed into twice as many
buckets.

The project has two modules:

- `Table` (table.dfy) treats the bucket array as a value: one chain per
  bucket, each chain the sequence of keys its nodes hold, head first.
  - `Flatten` lists all chains bucket by bucket. This is the iteration order.
  - `PushFront` is the front-link done by `insert_unchecked`.
  - `Distribute` is the re-insertion loop of `rehash`.
  - `Unlinked` is what `erase` leaves of a chain.
  - The lemmas show that each of these keeps the table invariant:
    - every key sits in bucket `hash(k) % bucket count`;
    - no key is stored twice;
    - the counter equals the total chain length.
- `AdsSet` (adsset.dfy) holds the two classes.
  - `HashSet` has the real state: the table, an `array<seq<Key>>` of
    chains updated in place, plus `maxSize` and `sz`. Its methods have
    `modifies` clauses and loops with invariants, and state the new table
    through the `Table` functions.
  - `Iterator` has the iterator's fields `ptr`, `to`, `itPos` and `tblSz`.
    A node pointer `to` becomes the pair (bucket, position in chain), and
    the null pointer becomes `None`.
  - The ghost functions `Elems()` (the keys in iteration order) and
    `Keys()` (the set of stored keys) give the abstract value.

The standard hasher becomes the deterministic function `hash: Key -> nat`
fixed when the set is built. Equality of keys is Dafny's `==`.

Two details of the code that the model keeps:

- `clear`, and both assignments, which start with `clear`, reset the
  bucket count to `N` (the assignments then insert as `insert` does). `swap` exchanges it with the other set's. Each
  insertion of an absent key at the threshold doubles it. Every other
  operation keeps it.
- Copy assignment re-inserts through the checked `insert`, and so does the
  model.

## Model

| member | source | states |
|---|---|---|
| Table.EmptyTable | ADS_set.h:78-80 | a freshly allocated table of m buckets has m chains and no key in any of them |
| Table.Slot | ADS_set.h:56 | the bucket index of a key is below the bucket count |
| Table.PlacedMember | ADS_set.h:109-116 | in a table whose keys sit in their hash buckets, a key is stored iff the chain of its own bucket holds it, so scanning that one chain decides membership |
| Table.SizeIsCardinality | ADS_set.h:100 | under the invariant, the counter equals the number of distinct stored keys |
| Table.PushFrontInv | ADS_set.h:41-51 | front-linking an absent key into the chain of its bucket keeps the invariant, adds exactly that key and raises the counter by one |
| Table.PushFront | ADS_set.h:46-50 | front-linking k keeps the bucket count, adds exactly one k to the table's keys (as a multiset) and one to the total chain length, and keeps every key in its hash bucket |
| Table.Distribute | ADS_set.h:69-71 | re-inserting a list of keys keeps the bucket count, adds exactly those keys (as a multiset), adds their number to the total chain length, and keeps every key in its hash bucket |
| Table.RehashInv | ADS_set.h:58-73 | re-inserting every key, in iteration order, into an empty table of twice as many buckets keeps the invariant, the key set and the counter, with every key in bucket hash modulo the new count |
| Table.UnlinkedAt | ADS_set.h:165-188 | unlinking the first node that holds the key removes exactly that position, whether it is the head, a middle node or the tail |
| Table.Unlinked | ADS_set.h:165-188 | unlinking removes exactly one occurrence of the key when the chain holds it, leaves the chain unchanged otherwise, and never adds a key |
| Table.UnlinkInv | ADS_set.h:158-191 | erasing a stored key from its bucket keeps the invariant, removes exactly that key and lowers the counter by one |
| Table.FlattenAt | ADS_set.h:273-275 | node j of bucket q is at position Offset(q) + j of the iteration order, and that position holds the node's key |
| Table.OffsetSkip | ADS_set.h:281-292 | when the buckets between b0 and q are empty, the head of bucket q comes right after the tail of bucket b0 in iteration order |
| Table.OffsetInjective | ADS_set.h:301-303 | two nodes at the same position of the iteration order are the same node |
| AdsSet.HashSet.constructor | ADS_set.h:78-80 | the default constructor builds N empty buckets, no keys and a zero counter, and the invariant holds |
| AdsSet.HashSet.FromList | ADS_set.h:82-89 | the list and range constructors hold exactly the listed keys |
| AdsSet.HashSet.Copy | ADS_set.h:91-95 | the copy constructor builds a set with other's N and hasher, a table of its own and the key set of other |
| AdsSet.HashSet.InOrder | ADS_set.h:62-63 | walking the set from begin() with ++ until end() lists exactly the keys of the table in iteration order: bucket by bucket, each chain head first |
| AdsSet.HashSet.HashIdx | ADS_set.h:56 | hash_idx is below the current bucket count |
| AdsSet.HashSet.InsertUnchecked | ADS_set.h:41-54 | adds the key and raises sz by one. Below the threshold, the new node heads its bucket's chain in the same table. At the threshold, the table is rebuilt with twice the buckets |
| AdsSet.HashSet.Rehash | ADS_set.h:58-73 | doubles maxSize, keeps sz and the key set, and refills a fresh table by front-linking the keys in their old iteration order. No nested rehash happens: the table equals Distribute of those keys |
| AdsSet.HashSet.Size | ADS_set.h:100 | size() is the number of stored keys |
| AdsSet.HashSet.Empty | ADS_set.h:102-107 | empty() holds exactly when no key is stored |
| AdsSet.HashSet.Count | ADS_set.h:109-116 | count is 1 if the key is stored and 0 otherwise, and 1 exactly when the chain of hash_idx(key) holds it. It changes nothing |
| AdsSet.HashSet.Find | ADS_set.h:118-125 | find returns end() for an absent key. For a stored key, it returns an iterator on the node holding the key, in bucket hash_idx(key) |
| AdsSet.HashSet.Swap | ADS_set.h:127-131 | swap exchanges maxSize, table and sz, and with them the key sets |
| AdsSet.HashSet.Insert | ADS_set.h:139-145 | insert reports true exactly when the key was absent. The key set gains the key and sz grows by one only then. A present key leaves table and counter untouched. An absent key below the threshold is front-linked into its bucket; at the threshold the bucket count doubles and the table is replaced. The iterator returned stands on the key |
| AdsSet.HashSet.InsertAll | ADS_set.h:133-137 | inserting a list adds exactly the listed keys to the set, and the bucket count never shrinks |
| AdsSet.HashSet.Clear | ADS_set.h:151-156 | clear leaves N empty buckets, sz 0 and no keys |
| AdsSet.HashSet.Erase | ADS_set.h:158-191 | erase returns 1 and lowers sz for a stored key, 0 for an absent one. The key set loses exactly that key and the invariant holds. Only the key's bucket changes, by unlinking its node. An absent key leaves the table as it was |
| AdsSet.HashSet.UnlinkNode | ADS_set.h:160-188 | the current/previous walk over the chain of the key's bucket replaces that chain by Unlinked of it and lowers sz by one; no other bucket changes |
| AdsSet.HashSet.Begin | ADS_set.h:193-199 | begin stands at position 0 of the iteration order, on the head of the lowest-indexed non-empty bucket, and is end() exactly when the set is empty |
| AdsSet.HashSet.End | ADS_set.h:201 | end() is the iterator with no set, no node and zero bucket index and count |
| AdsSet.HashSet.AssignAsWritten | ADS_set.h:219-226 | copy assignment as written gives the key set of other when other is another set, and the empty set when other is the same set |
| AdsSet.HashSet.Assign | ADS_set.h:219-226 | corrected copy assignment: the key set of other, including when other is the same set |
| AdsSet.HashSet.AssignList | ADS_set.h:228-233 | assigning a list leaves exactly the listed keys |
| AdsSet.Iterator.constructor | ADS_set.h:267-271 | the iterator constructor stores the set, node, bucket index and bucket count it is given |
| AdsSet.Iterator.Index | ADS_set.h:255-258 | an iterator's position in iteration order is at most the number of keys, and is below it exactly when the iterator stands on a node |
| AdsSet.Iterator.Deref | ADS_set.h:273-275 | dereferencing yields the key of the current node, which is the key at the iterator's position in iteration order |
| AdsSet.Iterator.Next | ADS_set.h:281-292 | ++ on a node moves one position forward in iteration order: along the chain, else to the head of the next non-empty bucket, else to the end. ++ on the end changes nothing |
| AdsSet.TraversalListsEachKeyOnce | ADS_set.h:193-201 | in a well-formed set, the iteration order that InOrder's walk returns lists every stored key exactly once, sz keys in total, and sz is the number of distinct keys |
| AdsSet.Iterator.Equals | ADS_set.h:301-303 | every two end iterators compare equal, whatever set, bucket index and count they carry; two equal iterators on a node share the node and the set |
| AdsSet.EqualsIffSameIndex | ADS_set.h:301-306 | two iterators over one set compare equal exactly when they stand at the same position of its iteration order |
| AdsSet.Equal | ADS_set.h:235-244 | operator== holds exactly when both sets store the same keys |
| AdsSet.NotEqual | ADS_set.h:246-248 | operator!= holds exactly when the key sets differ |
| AdsSet.SwapSets | ADS_set.h:309 | the free swap exchanges the key sets of its arguments |
| AdsSet.SelfAssignmentEmpties | ADS_set.h:219-226 | a set holding one key has size 1 before `s = s` with the assignment as written, and size 0 after it |
| AdsSet.SelfAssignmentKeeps | ADS_set.h:219-226 | with the corrected assignment, the same set still has size 1 after `s = s` |

## Left out

- `dump` writes formatted text to a stream. It is output only.
- The standard hasher is a foreign library function. It is the parameter
  `hash`, an arbitrary deterministic function into the naturals.
- `size_t` arithmetic is not bounded. `maxSize * 10`, the doubling of
  `maxSize` and the hash value are unbounded integers, so wrap-around on
  very large tables is not modelled.
- Memory management is not modelled: the recursive `Node` destructor,
  `delete[] table`, `delete current`, and allocation failure of `new`.
  Chains are sequences in an array, and a replaced table is simply dropped.
- The node array's `head`/`next` pointers are not modelled as objects. A
  chain is a sequence and a node is its (bucket, position) pair, so the
  model does not capture node identity across a relink. An iterator held
  across a mutation is therefore not meaningful, and iterator invalidation
  is left out, as in the source.
- Iterator operations take the set they walk as a ghost parameter. The
  source reaches it through `ptr`; the model checks the two agree, in
  `Iterator.ValidFor`.
- The postfix `++`, `operator->` and the iterator `!=` are not modelled.
  They are thin wrappers over the prefix `++`, the dereference and `==`.
- `key_compare` is declared but never used.
- `N` and the hasher belong to the type `ADS_set<Key, N>` in the source; in
  the model each set carries its own `N` and `hash`. The constructor's
  `n > 0` and `Swap`'s `other.N == N && other.hash == hash` restate what the
  type gives: sets of one type share `N` and the stateless `std::hash`, and
  `N == 0` would make `hash_idx` divide by zero.
- The range-for loops over another set (copy constructor, copy
  assignment) first collect the walked keys with `InOrder`, then insert
  them. The source inserts each key as it walks. The keys and their order
  are the same, because the inserts change only the target's table, which
  is not the table walked. In the self-assignment case, `clear` has already
  emptied the walked set.
- The `insert` overloads for an initializer list and for an iterator range
  are one method, `InsertAll`, over a sequence of keys. Both insert each
  key that `count` does not find.
- AdsSet.HashSet.InsertUnchecked: requires the key to be absent. Every
  caller guarantees it. `insert` and the list `insert` test `count` first.
  `rehash` and the copy constructor insert the keys of a duplicate-free
  set into a table that starts empty.
- AdsSet.HashSet.Rehash: requires at most 20 keys per old bucket. The only
  caller runs it at 10 keys per bucket plus one. This bound is what rules
  out a rehash nested inside the re-insertion loop.

## Findings

| source | as written | input that shows it | evidently intended | confidence | as-written member | corrected member |
|---|---|---|---|---|---|---|
| ADS_set.h:219-226 | copy assignment calls `clear()` before walking `other`, so when `other` is the set itself the walk sees an empty set and nothing is re-inserted | a set holding the key 42, assigned to itself (`s = s`): size 1 before, 0 after (`AdsSet.SelfAssignmentEmpties`) | self-assignment leaves the set unchanged | high; not executed | AdsSet.HashSet.AssignAsWritten | AdsSet.HashSet.Assign |
