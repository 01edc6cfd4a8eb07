# A verified model of a separate-chaining hash table

This project models `hash_table/hash.c`, a small C hash table. Keys are strings and values are `int`s. The table is an array of `capa` slots, and each slot holds a singly linked chain of nodes. A key's slot is `hashing(key) % capa`. `hashing` is a 32-bit add-then-multiply-by-31 string hash.

What each operation does:

- **`hash_set` / `hash_set_internal`** walk the slot's chain. An empty slot gets a one-node chain. A matching node has its value overwritten. Otherwise a new node is appended after the tail.
  - The walk compares a node's key only while that node has a successor. So the tail of a chain, and a chain's lone head, are never compared. Setting a key that only the tail holds appends a second node for it.
  - The model reproduces this as written.
- **Rehash:** a walk that runs at least `MAX_CHAIN + 1` (4) iterations without a match raises a flag. With growth allowed, the appended insertion is then followed by `hash_rehash`.
  - `hash_rehash` builds a table of twice the capacity.
  - It reinserts every node in slot order, then chain order, with growth disabled, and frees each old node.
  - It then takes over the new table's fields.
- **`hash_get`** scans the whole chain, tail included. A miss ends the program with one of two `fatal` messages.
- **Counters:** `item_count` and `hash_count` count live nodes and tables.

The project has five modules:

- `Wrappers` (`wrappers.dfy`): `Option` and `Result`.
- `KeyHash` (`key_hash.dfy`): keys as byte sequences.
  - `HashCode` is the wrapped accumulator, reduced modulo 2^32 after every step.
  - `Polynomial` is an independent closed form of the hash; `HashCode` is proved equal to it modulo 2^32.
  - `Hashing` is the imperative loop, proved to compute `HashCode`.
- `TableSpec` (`table_spec.dfy`): the table as values.
  - A table is a sequence of chains, and a chain is a sequence of `Item(key, value)` nodes, head first.
  - Functions say what an insertion (`Insert`, `SetTable`), a rehash (`Rehashed`) and a lookup (`Lookup`, `GetOutcome`) compute. `ComparedMatch` captures the truncated walk.
  - It also holds the lemmas the imperative code needs: node count, placement, step lemmas.
- `HashTable` (`hash_table.dfy`): `struct hash` as the class `Hash`.
  - The class holds an `array<Chain>` plus `len` and `capa`, updated in place, and `Counters` holds the two live-object counters.
  - The methods `Set`, `SetInternal`, `Rehash`, `Get` and `Free` follow the C loops.
  - `Set`, `SetInternal` and `Rehash` are proved to leave exactly the buckets that `SetTable`, `Insert` and `Rehashed` describe.
  - `Get` changes nothing and is proved to return exactly what `GetOutcome` describes.
  - `Free` is proved to release every reachable node and the table, as counted by `item_count` and `hash_count`.
  - All of them keep the invariant `Valid`:
    - `capa` is the array length;
    - `len` is the number of reachable nodes;
    - every node sits in its key's slot;
    - a key held twice in a chain is held on neighbouring nodes (`PairedKeys`).
- `TableProperties` (`table_properties.dfy`): what these operations guarantee.
  - The three outcomes of an insertion and exactly when a rehash happens.
  - What a lookup returns after an insertion, including the tail blind spot, with a concrete instance.
  - When chains stay free of duplicate keys.
  - That every insertion and every rehash keeps duplicate keys on neighbouring nodes. The blind spot only ever appends a second copy right after a tail that holds the key, so this holds of every table `hash_set` builds.
  - That a rehash of such a table keeps exactly its nodes and its node count, and answers every lookup as before. The proof compares the rehash to a plain reference distribution (`AppendChains`).
  - That a non-neighbouring duplicate can lose a node in a rehash, when a node of the same new slot sits between its copies, shown on a concrete table. This is why the invariant is needed.
  - Exactly what `hash_get` returns after `hash_set`, rehash or not. It is the value just set, except in the blind spot, where it is the old value.

## Model

| member | source | states |
|---|---|---|
| KeyHash.HashCode | hash_table/hash.c:122-133 | the hash of a key is an `unsigned int`, below 2^32 |
| KeyHash.HashPrefix | hash_table/hash.c:128-131 | the accumulator after any number of bytes stays below 2^32 |
| KeyHash.PolynomialSnoc | hash_table/hash.c:129-130 | one more byte adds its code to the unreduced hash and then multiplies by 31 |
| KeyHash.AddWrap | hash_table/hash.c:129 | reducing modulo 2^32 before the `+=` gives the same word as reducing after it |
| KeyHash.MulWrap | hash_table/hash.c:130 | reducing modulo 2^32 before the `*= 31` gives the same word as reducing after it |
| KeyHash.HashPrefixIsPolynomial | hash_table/hash.c:128-131 | after n bytes the wrapped accumulator equals the closed-form polynomial of those bytes (byte i weighted by 31^(n-i)) modulo 2^32 |
| KeyHash.HashCodeIsPolynomial | hash_table/hash.c:122-133 | the hash of a whole key is its polynomial modulo 2^32 |
| KeyHash.Hashing | hash_table/hash.c:122-133 | the loop, each operator wrapping separately, returns the hash of the key |
| TableSpec.Slot | hash_table/hash.c:175 | a key's slot index is below the capacity |
| TableSpec.RemIsMod | hash_table/hash.c:175 | the slot is the hash modulo the capacity |
| TableSpec.Empty | hash_table/hash.c:63-64 | a new bucket array has `capa` slots, all empty |
| TableSpec.FirstMatchAt | hash_table/hash.c:218-221 | a position holding the key with no earlier such position is the one a scan finds |
| TableSpec.FirstMatch | hash_table/hash.c:218-223 | the first position whose node holds the key, with no earlier such node; none exactly when no node holds it |
| TableSpec.ComparedMatch | hash_table/hash.c:185-195 | the walk's match is a position with a successor holding the key, and is the first one; none exactly when no node but the tail holds the key |
| TableSpec.Appends | hash_table/hash.c:178-199 | the insertion appends a node exactly when the slot is empty or no node but the tail holds the key |
| TableSpec.RehashFlag | hash_table/hash.c:173-193 | the walk falls through to the append with the `rehash` flag raised (the flag hash.c:201 reads) exactly when the chain is non-empty, no node but the tail holds the key, and the chain has at least MAX_CHAIN + 2 nodes (a walk of at least MAX_CHAIN + 1 iterations) |
| TableSpec.InsertChain | hash_table/hash.c:178-199 | the chain grows by one node exactly when the slot was empty or no compared node matched, and otherwise keeps its length |
| TableSpec.Insert | hash_table/hash.c:166-199 | an insertion without growth keeps the capacity |
| TableSpec.InsertFirst | hash_table/hash.c:152-157 | reinserting the nodes of a chain with growth disabled keeps the capacity |
| TableSpec.MoveChains | hash_table/hash.c:150-158 | moving the old chains into the new table keeps the new table's capacity |
| TableSpec.Rehashed | hash_table/hash.c:147 | the rehashed table has twice the capacity |
| TableSpec.SetTable | hash_table/hash.c:166-204 | the capacity doubles exactly when growth is allowed and the walk raised the rehash flag, and is otherwise unchanged |
| TableSpec.Size | hash_table/hash.c:65-66 | the number of nodes reachable from all slots, the quantity `len` counts (no contract of its own; SizeEmpty, SizeUpdate and InsertSize state how it changes) |
| TableSpec.ChainLookup | hash_table/hash.c:217-224 | a scan of a whole chain, tail included, finds nothing exactly when no node holds the key |
| TableSpec.Lookup | hash_table/hash.c:215-224 | `hash_get`'s scan of the key's slot finds nothing exactly when no node of that slot holds the key |
| TableSpec.GetOutcome | hash_table/hash.c:212-229 | "item not found" exactly when the slot is empty; "key not found" exactly when the slot is non-empty and no node holds the key; otherwise the value of the first node holding it |
| TableSpec.InsertChainNodes | hash_table/hash.c:186-198 | every node after an insertion is the new node or the old node at the same position |
| TableSpec.ChainLookupFirst | hash_table/hash.c:218-221 | a chain lookup returns the value of the first node holding the key |
| TableSpec.SizeEmpty | hash_table/hash.c:65 | a new table has no nodes |
| TableSpec.SizeUpdate | hash_table/hash.c:180-181 | replacing one chain changes the node count by that chain's change in length |
| TableSpec.InsertSize | hash_table/hash.c:178-199 | an insertion adds one node exactly when it appends, and none when it overwrites |
| TableSpec.InsertWellPlaced | hash_table/hash.c:175-199 | an insertion leaves every node in the slot its key hashes to |
| TableSpec.InsertFirstStep | hash_table/hash.c:152-157 | one more reinsertion extends the run of reinserted nodes by the next node |
| TableSpec.MoveChainsStep | hash_table/hash.c:150-158 | one more moved chain extends the run of moved slots by the next slot |
| TableSpec.InsertFirstWellPlaced | hash_table/hash.c:152-157 | reinserting a chain leaves every node in its slot |
| TableSpec.MoveChainsWellPlaced | hash_table/hash.c:150-158 | moving the old chains leaves every node in its slot |
| TableSpec.RehashedWellPlaced | hash_table/hash.c:137-164 | after a rehash every node sits in its slot under the doubled capacity |
| TableSpec.ChainKeepsPaired | hash_table/hash.c:178-199 | an insertion into a chain whose duplicate keys sit on neighbouring nodes keeps them so, since an append comes after a comparison with every node but the tail |
| TableSpec.InsertKeepsPaired | hash_table/hash.c:166-199 | every insertion keeps every chain's duplicate keys on neighbouring nodes |
| TableSpec.InsertFirstPaired | hash_table/hash.c:152-157 | reinserting a chain keeps duplicates on neighbouring nodes |
| TableSpec.MoveChainsPaired | hash_table/hash.c:150-158 | moving the old chains keeps duplicates on neighbouring nodes |
| TableSpec.RehashedPaired | hash_table/hash.c:137-164 | any rehashed table holds its duplicate keys on neighbouring nodes |
| HashTable.Hash.Valid | hash_table/hash.c:11-15 | the table invariant: `capa` is the array length, `len` the number of reachable nodes, every node in its key's slot, duplicates only on neighbouring nodes (no contract of its own; every method requires and keeps it) |
| HashTable.Counters.constructor | hash_table/hash.c:21-23 | both counters start at zero |
| HashTable.ItemNew | hash_table/hash.c:39-49 | the new node holds the key and value, and one more node is live |
| HashTable.ItemFree | hash_table/hash.c:51-57 | one node fewer is live |
| HashTable.Hash.constructor | hash_table/hash.c:59-69 | a fresh array of `capa` empty slots, `len` 0, one more live table |
| HashTable.Hash.Set | hash_table/hash.c:206-210 | the invariant is kept; the new buckets are the growth-allowed insertion of the old ones; the capacity stays or doubles; the live-node count moves with `len` |
| HashTable.Hash.SetInternal | hash_table/hash.c:166-204 | with growth disabled, the same array holds the insertion of the old buckets; with growth allowed, it holds the insertion-then-maybe-rehash; the invariant, `len` and the counters are kept in step |
| HashTable.Hash.Rehash | hash_table/hash.c:137-164 | a fresh array of twice the capacity holding the reinsertion of the old buckets; the invariant holds; the temporary table is no longer counted |
| HashTable.Hash.ReinsertTable | hash_table/hash.c:150-158 | the new table holds the old chains, moved slot by slot; every old node is released |
| HashTable.Hash.ReinsertChain | hash_table/hash.c:151-157 | the new table holds one old chain's nodes, reinserted in order; each of them is released |
| HashTable.Hash.Get | hash_table/hash.c:212-229 | the full-chain scan returns exactly the value or error of `GetOutcome` |
| HashTable.Hash.Free | hash_table/hash.c:71-89 | every reachable node and the table itself are released |
| TableProperties.SetEmptySlot | hash_table/hash.c:178-183 | an empty slot receives a one-node chain, nothing else changes, the node count grows by one, no rehash |
| TableProperties.SetOverwrites | hash_table/hash.c:185-189 | a compared match (never the tail) has its value replaced in place; the node count and the capacity are unchanged |
| TableProperties.SetAppends | hash_table/hash.c:196-199 | in an insertion without growth, with no compared match in a non-empty slot, the new node is appended after the tail and the count grows by one (SetThenLookup gives the count in the growth case) |
| TableProperties.RehashTrigger | hash_table/hash.c:173-203 | the capacity changes, and then doubles, exactly when growth is allowed, the slot is non-empty, no compared node matches and the chain had at least MAX_CHAIN + 2 nodes |
| TableProperties.ChainLookupSnoc | hash_table/hash.c:196-199 | after a node is appended, a lookup finds the old answer if there was one, else the new node if its key matches |
| TableProperties.ChainLookupOverwrite | hash_table/hash.c:185-189 | after the first node with the key is overwritten, a lookup of that key finds the new value and other keys are unaffected |
| TableProperties.ChainLookupInsert | hash_table/hash.c:176-199 | after an insertion into a chain, other keys look up as before; the key finds the new value unless only the tail held it, in which case it finds the old value |
| TableProperties.LookupAfterInsert | hash_table/hash.c:166-223 | the same on the whole table: `hash_get` after an insertion without growth |
| TableProperties.ChainKeepsDistinct | hash_table/hash.c:185-199 | a chain without duplicate keys keeps that property exactly when the key was not on the tail alone |
| TableProperties.InsertKeepsUnique | hash_table/hash.c:166-199 | a table without duplicate keys keeps that property under an insertion exactly when the key was not on its slot's tail alone |
| TableProperties.TailDuplicate | hash_table/hash.c:185-199 | an insertion without growth of a key only the tail holds adds a node, leaves its lookup at the old value, and creates a duplicate (SetThenLookup covers the growth case) |
| TableProperties.LoneHeadResetExample | hash_table/hash.c:206-229 | in a one-slot table holding only "a" = 1, `hash_set` of "a" = 2 appends a second node, and `hash_get` still returns 1 |
| TableProperties.LookupByNodes | hash_table/hash.c:212-223 | in a well-placed, duplicate-free table a lookup of a key finds v exactly when a node holds that key with v |
| TableProperties.NodesDetermineLookup | hash_table/hash.c:212-223 | two such tables with the same nodes answer every lookup alike |
| TableProperties.NodesAppend | hash_table/hash.c:196-199 | appending a node to a chain adds exactly that node to the table |
| TableProperties.AppendNodeNodes | hash_table/hash.c:196-199 | appending a node to its key's chain adds exactly that node |
| TableProperties.AppendNodeUnique | hash_table/hash.c:196-199 | appending a node whose key its slot does not hold keeps the chains duplicate-free |
| TableProperties.FreshInsert | hash_table/hash.c:175-199 | inserting a key that no node but the tail of its slot holds is appending its node to that slot |
| TableProperties.AppendFirstNodes | hash_table/hash.c:152-157 | appending a chain's first n nodes adds exactly those nodes |
| TableProperties.AppendFirstSize | hash_table/hash.c:152-157 | appending a chain's first n nodes adds n nodes to the count |
| TableProperties.AppendNodeAbsent | hash_table/hash.c:196-199 | appending a node with another key keeps a missing key missing |
| TableProperties.AppendFirstAbsent | hash_table/hash.c:152-157 | a key missing from the target and from the first n nodes stays missing while they are appended |
| TableProperties.AppendFirstUnique | hash_table/hash.c:152-157 | appending a duplicate-free chain whose keys the target lacks keeps the target duplicate-free |
| TableProperties.AppendAfterAbsent | hash_table/hash.c:196-199 | after a node is appended for a key its slot lacked, no node but the tail holds that key |
| TableProperties.AppendReady | hash_table/hash.c:152-157 | while a chain with duplicates only on neighbouring nodes is appended to a table lacking its keys, each next key is held by no node of its target chain but the tail |
| TableProperties.InsertFirstAppends | hash_table/hash.c:152-157 | reinserting such a chain node by node gives the same table as appending it |
| TableProperties.NodesBelowStep | hash_table/hash.c:150-151 | the nodes of the first i + 1 slots are those of the first i slots and those of slot i |
| TableProperties.AppendChainsNodes | hash_table/hash.c:150-158 | appending the first i old chains to an empty table gives exactly their nodes |
| TableProperties.AppendChainsSize | hash_table/hash.c:150-158 | the node count after that is the node count of those chains |
| TableProperties.MovedChainFresh | hash_table/hash.c:150-158 | before slot i is moved, none of its keys is in the new table |
| TableProperties.AppendChainsUnique | hash_table/hash.c:150-158 | the new table stays duplicate-free while the old chains are appended |
| TableProperties.MoveChainsAppends | hash_table/hash.c:150-158 | for a well-placed table with duplicates only on neighbouring nodes, moving the old chains by reinsertion equals appending them |
| TableProperties.RehashPreservesNodes | hash_table/hash.c:137-164 | a rehash of a well-placed table with duplicates only on neighbouring nodes keeps exactly its nodes and its node count (`len`); the result is well placed, keeps duplicates on neighbours, and is duplicate-free when the table was |
| TableProperties.AppendNodeKeepsLookup | hash_table/hash.c:196-199 | appending a node never changes a lookup that already succeeds |
| TableProperties.AppendFirstKeepsLookup | hash_table/hash.c:152-157 | nor does appending further nodes of a chain |
| TableProperties.AppendChainsKeepsLookup | hash_table/hash.c:150-158 | nor does appending further old chains |
| TableProperties.AppendNodeHit | hash_table/hash.c:196-199 | appending a node for a key its slot lacks makes a lookup of the key return that node's value |
| TableProperties.AppendFirstHit | hash_table/hash.c:152-157 | appending a chain to a table lacking a key makes its lookup return the chain's first node with that key, once that node is appended |
| TableProperties.LookupFindsNode | hash_table/hash.c:215-223 | in a well-placed table a lookup succeeds exactly when some node holds the key |
| TableProperties.RehashPreservesLookup | hash_table/hash.c:137-164 | a rehash of a well-placed table with duplicates only on neighbouring nodes answers every lookup as before, the first copy of a key staying first |
| TableProperties.RehashKeepsPairExample | hash_table/hash.c:150-158 | the one-slot chain [2=0, 1=1, 1=2] that `hash_set` builds rehashes to [[2=0], [1=1, 1=2]]: the neighbouring copies both survive, in order |
| TableProperties.RehashMergesSplitDuplicateExample | hash_table/hash.c:150-158 | the chain [1=1, 3=0, 1=2], which breaks the neighbouring-duplicates invariant, rehashes to [[], [1=2, 3=0]]: a node is lost and the lookup of 1 changes |
| TableProperties.SetThenLookup | hash_table/hash.c:166-223 | for every well-placed table with duplicates only on neighbouring nodes, after `hash_set_internal` (rehash or not): another key looks up as before; the key finds the new value, or the old one in the blind spot; the table stays well placed with duplicates on neighbours; it gains a duplicate only in the blind spot; the count grows by one exactly on an append |
| TableProperties.GetAfterSet | hash_table/hash.c:206-229 | `hash_get` right after `hash_set` of a key returns the value just set, or in the blind spot exactly what it returned before |

## Left out

- `main`, `hash_inspect` and the `printf` in `hash_rehash` are left out: they only print.
- `fatal` prints and exits the process. The model returns it as `Failure(ItemNotFound)` or `Failure(KeyNotFound)`, so the unreachable `return 0` has no counterpart.
- `mmalloc`, `ffree` and `malloc_count` are left out. Allocation is modelled only through the `fresh` array of a new table and the `item_count`/`hash_count` counters.
- Nodes are values, not heap cells, and a chain is a sequence. Node identity and pointer aliasing are not modelled, so a reinserted node during a rehash is a new value equal to the old one.
- `*h = *new_h` is modelled by copying the three fields. The emptied temporary table is not counted afterwards, and its memory is not modelled.
- `strlen`, `memcpy` and `strcmp` are left out. Keys are byte sequences compared by equality, and the copy made by `item_new` is the value itself.
- KeyHash.Hashing: each byte is read as an `unsigned char` code (1 to 255). Where `char` is signed, `(int)*key` of a byte of 128 or more is that code minus 256, then converted to `unsigned int`. This is not modelled.
- `int` overflow of `len`, of `capa * 2` in `hash_rehash` and of the values is not modelled. These are unbounded integers.
- HashTable.Hash.constructor: requires `capa >= 1`. With `capa` 0 the source's first `% h->capa` divides by zero, and a negative `capa` gives `malloc` a wrapped size.
- HashTable.Hash.Free: releases the counters' view of the table. The array itself is not deallocated, since Dafny has no deallocation.
- The nested loop of `hash_rehash` is split into the methods `ReinsertTable` (slots) and `ReinsertChain` (one chain).
- TableProperties.RehashPreservesNodes and TableProperties.RehashPreservesLookup: require a well-placed table whose duplicate keys sit on neighbouring nodes. `hash_set` only builds such tables: `Hash.Valid` carries the property, and InsertKeepsPaired and RehashedPaired prove that it is kept. A reinsertion overwrites, and a node is lost, only for a duplicate with another node of the same new slot between its copies (RehashMergesSplitDuplicateExample).
- TableProperties.SetThenLookup and TableProperties.GetAfterSet: require the same invariant.
