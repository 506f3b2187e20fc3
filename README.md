# Parcel index: a verified model

This project models the core of a courier parcel manager (`project.cpp`). Parcel
records (destination, integer weight, floating-point valuation) go into a table of
127 buckets. A destination's bucket is picked by the djb2 string hash modulo 127.
Each bucket holds an AVL tree keyed by weight alone. When two destinations hash to
the same bucket, their records share one tree. A second record with a weight that
is already in the tree is dropped.

Modules:

- `Records` (`records.dfy`): the byte type and the `Parcel` record.
- `Hasher` (`hasher.dfy`): djb2 with 32-bit wrap-around. The `Hash` loop reads up
  to the first zero byte. `Djb2` and `Bucket` are the functions it is proved against.
- `AvlTree` (`avl.dfy`): the tree as a value with its cached `height` field, plus
  `height`, `max`, `getBalance`, `newNode`, the two rotations, the four
  rebalancing cases and `insert`.
- `AvlProperties` (`avl_properties.dfy`): `insert` is compared with a reference
  insertion into a sorted list (`SeqInsert`). It covers the in-order dump, the
  records kept, the order, the balance and the heights.
- `Queries` (`queries.dfy`): the read-only queries on one bucket's tree. These are
  the in-order dump, the search above or below a threshold, the load total, the
  lightest and heaviest record, and the release order.
- `BucketIndex` (`index.dfy`): the table, a class over an array of 127 trees. It
  holds `initHashTable`, `insertParcel`, the bucket lookup and the dump, plus a
  client run over concrete destinations.

What the source prints is returned as a sequence of records or as a result value.

The lightest/heaviest menu queries (cases 4 and 5 of `main`) do not do what the
code around them says they should. The comment "ensure parcels exist for the given
country" (project.cpp:561, 589) and the "No parcels found for country" branches
(project.cpp:571-574, 599-602) show that an empty bucket is meant to be reported.
`minValueNode` is documented as returning the minimum-weight node (project.cpp:378).
Yet both cases call `minValueNode` and `maxValueNode` on the bucket's root before
checking anything, and on an empty bucket that root is null (see "## Findings").
`ExtremesAsWritten` models the code as written. `ExtremesOf` and
`HashTable.ExtremesFor` model the check the code evidently intends.

## Model

| member | source | states |
|---|---|---|
| Hasher.Hash | project.cpp:208-217 | The loop reads bytes up to the first zero byte or the end of the buffer. It returns djb2 of exactly those bytes modulo 127, so the index is always a valid bucket. |
| Hasher.Djb2 | project.cpp:210-215 | The accumulator after the bytes read always fits in 32 bits. |
| Hasher.Step | project.cpp:214 | One djb2 step always yields a 32-bit value. |
| Hasher.StepIsShiftAdd | project.cpp:214 | `(hash << 5) + hash + c` computed with a 32-bit wrap after the shift and after each addition equals the step `(hash * 33 + c) mod 2^32`. |
| Hasher.Djb2Snoc | project.cpp:214 | Reading one more byte is one more `hash * 33 + c` step, modulo 2^32. |
| Hasher.Djb2IsPolynomial | project.cpp:210-215 | Wrapping at every step equals the full polynomial 5381·33^n + Σ c_i·33^(n-1-i) reduced once modulo 2^32. |
| Hasher.CPrefix | project.cpp:212 | The bytes the loop reads contain no zero, are a prefix of the buffer, and stop only at a zero byte or the end. |
| Hasher.CPrefixOfNulFree | project.cpp:212 | A buffer with no zero byte is read in full. |
| Hasher.Bucket | project.cpp:216 | A destination's bucket is below 127. |
| Hasher.BucketIgnoresTail | project.cpp:212 | Bytes after the terminating zero never change the C string read or the bucket. |
| AvlTree.Max | project.cpp:58-61 | The result is at least both arguments and is one of them. |
| AvlTree.HeightsCorrect | project.cpp:171 | The cached-height invariant: every node's `height` is 1 + the larger child height. Under it every node has height at least 1. |
| AvlTree.NewNode | project.cpp:73-83 | A new node is a valid AVL tree (ordered, height 1, balanced) holding just the new record. |
| AvlTree.RightRotate | project.cpp:93-105 | Keeps the in-order records and the weight set, and keeps search order. Both rewired nodes get height 1 + max(child heights). Correct child heights give correct heights everywhere. |
| AvlTree.LeftRotate | project.cpp:115-127 | The mirror of RightRotate: same records in order, same weights, search order kept, both heights recomputed. |
| AvlTree.LeftLeft | project.cpp:176-178 | Left-left case: one right rotation gives an AVL tree whose height is the left child's. |
| AvlTree.RightRight | project.cpp:180-182 | Right-right case: one left rotation gives an AVL tree whose height is the right child's. |
| AvlTree.LeftRight | project.cpp:184-188 | Left-right case: the left child has a right child. Rotating it left, then the node right, gives an AVL tree of the left child's height. |
| AvlTree.RightLeft | project.cpp:190-194 | Right-left case: the right child has a left child. Rotating it right, then the node left, gives an AVL tree of the right child's height. |
| AvlTree.Rebalance | project.cpp:170-196 | After one insertion below, recomputing the height and rotating gives an AVL tree with the same in-order records and weights. A node whose balance is within ±1 is left as built. After a rotation the height is back to the taller child's height. |
| AvlTree.GrowLeft | project.cpp:161-162 | Inserting into the left subtree meets Rebalance's conditions, and the result keeps insert's promise for the whole node. |
| AvlTree.GrowRight | project.cpp:163-164 | Same as GrowLeft, for insertion into the right subtree. |
| AvlTree.Insert | project.cpp:155-197 | From an AVL tree it returns an AVL tree whose weights are the old ones plus the new weight. A duplicate weight returns the tree unchanged. The height grows by at most one. |
| AvlProperties.CachedHeightIsTrue | project.cpp:42-47 | When every cached height is 1 + the larger child's, `height()` (`AvlTree.Height`) equals the height computed from the tree's shape. |
| AvlProperties.BalanceIsTrue | project.cpp:137-142 | On a tree with correct cached heights, `getBalance()` (`AvlTree.Balance`) is 0 for an absent node and otherwise the true height of the left subtree minus that of the right. |
| AvlProperties.AvlIsTrulyBalanced | project.cpp:171-174 | The balance invariant the engine keeps over cached heights (`AvlTree.Balanced`, every `getBalance()` in -1..1), together with correct heights, is balance over true heights: at every node the subtrees' true heights differ by at most one. |
| AvlProperties.InOrderHasOnlyWeights | project.cpp:293-301 | Every record in the in-order dump (`AvlTree.InOrder`, what `inOrder()` prints) carries a weight of the tree. |
| AvlProperties.InOrderHasAllWeights | project.cpp:293-301 | Every weight of the tree appears in the in-order dump. |
| AvlProperties.OrderedIffAscending | project.cpp:293-301 | A tree is in search order exactly when its in-order dump (`AvlTree.InOrder`) has strictly ascending weights, in both directions. |
| AvlProperties.InsertInOrder | project.cpp:155-197 | The dump after `insert` equals the old dump with the record inserted by weight into the sorted list. A duplicate weight leaves the list as it was. |
| AvlProperties.InsertContent | project.cpp:158-168 | After `insert` the dump still ascends. A present weight leaves the dump unchanged. A new weight adds exactly the new record (as a multiset) and one entry. |
| AvlProperties.InsertKeepsAscending | project.cpp:155-197 | The same fact over the dump alone: if a balanced tree with correct heights has an ascending dump, it is a search tree, and so is the result of `insert`. |
| AvlProperties.InsertHeightsTrue | project.cpp:171 | After `insert` the cached root height is the true height, and the true height grows by at most one. |
| Queries.CalculateLoad | project.cpp:362-370 | The pre-order walk adds the weight of every record of the tree to the running total. An empty tree leaves the total unchanged. |
| Queries.InsertAddsWeight | project.cpp:158-168 | A bucket's load grows by the new weight when the weight is new, and not at all on a duplicate. |
| Queries.Matches | project.cpp:341 | A record shown by the search never has the threshold weight, and with `higher` it is heavier, without it lighter. |
| Queries.FilterElems | project.cpp:341 | A record is shown exactly when it is in the tree and is strictly above (higher) or strictly below (lower) the threshold. |
| Queries.SearchByWeight | project.cpp:335-349 | The records shown are those of the in-order dump that match, in dump order. The result is true exactly when something was shown, exactly when some record matches. |
| Queries.ThresholdPartition | project.cpp:335-349 | On a search tree the "lower" records, the record equal to the threshold (at most one, shown by neither), and the "higher" records together give the whole dump. Both searches show ascending weights. |
| Queries.MinValueNode | project.cpp:380-386 | Following left children from a non-empty root reaches the first record of the dump. On a search tree that is the lightest record. |
| Queries.MaxValueNode | project.cpp:396-402 | Following right children reaches the last record of the dump. On a search tree that is the heaviest record. |
| Queries.ExtremesAsWritten | project.cpp:556-562 | As written, an empty bucket dereferences null. Any other bucket yields the first and last records of the dump. The "no parcels" branch can never run. |
| Queries.ExtremesOf | project.cpp:556-573 | With the emptiness check first, an empty bucket reports no parcels and never dereferences null. Otherwise it returns the first and the last record of the in-order dump, which on a search tree bound every weight from below and above. |
| Queries.ReleaseOrder | project.cpp:412-421 | The post-order release visits every record of the tree exactly once. |
| BucketIndex.HashTable.constructor | project.cpp:29-32 | A table has 127 slots. |
| BucketIndex.HashTable.InitHashTable | project.cpp:227-233 | Every slot becomes empty, which gives a valid table. |
| BucketIndex.HashTable.InsertParcel | project.cpp:246-250 | Only the destination's bucket changes. It becomes `insert` of the old tree with the record, whose stored destination is the C string copied. Every tree stays AVL. |
| BucketIndex.HashTable.BucketFor | project.cpp:460-461 | The lookup returns the tree stored in the destination's bucket, and that tree is AVL. |
| BucketIndex.HashTable.SearchAndDisplay | project.cpp:312-323 | "No parcels found" exactly when the bucket is empty. Otherwise the dump is the bucket's records in strictly ascending weight. |
| BucketIndex.HashTable.ExtremesFor | project.cpp:584-603 | The lightest/heaviest query on a valid table, with the check first: no parcels exactly for an empty bucket. Otherwise it returns the first and the last record of that bucket's in-order dump, which are its lightest and heaviest records. |
| BucketIndex.AlphaBucket | project.cpp:208-217 | "Alpha" hashes to bucket 123. |
| BucketIndex.BetaBucket | project.cpp:208-217 | "Beta" hashes to bucket 115. |
| BucketIndex.BfBucket | project.cpp:208-217 | "Bf" hashes to bucket 123 too, so it collides with "Alpha". |
| BucketIndex.PeruBucket | project.cpp:208-217 | "Peru" hashes to bucket 13. |
| BucketIndex.ScenarioDestinations | project.cpp:208-217 | "Alpha", "Beta", "Bf" and "Peru" meet Scenario's conditions: "Alpha" and "Bf" share a bucket, and "Beta" and "Peru" are elsewhere. |
| BucketIndex.GrowAlphaTree | project.cpp:155-197 | Inserting weights 10, 20 and then 7 into an empty bucket gives the trees `insert` builds step by step, each one AVL. |
| BucketIndex.Scenario | project.cpp:246-250 | A client run: records 10 and 20 for `a`, 5 for `b`, and 7 for `c` (in `a`'s bucket). Then `a`'s dump is 7, 10, 20, its load is 37, its lightest is 7 and its heaviest is 20. `b`'s dump is its one record. A destination hashed elsewhere finds nothing and reports no parcels. |

## Findings

| source | as written | input that shows it | evidently intended | confidence | as-written member | corrected member |
|---|---|---|---|---|---|---|
| project.cpp:556-562 | Menu case 4 calls `minValueNode` and `maxValueNode` on the bucket's root before `if (minParcel && maxParcel)`. | A destination whose bucket is empty, e.g. "Peru" (bucket 13) when only "Alpha" and "Beta" records are loaded. `minValueNode(NULL)` reads `NULL->left`. | Check the bucket for emptiness first and print "No parcels found". | high; not executed | Queries.ExtremesAsWritten | Queries.ExtremesOf |
| project.cpp:584-590 | Menu case 5 does the same. | The same empty bucket. | The same check first. | high; not executed | Queries.ExtremesAsWritten | BucketIndex.HashTable.ExtremesFor |

## Left out

- `loadData` (project.cpp:261-283) is left out: it reads and parses a file. The table is filled through `InsertParcel` with the parsed values.
- `main` (project.cpp:423-624) is left out: the menu loop, reading stdin, checking input (an empty country name, a negative weight) and the 22-byte country buffer. Its bucket lookups appear as `BucketFor`, `SearchAndDisplay` and `ExtremesFor`.
- Printing is left out. `inOrder`, `searchByWeight` and `searchAndDisplay` return what they would print, as sequences of records.
- CalculateLoad: the valuation total is not modelled, because it is `float` arithmetic with rounding. The weight total is an unbounded integer, so `int` overflow of `totalLoad` is not modelled.
- The `float` valuation is carried as a `real` payload. Nothing is computed from it.
- Hasher.Hash: `unsigned long` is taken as 32 bits, as on the Windows target the source is written for. With a 64-bit `unsigned long` the buckets of longer strings would differ.
- AvlTree.Insert: requires its input to be an AVL tree. On trees that are not AVL, the left-right and right-left cases of the source can dereference a null child. Every tree in the table is AVL (`HashTable.Valid`), so every caller meets this.
- Trees are values. The in-place rewiring of the `left`/`right` links by the rotations and `insert` is modelled by building new nodes. The model does not capture aliasing, but no node is shared in the source either.
- Memory management is left out: `new`, `delete`, `strcpy_s` and `freeAVLTree`'s release. Only the order in which records are released is modelled (`ReleaseOrder`). The copied destination is modelled as the C string of the argument.
- Weights are unbounded integers. Comparisons of 32-bit `int` weights behave the same for every value the source can hold.
