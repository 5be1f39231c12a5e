# mmkv: verified data structures and shard redistribution

A Dafny model of the hard core of mmkv, an in-memory key-value store. Four components are modelled in
the form the program has them (objects with fields that methods update, loops with their own break
conditions) and proved against specifications over all inputs and whole runs.

**AVL trees with parent pointers.** `AvlHeap.AvlTree` is the pointer structure: nodes with `parent`,
`left`, `right` and `height`. A ghost inductive tree with *stored* heights (`AvlShape.Tree`) and an
explicit way up (`AvlShape.Path`) describe it, and every rotation, fixup and erasure is proved to turn one
description into the next. On the descriptions are proved: order and contents for arbitrary stored heights
(`AvlOrder`), balance for fresh nodes (`AvlBalance`), logarithmic height for any mix of fresh and migrated
nodes (`AvlLag`), what a migrated node does to sibling balance (`AvlZero`), and order and height over whole
runs (`AvlRuns`). Successor, predecessor, walks, bounds and the
destructive walk are in `AvlIterate`, `AvlBounds` and `AvlReuse`; `AvlMigrate` is the destructive walk of
one heap bucket whose callback pushes into two others.

**Two-table hash tables.** `TwoTables` is the migration invariant over buckets of finite maps;
`HashTableModel` (lists, move-to-front) and `TreeHashTableModel` (AVL buckets) are its two users, which
place new keys differently during a migration. The mask arithmetic is concrete, the hash is any function.
`HashIterate` has the iterator and the set operations.

**Replacement caches.** `BlistModel` is the doubly linked list without sentinel. `LruCacheModel` and
`LfuCacheModel` are the caches over it; a ghost history of everything done to the cache is part of their
state, and `LruSpec` and `LfuSpec` say what that history prescribes without mentioning lists.

**Joins.** `ShardSpec`, `ShardPlan`, `ShardQueue` and `ShardControllerModel` model the redistribution of
shards when a node joins and the queue of pending configurations.

## Results about the code that are not what one expects

- The shortcut for a one-node tree links the second node without updating the root's height. The trees
  reached by fresh insertions and erasures therefore are balanced with exact heights, *or* have two nodes
  and a root that still says 1 (`AvlBalance.StaleRoot`); the later fixups repair that (`AvlRuns.RunBalanced`).
- Migration hands nodes over with height 0, so stored heights lag behind the true ones, for every mix of
  migrated nodes, fresh nodes and removals (`AvlRuns.RunLagging`): by one level at most below the root, and
  by up to three at the root, where more than one occurs exactly if it has one child that is taller than
  the root says (`AvlLag.LagBy`, with two- and three-node trees in `AvlLag.RootLags`). Buckets stay
  logarithmic all the same, one level above the bound for balanced trees (`AvlRuns.MixedCost`), and every
  operation of the tree hash table keeps all its buckets so, `Push` for nodes of height 0 and 1
  (`TreeHashTable.Shallow`).
- Strict sibling balance is what such trees can lose: siblings differ by at most two levels
  (`AvlLag.LaggingTall`), and three migrated nodes show that two occur (`AvlLag.MigratedChain`). In a tree of
  fresh nodes a leaf of height 0 keeps them within one level exactly if its slot absorbs it
  (`AvlLag.PushSkew`). In any tree that migration, insertion and removal build there is one more case: the
  fixup may rotate, and `AvlZero.ZeroSkew` says exactly at which nodes that mends the way
  (`AvlZero.Mended` is the smallest one). Order and contents never depend on heights.
- A join builds on the *front* of the pending queue. Every pending configuration is a balanced partition
  all the same, but the new one has every pending node exactly if each node behind the front is in the
  front's configuration or has the new node's id (`ShardQueue.LossIff`); otherwise a node that joined and
  completed is missing in the end (`ShardQueue.LostInTheEnd`, with a run in `ShardControllerModel.LostNode`).
  When the ids behind the front are distinct and new to it, that means that at most one node is pending, or
  two are and the new id is that of the second (`ShardQueue.LossCount`); ids are random and only compared
  with the front, so equal ones may pile up and none is lost (`ShardControllerModel.SameId`).
- The loop after a completion asserts a pending entry in every round. It stops in time exactly if some
  entry is unawaited when it comes to the front (`ShardQueue.StopsIff`); two joins completed out of order
  reach the failing case (`ShardControllerModel.OutOfOrder`). A request told to wait stays remembered even
  after it was answered, unless its connection was down then (`ShardQueue.Remembered`). A waiter whose connection is down breaks the
  chain of configurations exactly if it is the last one taken off (`ShardQueue.ChainDrain`).
- Counting a weight range walks from the lower to the upper bound, which it meets exactly if the range is
  not upside down or nothing is stored in the gap (`AvlBounds.GetSizeByWeight`, with a failing input in
  `AvlBounds.UpsideDown`).

## Model

| member | source | states |
|---|---|---|
| AvlHeap.AvlTree.ChildPlace | mmkv/algo/internal/avl_util.h:26-42 | the hole of any path is refilled and the root pointer changes exactly when the path is empty |
| AvlHeap.AvlTree.RotateLeft | mmkv/algo/internal/avl_util.h:48-63 | the pointers around and below the node, parent links included, become the rotated tree; the set of nodes stays |
| AvlHeap.AvlTree.RotateRight | mmkv/algo/internal/avl_util.h:68-83 | mirror image of RotateLeft |
| AvlHeap.AvlTree.UpdateHeight | mmkv/algo/internal/avl_util.h:92-98 | only the height of that node changes, to one more than its higher child |
| AvlHeap.AvlTree.FixupLeftHeavy | mmkv/algo/internal/avl_util.h:115-132 | for arbitrary stored heights that pass the caller's test, both rotations have the child they turn around |
| AvlHeap.AvlTree.FixupRightHeavy | mmkv/algo/internal/avl_util.h:137-154 | mirror image of FixupLeftHeavy |
| AvlHeap.AvlTree.InsertFixup | mmkv/algo/internal/avl_util.h:163-184 | the climbing loop with its early break ends, on any stored heights, in the tree that InsertFixUp describes |
| AvlHeap.AvlTree.EraseFixup | mmkv/algo/internal/avl_util.h:190-217 | the same for the erasing loop with its stronger break condition |
| AvlHeap.AvlTree.Erase | mmkv/algo/internal/avl_util.h:220-285 | all three deletion cases relink every pointer so that the tree is EraseAt of the old one |
| AvlHeap.AvlTree.EraseInner | mmkv/algo/internal/avl_util.h:224-257 | the two-child case: the leftmost node of the right subtree takes place, links and height of the removed one |
| AvlShape.RebalanceKeeps | mmkv/algo/internal/avl_util.h:115-154 | rebalancing keeps the in-order sequence and the nodes, whatever heights are stored |
| AvlShape.InsertFixKeeps | mmkv/algo/internal/avl_util.h:163-184 | the insert fixup keeps the in-order sequence and the nodes, whatever heights are stored |
| AvlShape.EraseFixKeeps | mmkv/algo/internal/avl_util.h:190-217 | the erase fixup keeps the in-order sequence and the nodes, whatever heights are stored |
| AvlBalance.RebalanceAvl | mmkv/algo/internal/avl_util.h:115-154 | a node whose exact subtrees differ by two becomes AVL with exact heights, including the equal-height case of deletion |
| AvlBalance.InsertFixUpAvl | mmkv/algo/internal/avl_util.h:163-184 | after one subtree of an exact AVL tree grew by one level, the loop with its early break restores the whole tree |
| AvlBalance.EraseFixUpAvl | mmkv/algo/internal/avl_util.h:190-217 | after one subtree of an exact AVL tree lost one level, the loop with its early break restores the whole tree |
| AvlBalance.EraseAtAvl | mmkv/algo/internal/avl_util.h:220-285 | deleting any node of an exact AVL tree gives an exact AVL tree |
| AvlBalance.LinkBalanced | mmkv/algo/internal/avl_tree_base_impl.h:148-176 | linking a fresh node below any null slot of a balanced tree and fixing up gives exact heights, also when the root was stale |
| AvlBalance.PushBalanced | mmkv/algo/internal/avl_tree_base_impl.h:30-119 | unique and non-unique insertion of a fresh node keep the tree balanced up to a stale two-node root |
| AvlBalance.RemoveBalanced | mmkv/algo/internal/avl_tree_base_impl.h:197-254 | removal by key keeps the tree balanced up to a stale two-node root |
| AvlLag.RebalanceLag | mmkv/algo/internal/avl_util.h:115-154 | rebalancing restores a node whose leaves may store 0, also when a subtree grew by two levels at once |
| AvlLag.LinkLag | mmkv/algo/internal/avl_tree_base_impl.h:55-80 | linking a node of height 0 or 1 below any null slot and fixing up leaves heights that lag as LagBy says |
| AvlLag.EraseAtLag | mmkv/algo/internal/avl_util.h:220-285 | so does deleting any node of such a tree |
| AvlLag.PushLag | mmkv/algo/internal/tree_hashtable_impl.h:202-204 | insertions of fresh and migrated nodes, unique or not, the one-node shortcut included, keep heights that lag no more than that |
| AvlLag.RemoveLag | mmkv/algo/internal/avl_tree_base_impl.h:197-209 | so does removal by key |
| AvlLag.LagBy | mmkv/algo/internal/avl_tree_base_impl.h:36-80 | such heights lag by one level at most below the root and by three at it, by more than one if and only if the root has one child that is taller than the root says |
| AvlLag.RootLags | mmkv/algo/internal/avl_tree_base_impl.h:36-53 | two migrated nodes give a root that says 0 at height 2, and a fresh node between two migrated ones a root that says 0 at height 3 |
| AvlLag.LaggingTall | mmkv/algo/internal/avl_util.h:163-217 | with such heights siblings differ by at most two levels everywhere |
| AvlLag.UnfixedLeaf | mmkv/algo/internal/avl_util.h:167-173 | in any tree, a leaf linked without a fixup keeps siblings within one level if and only if its slot absorbs it |
| AvlLag.PushSkew | mmkv/algo/internal/avl_tree_base_impl.h:30-84 | in a tree of fresh nodes, a new key of height 0 or 1 keeps siblings within one level if and only if the height is 1 or its slot absorbs it |
| AvlZero.TurnStep | mmkv/algo/internal/avl_util.h:115-154 | the rotation after a height-0 link leaves the stored and the true height of the node, and siblings within one level if and only if the way is even from the grandchild on, or uneven there and at the child while a double rotation gives the grandchild's taller subtree to the turning node |
| AvlZero.ZeroSkew | mmkv/algo/internal/tree_hashtable_impl.h:202-204 | in any tree of fresh and migrated nodes whose siblings are within one level, a migrated node with a new key keeps them so if and only if its slot absorbs it or the fixup rotates where that mends the way; a slot that absorbs sees no rotation |
| AvlZero.Mended | mmkv/algo/internal/tree_hashtable_impl.h:202-204 | a tree of four migrated nodes and a slot that does not absorb, where the rotation mends the way |
| AvlLag.MigratedChain | mmkv/algo/internal/tree_hashtable_impl.h:202-204 | three migrated nodes in ascending order are a chain, so two levels of difference occur |
| AvlOrder.DescendFinds | mmkv/algo/internal/avl_tree_base.h:212-229 | the descent ends at a node if and only if the key is stored, with smaller keys before and larger ones after its place |
| AvlOrder.PushAt | mmkv/algo/internal/avl_tree_base_impl.h:36-53 | the one-node shortcut links where the general descent would |
| AvlOrder.PushSpec | mmkv/algo/internal/avl_tree_base_impl.h:30-84 | for any stored heights: an absent key inserts the node at one place and keeps the order, a present key changes nothing |
| AvlOrder.PushEqSpec | mmkv/algo/internal/avl_tree_base_impl.h:86-119 | the node is inserted at one place and the non-strict order kept, although equal keys go to either side by height |
| AvlOrder.PushEqSide | mmkv/algo/internal/avl_tree_base_impl.h:99-117 | the place of the new node, if it lies in the subtree of a node with an equal key, is before that node if and only if the left subtree stores the smaller height |
| AvlWalk.PushEqSides | mmkv/algo/internal/avl_tree_base_impl.h:99-117 | so in the in-order sequence, for every node with an equal key, the new node is on the side with the smaller stored height, and on the right if they are equal |
| AvlOrder.PushEqRoot | mmkv/algo/internal/avl_tree_base_impl.h:99-117 | the same at the root, as positions in the in-order sequence |
| AvlOrder.EraseAtSpec | mmkv/algo/internal/avl_util.h:220-285 | erasing removes exactly that node from the in-order sequence |
| AvlOrder.EraseRoot | mmkv/algo/internal/avl_util.h:224-257 | a root of an exact AVL tree with two children and a left one that is not higher is replaced by the next node in order, which keeps the left subtree |
| AvlOrder.RemoveSpec | mmkv/algo/internal/avl_tree_base_impl.h:243-254 | removal by key takes out one node that has the key, or nothing if there is none, and keeps the order |
| AvlHeap.AvlTree.FindNode | mmkv/algo/internal/avl_tree_base.h:212-229 | null if and only if no node has the key; the loop makes exactly as many turns as Visits counts |
| AvlHeap.AvlTree.Push | mmkv/algo/internal/avl_tree_base_impl.h:30-84 | succeeds if and only if the key is absent, inserts that node at one place in order, and keeps balance for a fresh node |
| AvlHeap.AvlTree.PushEq | mmkv/algo/internal/avl_tree_base_impl.h:86-119 | inserts the node at one place in non-strict order, on the lower side of every equal key it meets, and keeps balance for a fresh node |
| AvlHeap.AvlTree.Insert | mmkv/algo/internal/avl_tree_base_impl.h:123-180 | creates and links a node if and only if the key is absent, otherwise reports the node that has it; always keeps balance |
| AvlHeap.AvlTree.Extract | mmkv/algo/internal/avl_tree_base_impl.h:197-209 | returns null if and only if the key is absent, otherwise an unlinked node with the key that still has its stored height; putting it back gives the old sequence |
| AvlHeap.AvlTree.EraseKey | mmkv/algo/internal/avl_tree_base_impl.h:243-254 | erases if and only if the key is present and keeps balance |
| AvlRuns.StepSound | mmkv/algo/internal/avl_tree_base_impl.h:30-254 | with any stored heights every operation keeps the order and acts on the bag of keys as on a plain multiset |
| AvlRuns.RunSound | mmkv/algo/internal/avl_tree_base_impl.h:30-254 | after any sequence of insertions (unique or not, of nodes with any height) and erasures the tree is sorted and holds the multiset the operations describe |
| AvlRuns.RunBalanced | mmkv/algo/internal/avl_tree_base_impl.h:86-254 | if the nodes were fresh it is balanced, with exact heights up to a stale two-node root |
| AvlRuns.RunLagging | mmkv/algo/internal/tree_hashtable_impl.h:186-215 | if they were fresh or migrated, in any mix, heights lag as LagBy says |
| AvlRuns.BalancedSize | mmkv/algo/internal/avl_util.h:163-217 | a balanced tree of true height h has at least Fib(h+2)-1 nodes |
| AvlRuns.SearchCost | mmkv/algo/internal/avl_tree_base.h:212-229 | after any run of fresh insertions and erasures a search visits at most 2 log2(n+1)+1 nodes |
| AvlRuns.LaggingSize | mmkv/algo/internal/tree_hashtable.h:49-56 | a tree whose heights lag has at least Fib(h+1)-1 nodes, one level more than a balanced one at most |
| AvlRuns.MixedCost | mmkv/algo/internal/tree_hashtable.h:49-56 | after any run of fresh and migrated insertions and erasures a search visits at most 2 log2(n+1)+2 nodes |
| AvlIterate.GetFirstNode | mmkv/algo/internal/avl_util.h:292-301 | first node of the in-order sequence |
| AvlIterate.GetLastNode | mmkv/algo/internal/avl_util.h:304-313 | last node of the in-order sequence |
| AvlIterate.GetNextNode | mmkv/algo/internal/avl_util.h:317-341 | from position i of the in-order sequence to position i+1, or null |
| AvlIterate.GetPrevNode | mmkv/algo/internal/avl_util.h:345-363 | from position i to position i-1, or null, so the two are inverse |
| AvlIterate.Iterate | mmkv/algo/internal/avl_tree_base.h:284-297 | stepping from begin to end visits exactly the in-order sequence |
| AvlIterate.DoInAll | mmkv/algo/internal/avl_tree_base_impl.h:345-362 | the walk with an explicit stack visits the same sequence |
| AvlBounds.LowerBound | mmkv/algo/internal/avl_tree_base.h:236-251 | first in-order node with key >= k, with duplicates, or null |
| AvlBounds.UpperBound | mmkv/algo/internal/avl_tree_base.h:255-270 | first in-order node with key > k, with duplicates, or null |
| AvlBounds.BoundsMeet | mmkv/db/vset.cc:126-133 | the lower bound is not behind the upper bound if and only if the range is not upside down or its gap is empty |
| AvlBounds.GetSizeByWeight | mmkv/db/vset.cc:126-133 | the walk from the lower bound comes to the upper bound if and only if they meet or there is no lower bound; then the number of steps is the number of stored keys in the range |
| AvlBounds.UpsideDown | mmkv/db/vset.cc:126-133 | an input on which the walk runs past the end |
| AvlReuse.HandOver | mmkv/algo/internal/avl_tree_base_impl.h:320-335 | a leaf is unlinked on both sides before the callback, and the rest of the tree survives whatever the callback rewrites |
| AvlReuse.ReuseAllNodes | mmkv/algo/internal/avl_tree_base_impl.h:307-341 | ends, empties the tree and hands out exactly the post-order sequence |
| AvlWalk.PostOrderNodes | mmkv/algo/internal/avl_tree_base_impl.h:307-341 | the post-order sequence has exactly the nodes of the tree, as many as the in-order sequence |
| AvlWalk.PostOrderOnce | mmkv/algo/internal/avl_tree_base_impl.h:307-341 | no node is handed out twice |
| AvlWalk.BelowFirst | mmkv/algo/internal/avl_tree_base_impl.h:314-337 | everything below a node, at any place in the tree, is handed out before it |
| AvlWalk.LeftFirst | mmkv/algo/internal/avl_tree_base_impl.h:314-337 | at every node, everything on its left is handed out before everything on its right |
| AvlMigrate.Give | mmkv/algo/internal/tree_hashtable_impl.h:202-204 | the callback on the heap: the unlinked leaf is pushed into the bucket its key selects, and the rest of the walked bucket and the other target survive |
| AvlMigrate.Migrate | mmkv/algo/internal/tree_hashtable_impl.h:202-204 | on the heap, the walk empties the source bucket and each target is what pushing its share of the post-order sequence with height 0 gives; the trees still share nothing |
| AvlMigrate.MigrateDict | mmkv/algo/internal/tree_hashtable_impl.h:186-215 | every entry of the source bucket ends up, with its node, in the bucket its key selects, and nothing else changes |
| Mask.AndMask | mmkv/algo/hash_table.h:349-352 | masking with a power of two minus one is the remainder |
| Mask.Doubled | mmkv/algo/hash_table.h:349-352 | the masked hash is an index, and in the doubled table it is the old index or the old index plus the old size |
| TwoTables.IndexIs | mmkv/algo/hash_table.h:349-352 | the bucket of a key is its hash modulo the size of the table |
| TwoTables.PlacedIs | mmkv/algo/hash_table.h:349-352 | in every state an entry of bucket i has a hash that is i modulo the size of its table, is not in a migrated bucket, and is the one the map has |
| TwoTables.EmptyInv | mmkv/algo/internal/hash_table_impl.h:25-28 | four empty buckets hold the empty map |
| TwoTables.GrowInv | mmkv/algo/internal/hash_table_impl.h:252-258 | starting a migration keeps the map and the placement of every key |
| TwoTables.MoveOne | mmkv/algo/internal/hash_table_impl.h:287-294 | moving one entry of the bucket under migration to table 2 keeps the map, each key stored once |
| TwoTables.Advance | mmkv/algo/internal/hash_table_impl.h:296-296 | passing an emptied bucket keeps the invariant, buckets below the index being empty |
| TwoTables.Finish | mmkv/algo/internal/hash_table_impl.h:298-304 | after the last bucket table 2 alone holds the map, every key in its bucket, and sizes stay powers of two |
| HashTableModel.ExtractNodeIf | mmkv/algo/slist.h:391-418 | takes out the entry with the key and nothing else, the others keeping their order |
| HashTableModel.HashTable.Rehash | mmkv/algo/internal/hash_table_impl.h:252-258 | a migration starts if and only if none is under way and the table is full; the map stays |
| HashTableModel.HashTable.IncrementalRehash | mmkv/algo/internal/hash_table_impl.h:279-305 | one bucket per call, its entries going one after the other to the fronts of their new buckets, so a migration takes as many calls as it has buckets left and ends with a doubled table that is not full, before another growth is due; the map stays |
| HashTableModel.ArrivalsAt | mmkv/algo/internal/hash_table_impl.h:287-294 | a migrated entry stands right in front of those that were before it in the old list and went to the same bucket |
| HashTableModel.ArrivalsOnly | mmkv/algo/internal/hash_table_impl.h:287-294 | exactly the entries with that hash modulo the size arrive in a bucket |
| HashTableModel.HashTable.KeyWhere | mmkv/algo/internal/hash_table_impl.h:119-150 | a key is stored once, in the bucket that is its hash modulo the size, and not in a migrated bucket of table 1 |
| HashTableModel.HashTable.InsertWithDuplicate | mmkv/algo/internal/hash_table_impl.h:95-159 | after one migration step adds the entry, in table 2 exactly while migrating, at the front of its bucket and changing no other, if and only if the key is absent, otherwise returns the stored one; the count and the load bound hold, and a migration comes one call nearer to its end |
| HashTableModel.HashTable.FindSlot | mmkv/algo/internal/hash_table_impl.h:169-200 | finds exactly what the map has and moves it to the front of its bucket, changing no other; the map stays; a migration under way comes one call nearer to its end |
| HashTableModel.HashTable.Extract | mmkv/algo/internal/hash_table_impl.h:226-249 | removes exactly that key from its bucket and returns its entry, or nothing; a migration under way comes one call nearer to its end |
| HashTableModel.HashTable.Erase | mmkv/algo/internal/hash_table_impl.h:214-223 | returns how many entries the map lost |
| HashTableModel.HashTable.Clear | mmkv/algo/internal/hash_table_impl.h:261-276 | the empty map, in any phase of a migration |
| HashIterate.EntriesSpec | mmkv/algo/internal/hash_table_iterator.h:75-134 | in any phase the iteration order lists each entry of the map once, and `used` is their number |
| HashIterate.EntriesInOrder | mmkv/algo/internal/hash_table_iterator.h:75-134 | table 1 comes before table 2, a bucket before the next one and a list from its front |
| HashIterate.Begin | mmkv/algo/internal/hash_table_iterator.h:75-99 | the iterator starts with every entry of both tables ahead of it |
| HashIterate.Increment | mmkv/algo/internal/hash_table_iterator.h:101-134 | each step consumes exactly one entry, across lists, empty buckets and both tables |
| HashIterate.Union | mmkv/algo/internal/hash_set_impl.h:18-31 | each element of either set once, first the larger set in its order and then the rest of the smaller one in its, although every lookup rearranges the larger set |
| HashIterate.Intersection | mmkv/algo/internal/hash_set_impl.h:35-44 | each common element once, in the order of the smaller set |
| HashIterate.Difference | mmkv/algo/internal/hash_set_impl.h:48-54 | each element of the first set that is not in the second, once and in order |
| TreeBucket.FindDict | mmkv/algo/internal/avl_tree_base.h:212-229 | the descent in a bucket finds the node the bucket's map has |
| TreeBucket.PushDict | mmkv/algo/internal/avl_tree_base_impl.h:30-84 | pushing a node of any height adds its key to the bucket's map or changes nothing |
| TreeBucket.RemoveDict | mmkv/algo/internal/avl_tree_base_impl.h:197-209 | removing a key removes it from the bucket's map and keeps the order |
| TreeBucket.PostOrderDict | mmkv/algo/internal/avl_tree_base_impl.h:307-341 | the destructive walk hands out exactly the entries of the bucket's map |
| TreeHashTableModel.TreeHashTable.KeyWhere | mmkv/algo/internal/tree_hashtable_impl.h:55-85 | a key is in the bucket that is its hash modulo the size, in table 1 if and only if that bucket is at or above the migration index, otherwise in table 2 at b or b + size1 |
| TreeHashTableModel.TreeHashTable.Rehash | mmkv/algo/internal/tree_hashtable_impl.h:177-183 | a migration starts if and only if none is under way and the table is full; the map stays |
| TreeHashTableModel.TreeHashTable.IncrementalRehash | mmkv/algo/internal/tree_hashtable_impl.h:186-215 | the destructive walk of one bucket, pushing every node into table 2, gives the two buckets there what AvlMigrate.Migrate gives two heap trees, and touches no other; it keeps the map, the location invariant and the logarithmic buckets; one bucket per call, ending with a table that is not full |
| TreeHashTableModel.BucketCost | mmkv/algo/internal/tree_hashtable.h:49-56 | in a table that only saw fresh and migrated nodes, a search in a bucket of n nodes compares at most 2 log2(n+1)+2 keys |
| TreeHashTableModel.TreeHashTable.PushThenCheck | mmkv/algo/internal/tree_hashtable_impl.h:78-82 | for a key that is not in its table-1 bucket, the duplicate check made in table 2 after the node is already pushed never fires |
| TreeHashTableModel.TreeHashTable.Push | mmkv/algo/internal/tree_hashtable_impl.h:23-91 | after one migration step pushes the node, with its height, into the one bucket where its key belongs if and only if the key is absent; buckets stay logarithmic for a node of height 0 or 1 |
| TreeHashTableModel.TreeHashTable.InsertWithDuplicate | mmkv/algo/internal/tree_hashtable_impl.h:106-174 | after one migration step pushes a created node with height 1 into the one bucket where its key belongs if and only if the key is absent, otherwise returns the stored one; that step keeps buckets balanced, so without a migration the whole call does; with one they stay logarithmic |
| TreeHashTableModel.PushedBucket | mmkv/algo/internal/tree_hashtable_impl.h:127-168 | a created node leaves the bucket of its key balanced if it was, and every other bucket as it was |
| TreeHashTableModel.LinkedBalanced | mmkv/algo/internal/tree_hashtable_impl.h:127-168 | linking a created node keeps all buckets of both tables balanced |
| TreeHashTableModel.UnlinkedBalanced | mmkv/algo/internal/tree_hashtable_impl.h:265-274 | so does unlinking a key |
| TreeHashTableModel.TreeHashTable.FindNode | mmkv/algo/internal/tree_hashtable_impl.h:226-253 | finds exactly what the map has; the map stays |
| TreeHashTableModel.TreeHashTable.Extract | mmkv/algo/internal/tree_hashtable_impl.h:256-277 | after one migration step removes the key from its bucket, changing no other, and returns its node, or null; buckets stay logarithmic |
| TreeHashTableModel.TreeHashTable.Erase | mmkv/algo/internal/tree_hashtable_impl.h:280-288 | returns how many entries the map lost |
| TreeHashTableModel.TreeHashTable.Clear | mmkv/algo/internal/tree_hashtable_impl.h:300-312 | the empty map, in any phase of a migration |
| BlistModel.Blist.InsertAfter | mmkv/algo/blist.h:154-173 | the node enters the sequence after any member, both links and the tail shortcut staying right |
| BlistModel.Blist.PushFront | mmkv/algo/blist.h:188-209 | the sequence gets a new first element |
| BlistModel.Blist.PushBack | mmkv/algo/blist.h:217-237 | the sequence gets a new last element |
| BlistModel.Blist.PopFront | mmkv/algo/blist.h:259-277 | the sequence loses its first element, or the list was empty |
| BlistModel.Blist.PopBack | mmkv/algo/blist.h:279-299 | the sequence loses its last element, or the list was empty |
| BlistModel.Blist.Extract | mmkv/algo/blist.h:301-357 | exactly that member leaves the sequence, unlinked; a node in no list is ignored |
| BlistModel.Blist.Clear | mmkv/algo/blist.h:387-397 | the empty sequence |
| LruSpec.RunSound | mmkv/replacement/internal/lru_cache_impl.h:21-73 | for every history with deletions: at most the capacity, each key once, by strictly decreasing last use |
| LruSpec.LastUseIs | mmkv/replacement/internal/lru_cache_impl.h:21-49 | the last use is the last position at which the history touches the key |
| LruSpec.RunIsRecent | mmkv/replacement/internal/lru_cache_impl.h:21-49 | without deletions the list is exactly the most recently used distinct keys, in order |
| LruSpec.Inclusion | mmkv/replacement/internal/lru_cache_impl.h:21-49 | a cache is always a prefix of the next larger one fed with the same uses |
| LruSpec.CachedIff | mmkv/replacement/internal/lru_cache_impl.h:21-49 | a key is cached if and only if it was used and fewer than the capacity of keys were used since |
| LruCacheModel.LruCache.UpdateEntry | mmkv/replacement/internal/lru_cache_impl.h:21-49 | list and dictionary agree node by node and the list is what the policy prescribes for the history |
| LruCacheModel.LruCache.Search | mmkv/replacement/internal/lru_cache_impl.h:52-55 | answers membership and is not a use |
| LruCacheModel.LruCache.DelEntry | mmkv/replacement/internal/lru_cache_impl.h:58-67 | removes exactly that key |
| LruCacheModel.LruCache.Victim | mmkv/replacement/lru_cache.h:50-50 | the cached key whose last use is longest ago |
| LruCacheModel.LruCache.DelVictim | mmkv/replacement/lru_cache.h:53-58 | removes the victim, or nothing |
| LruCacheModel.LruCache.Clear | mmkv/replacement/internal/lru_cache_impl.h:70-73 | empties list and dictionary |
| LfuSpec.VictimIsWorst | mmkv/replacement/internal/lfu_cache_impl.h:69-75 | the first key of the first bucket is least by frequency and then by last update |
| LfuSpec.AddOk | mmkv/replacement/internal/lfu_cache_impl.h:17-24 | a new key keeps frequencies strictly increasing, no bucket empty and every bucket ordered by last update |
| LfuSpec.RaiseOk | mmkv/replacement/internal/lfu_cache_impl.h:25-44 | so does moving a known key to the next frequency, whether that bucket exists or not and whether the old one empties or not |
| LfuSpec.RemoveOk | mmkv/replacement/internal/lfu_cache_impl.h:50-66 | so does taking a key out |
| LfuSpec.TellsStep | mmkv/replacement/internal/lfu_cache_impl.h:11-91 | the statistics kept along are those of the whole history |
| LfuSpec.UpdatesIs | mmkv/replacement/internal/lfu_cache_impl.h:11-91 | the frequency of a key is the number of its updates in the history after which it has not left |
| LfuSpec.LastUpdateIs | mmkv/replacement/internal/lfu_cache_impl.h:11-91 | the last update of a cached key is the last position at which the history updates it |
| LfuSpec.MeaningVictim | mmkv/replacement/internal/lfu_cache_impl.h:69-75 | for every history, the front of the first bucket is the cached key with the fewest updates since its insertion, and of those the one updated longest ago |
| LfuSpec.VictimUnique | mmkv/replacement/internal/lfu_cache_impl.h:69-75 | the history determines the victim |
| LfuCacheModel.LfuCache.UpdateEntry | mmkv/replacement/internal/lfu_cache_impl.h:11-47 | the lists stay right for the history, and every dictionary context points at that key's own two nodes |
| LfuCacheModel.LfuCache.DelEntry | mmkv/replacement/internal/lfu_cache_impl.h:50-66 | removes exactly that key if it is cached |
| LfuCacheModel.LfuCache.Victim | mmkv/replacement/internal/lfu_cache_impl.h:69-75 | the victim of the history, or nothing if nothing is cached |
| LfuCacheModel.LfuCache.DelVictim | mmkv/replacement/internal/lfu_cache_impl.h:78-91 | the victim of the history leaves, and nothing else |
| LfuCacheModel.LfuCache.Search | mmkv/replacement/internal/lfu_cache_impl.h:94-98 | found if and only if the history updated the key since it last left |
| LfuCacheModel.LfuCache.Clear | mmkv/replacement/lfu_cache.h:74-78 | the cache of the empty history |
| ShardSpec.OneOwner | mmkv/tracker/shard_controller_session.cc:352-371 | in a partition exactly the shards below the shard number have an owner, only one, which lists them once |
| ShardSpec.EvenSizes | mmkv/tracker/shard_controller_session.cc:19-21 | every node holds at least one shard and no two differ by more than one |
| ShardPlan.PlanStep | mmkv/tracker/shard_controller_session.cc:122-145 | pulling from the end of one node's list, last shard first, keeps the plan equal to the configuration difference |
| ShardPlan.PlanDisjoint | mmkv/tracker/shard_controller_session.cc:122-145 | no shard is pulled from two nodes |
| ShardPlan.PulledAt | mmkv/tracker/shard_controller_session.cc:130-136 | the new node lists the shards in the order of the entries and, within an entry, in its order |
| ShardPlan.CountedStep | mmkv/tracker/shard_controller_session.cc:113-120 | each of the three branches keeps the bookkeeping of surplus and moved shards |
| ShardPlan.CountedAll | mmkv/tracker/shard_controller_session.cc:56-59 | for every iteration order the surplus is used up at the end and the new node has exactly its share |
| ShardPlan.RicherIs | mmkv/tracker/shard_controller_session.cc:113-120 | the loop's countdown is the number of nodes so far with more than the share |
| ShardPlan.ToldAt | mmkv/tracker/shard_controller_session.cc:113-123 | each node that gets an entry, with or without shards, gets it behind those walked before it |
| ShardPlan.ToldOnly | mmkv/tracker/shard_controller_session.cc:113-123 | only nodes above the share get one, and those met after the surplus is used up |
| ShardControllerModel.Redistribute | mmkv/tracker/shard_controller_session.cc:97-151 | for every iteration order the asserted difference is never negative, the loop conserves all shards, leaves one more than the share exactly to the first so many nodes that have more, and reports, in that order, exactly what each node lost, last shard first |
| ShardControllerModel.DistributeAll | mmkv/tracker/shard_controller_session.cc:85-93 | the first node gets every shard and no entries to pull from |
| ShardControllerModel.DistributeShare | mmkv/tracker/shard_controller_session.cc:53-157 | a later node gets exactly S / (N+1) shards, in the order in which they are reported, and the result is a balanced partition |
| ShardControllerModel.ShardController.Join | mmkv/tracker/shard_controller_session.cc:10-169 | rejections, the pending configuration and its plan; every pending configuration is a balanced partition; in every valid state it has every pending node if and only if the front has those behind it, up to the new id; it extends a chain of configurations if and only if at most one is pending |
| ShardControllerModel.ShardController.Complete | mmkv/tracker/internal/shard_controller_session_impl.h:32-69 | exactly when the assertions on a pending entry hold; a request that has to wait is added to those remembered and changes nothing else; a match takes off the front and those behind it that are remembered, installs the last of them that is reached and forgets exactly those that are not; when the chain of configurations survives; every configuration stays a balanced partition |
| ShardControllerModel.ShardController.CheckPending | mmkv/tracker/shard_controller_server.cc:95-125 | ends without a failing assertion if and only if it stops in time, and then has taken off what Drain prescribes; every configuration stays a balanced partition |
| ShardControllerModel.QueryNodeInfo | mmkv/tracker/shard_controller_session.cc:346-371 | the asserted sizes are equal if and only if nothing is queried, or somebody has joined and every queried shard is one of the cluster's; then each has its one owner |
| ShardQueue.StopsIff | mmkv/tracker/shard_controller_server.cc:95-125 | the loop stops before the queue is empty if and only if some entry is unawaited when it comes to the front |
| ShardQueue.DrainSpec | mmkv/tracker/shard_controller_server.cc:95-125 | what is taken off is a front part of awaited entries, the last reachable one of them is installed, and exactly the waiters that are not reached are forgotten |
| ShardQueue.CompletedIs | mmkv/tracker/internal/shard_controller_session_impl.h:44-64 | the same for a whole completion request, said without the loop |
| ShardQueue.Remembered | mmkv/tracker/shard_controller_server.cc:95-125 | in every run of joins and completions, a request told to wait is remembered until an entry with its key is taken off while its connection is down, and nothing else is remembered |
| ShardQueue.ChainPush | mmkv/tracker/shard_controller_server.h:45-49 | a configuration built on the queue's front extends the last one if and only if at most one is pending |
| ShardQueue.ChainKeepsAll | mmkv/tracker/shard_controller_server.h:45-66 | while they extend each other, the last configuration has every node that joined |
| ShardQueue.ChainDrain | mmkv/tracker/shard_controller_server.cc:95-125 | the loop keeps the chain of configurations if and only if the waiter of the last entry it takes off is reached |
| ShardQueue.LossIff | mmkv/tracker/shard_controller_server.h:45-49 | for every queue, a configuration built on its front has every pending node if and only if each node behind the front is in the front's configuration or has the new id |
| ShardQueue.LossCount | mmkv/tracker/shard_controller_server.h:45-49 | when those nodes are new to the front and distinct: if and only if at most one is pending, or two are and the new id is that of the second |
| ShardQueue.ChainDistinct | mmkv/tracker/shard_controller_server.h:45-66 | while configurations extend each other, they are |
| ShardQueue.LostInTheEnd | mmkv/tracker/shard_controller_session.cc:35-66 | from every state, when all complete in order, no node that joined is missing in exactly the case of LossIff |
| ShardControllerModel.LostNode | mmkv/tracker/shard_controller_session.cc:35-66 | three nodes join and complete in order and the second one is not in the final configuration |
| ShardControllerModel.SameId | mmkv/tracker/shard_controller_session.cc:35-66 | three joins with the same id behind a first one: the last configuration has every pending node |
| ShardControllerModel.OutOfOrder | mmkv/tracker/internal/shard_controller_session_impl.h:44-66 | two joins completed out of order: the second waits, then the first one's completion fails the assertion, whichever connections are up |

## Left out

- TreeHashTableModel.TreeHashTable: its buckets are tree values with stored heights, not heap trees; that the pointer operations realise these values is proved in AvlHeap, and for one migration step over three heap buckets in AvlMigrate, with the same result as the table's own step; but the table does not hold the heap trees itself.
- HashTableModel.HashTable: its bucket lists are sequences of entries; the links of the singly linked list nodes are not modelled.
- AvlHeap.AvlTree.Push: the unique insertions are modelled with a null `duplicate`; with a non-null one the one-node shortcut reads a null slot when the key is present.
- AvlHeap.AvlTree.Extract: a node keeps its stale height, so balance and height are only claimed for the tree it left, not for one it is pushed into later with a height above 1 (order and contents are).
- AvlZero.ZeroSkew: the exact condition is for nodes of height 0; for a fresh node that goes into a tree with migrated ones only the bound of two levels is stated.
- AvlReuse.Callback: stands for any callback that writes only to nodes it received and to what it owns.
- ShardControllerModel.ShardController.Join: the generated node id and the iteration order of the map are parameters; hosts, ports and the network are not modelled.
- ShardControllerModel.ShardController.Complete: which waiting connections are still up is a parameter; a failed assertion is an answer of its own, and what a build without assertions would do next is not modelled.
- Keys of trees and caches are integers in their usual order; hash functions are arbitrary; table sizes, counters and shard numbers do not wrap; allocation always succeeds.
- The element counter of the AVL tree, which the one-node shortcut does not increase.
- The argument-less AVL `Extract`, the erasure by predicate, `EraseAfterFindSlot`, `EraseRandom` and `EraseNode`, which do not keep the invariants above.
- `Clone` of the hash table and the iterator of the tree hash table, which would only add easier copies of what is here.
- `Leave`, which divides the removed shards only and therefore does not conserve the partition.
- The grouping of a query's answer by node, the MRU cache, the other containers, the database commands, encoding, logging, configuration, networking and threads.
