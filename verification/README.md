# B+ tree and B-tree of s4hubhamp/btree, in Dafny

The repository holds two search trees of integer keys, each with a value per key.

- **b+tree.ts** is a B+ tree. Its leaves hold the keys and values, and its internal nodes hold only routing keys. The capacities of leaves and of inner nodes are chosen when the tree is created. Insertion splits overflowing nodes bottom-up. Deletion repairs an underfull node by stealing from a sibling or merging with it, then repairs upward. The tests run `validate_tree` once after all insertions and again after every deletion.
- **btree.ts** is a classic B-tree of maximum degree 4. Every node holds keys with their values. Insertion splits around the middle key, and that key moves up with its value. The file has no deletion.

The model is functional. A node is an immutable datatype, and an operation returns the new tree. The source mutates nodes in place through a stack of parent nodes. Each stack is kept here as a path of crumbs: a parent's keys, its children and the index taken. `Plug` rebuilds the tree from a path and a changed node, which is what in-place mutation makes visible to the caller.

Each insertion and deletion is written twice:
- as the source walks it, over the parent stack (`Balance`, `BalanceDeletion`);
- as one recursive descent (`InsertRec`, `DeleteRec`).

Lemmas show that the two forms compute the same tree, and the correctness proofs are about the recursive form.

The contents of a tree are `Entries`: its key/value pairs in key order. The operations are specified against the ordered-map operations of module `OrderedMap`:
- insertion adds exactly one entry (`InsertEntry`);
- deletion removes one key (`RemoveKey`);
- search is lookup (`Lookup`).

The structural invariant `Inv` has four parts:
- every node is shaped;
- every leaf is at the same depth, the height;
- the keys are in search-tree order;
- every non-root node holds between its kind's minimum and maximum number of keys.

Each property is proved for keys that are distinct; the source does not prevent repeated keys.

Modules, one per file:

| module | file | contents |
|---|---|---|
| `Wrappers` | wrappers.dfy | `Option`, `Result` |
| `Seqs` | seqs.dfy | `Flatten` of a sequence of sequences and its lemmas |
| `BinarySearch` | binary_search.dfy | `binary_search` of both files (identical code) |
| `OrderedMap` | ordered_map.dfy | entries, `Lookup`, `InsertEntry`, `RemoveKey` |
| `BPlusTree` | bplus_node.dfy | B+ tree nodes, `init_btree`, `Inv`, `Entries`, `search`, the descent |
| `BPlusInsert` | bplus_insert.dfy | leaf and internal insertion, `split_em_up`, `balance`, `insert` |
| `BPlusInsertProof` | bplus_insert_proof.dfy | insertion keeps `Inv` and adds the entry |
| `BPlusDelete` | bplus_delete.dfy | `delete_from_leaf_node`, `balance_node`, `steal`, `merge`, `balance_deletion`, `delete_key` |
| `BPlusDeleteProof`, `BPlusDeleteSpec` | bplus_delete_proof.dfy, bplus_delete_spec.dfy | deletion keeps `Inv` and removes the key |
| `BPlusLevels` | bplus_levels.dfy | the sibling links as the chain of each level, and how split, steal, merge and the root steps change the chains |
| `BPlusValidate` | bplus_validate.dfy | `validate_tree` and how it relates to `Inv` |
| `BPlusFindings` | bplus_findings.dfy | the capacity tests of b+tree.ts as written |
| `ClassicBTree`, `ClassicBTreeProof` | classic_btree.dfy, classic_btree_proof.dfy | the B-tree of btree.ts and its proofs |

Where the source's comments or its documented intent disagree with its code, the model follows the code, except for the three capacity tests, where it uses the corrected tests (see "## Findings"):
- **Key order in `validate_tree`.** It accepts equal neighbouring keys (`<=`, b+tree.ts:718), not strictly increasing ones.
- **Sibling links in `validate_tree`.** It never looks at the sibling links.
- **Depth in `validate_tree`.** It compares the height only with the deepest level dequeued (b+tree.ts:770), not with the depth of every leaf.
- **Climbing in `balance_deletion`.** It keeps climbing after a child is found balanced (b+tree.ts:552-585). It stops early only after a steal.

## Model

| member | source | states |
|---|---|---|
| BinarySearch.Search | b+tree.ts:274-296 | The result is in `0..len`. On sorted keys, everything before it is below the target and everything from it on is at least the target. The target is present exactly when the key at the result is the target. On increasing keys, the result is the insertion point. |
| BinarySearch.SearchLoop | btree.ts:161-184 | The source's `low`/`high` loop returns the same index as `Search`, so it has the same insertion-point property on increasing keys. |
| BinarySearch.SearchFindsInsertionPoint | b+tree.ts:274-296 | On increasing keys, the insertion point is unique: any index that splits the keys around the target is the one the search returns. |
| OrderedMap.Lookup | b+tree.ts:604-620 | The reference lookup in a sequence of entries. It gives nothing exactly when no entry has the key. A value it gives belongs to an entry with that key. |
| OrderedMap.InsertEntryContents | b+tree.ts:105-121 | The reference insertion adds exactly the new entry: the multiset of entries grows by that one entry. |
| OrderedMap.LookupInsert | b+tree.ts:105-121 | After the reference insertion, the new key looks up the new value, and every other key looks up what it did before. |
| OrderedMap.LookupRemove | b+tree.ts:330-350 | On ascending entries, after removing a key, that key looks up nothing and every other key looks up what it did before. |
| OrderedMap.RemoveKeyKeeps | b+tree.ts:588-601 | The reference removal keeps every entry whose key is another one. |
| BPlusTree.Init | b+tree.ts:45-64 | Creation succeeds exactly when both capacities are at least 2. The tree is then one empty leaf of height 1 that meets the invariant. Each minimum is `ceil((max + 1) / 2) - 1`, which is `max / 2`, and lies between 1 and the maximum. |
| BPlusTree.ConfigFacts | b+tree.ts:53-54 | For a configuration made by `init_btree`, each minimum is at most half its maximum and at least 1. |
| BPlusTree.EntriesOrdered | b+tree.ts:102-103 | A well-formed subtree in search-tree order has ascending entries, all within the subtree's bounds. |
| BPlusTree.ChildBounds | b+tree.ts:302-313 | The child that the descent takes for key `k` (the search position among the separators) has bounds that admit `k`. |
| BPlusTree.SearchIsLookup | b+tree.ts:604-620 | In a well-formed, ordered subtree, `search` returns exactly the lookup of the key in the subtree's entries. |
| BPlusTree.SearchTree | b+tree.ts:604-620 | In a tree meeting the invariant, `search` from the root is lookup in the tree's entries. |
| BPlusTree.SearchNodeForInsertion | b+tree.ts:302-313 | The descent ends in a leaf. It extends the parent stack and records, at each parent, the search position of the key. Plugging the leaf back into the stack gives the tree it started from. The stack grows by height minus one parents. |
| BPlusTree.SearchNodeForDeletion | b+tree.ts:316-327 | The iterative descent of deletion reaches the same leaf and the same path as `search_node_for_insertion`, and the path rebuilds the root. |
| BPlusInsert.ShiftInsert | b+tree.ts:243-251 | The make-room loop (push, shift right from the end down to the position, write) leaves the array with `x` spliced in at the position. |
| BPlusInsert.InsertIntoLeafNode | b+tree.ts:257-271 | The leaf grows by one key and one value. On increasing keys, its entries become the ordered-map insertion of the new entry. A fresh key keeps the keys increasing. |
| BPlusInsert.InsertIntoLeafNodeLoop | b+tree.ts:257-271 | The source's two shifting loops give the same leaf as `InsertIntoLeafNode`. |
| BPlusInsert.SpliceAtSearch | b+tree.ts:257-271 | Splicing at the search position of increasing keys is the ordered-map insertion, and for a fresh key it keeps the keys increasing. |
| BPlusInsert.SplitEmUp | b+tree.ts:129-187 | The split keeps the node's kind for both halves, and both halves are shaped. |
| BPlusInsert.SplitHalves | b+tree.ts:131-171 | A leaf's halves hold its keys and values end to end, and the pivot is the left half's last key. An internal node's halves hold its keys around the pivot, which moves up, and its children end to end. |
| BPlusInsert.InsertIntoInternalNode | b+tree.ts:238-254 | The parent gains one key and one child. On increasing keys, a fresh separator keeps the keys increasing. |
| BPlusInsert.InsertIntoInternalNodeAt | b+tree.ts:238-254 | At the insertion point, the separator is spliced into the keys, and the split child is replaced by its two halves. |
| BPlusInsert.InsertIntoInternalNodeLoop | b+tree.ts:238-254 | The source's shifting loop and `splice` give the same node as `InsertIntoInternalNode`. |
| BPlusInsert.Insert | b+tree.ts:105-121 | `insert` keeps the configuration, and the height grows by at most one. |
| BPlusInsert.BalanceIsClimb | b+tree.ts:192-233 | `balance` over the parent stack is the recursive climb followed by the root step. |
| BPlusInsert.InsertIsInsertRec | b+tree.ts:105-121 | `insert` (descend, insert in the leaf, balance up) equals the recursive insertion followed by the root step. |
| BPlusInsertProof.SplitSized | b+tree.ts:158-170 | Both halves of a node one key over its capacity hold at least their kind's minimum and at most its maximum. This is what the source's asserts after the split check. |
| BPlusInsertProof.SplitEntries | b+tree.ts:129-187 | The entries of the two halves, end to end, are the entries of the split node. |
| BPlusInsertProof.SplitOrdered | b+tree.ts:129-187 | The left half lies within the node's lower bound and the pivot. The right half lies above the pivot within the node's upper bound. |
| BPlusInsertProof.InsertRecCorrect | b+tree.ts:192-233 | Inserting a fresh key into a subtree meeting its part of the invariant gives a subtree of the same height and bounds, with exactly the new entry added. The result is within size, or one key over if it is pending a split. |
| BPlusInsertProof.NewRootCorrect | b+tree.ts:218-228 | A new root over the halves of a split root meets the invariant one level higher and holds the same entries. |
| BPlusInsertProof.InsertCorrect | b+tree.ts:105-121 | Inserting a fresh key into a tree meeting the invariant gives a tree meeting it, with exactly the new entry added in key order. |
| BPlusInsertProof.InsertThenSearch | b+tree.ts:105-121 | After inserting a fresh key, `search` finds the new value under it and, under every other key, what it found before. |
| BPlusDelete.DeleteFromLeafNode | b+tree.ts:588-601 | A successful deletion leaves a leaf with one key and one value fewer. |
| BPlusDelete.DeleteFromLeafNodeSpec | b+tree.ts:588-601 | On sorted keys, the deletion succeeds exactly when the key is present. On increasing keys, it removes exactly that key's entry and keeps the keys increasing. |
| BPlusDelete.BalanceNode | b+tree.ts:515-537 | An empty child changes nothing, and no separator other than the two around the child changes. A left separator that is not below the child's first key becomes the left sibling's last key. A right separator below the child's last key becomes that key. Either one is otherwise kept. |
| BPlusDelete.Steal | b+tree.ts:354-413 | A steal happens exactly when the left sibling, or failing that the right sibling, can lend. The parent keeps its key count. Only the separator between the child and the lending sibling changes, and no child other than those two. |
| BPlusDelete.Merge | b+tree.ts:424-505 | A merge succeeds exactly when the parent has two children or more; otherwise it is the source's error. The parent loses one key. |
| BPlusDelete.Join | b+tree.ts:424-505 | Leaves are joined end to end. Internal nodes are joined with the separator pulled down between them, so the key count is the sum, plus one for internal nodes. |
| BPlusDelete.DeleteKey | b+tree.ts:330-350 | `delete_key` keeps the configuration, and the height shrinks by at most one. |
| BPlusDelete.BalanceDeletionIsClimb | b+tree.ts:541-586 | `balance_deletion` over the parent stack is the repair of the child followed by the recursive climb and the root step. |
| BPlusDelete.DeleteMissing | b+tree.ts:330-336 | `delete_key` returns `false` and leaves the tree unchanged exactly when `search` finds nothing. |
| BPlusDelete.DeleteKeyIsDeleteRec | b+tree.ts:330-350 | `delete_key` equals the recursive deletion followed by the root step. It returns `undefined` when the key was present and `false` when it was not. |
| BPlusDeleteProof.TakeLastCorrect | b+tree.ts:360-383 | A steal from the left sibling keeps both nodes ordered around the new separator. The two nodes keep their entries between them. |
| BPlusDeleteProof.TakeFirstCorrect | b+tree.ts:386-408 | A steal from the right sibling keeps both nodes ordered around the new separator. The two nodes keep their entries between them. |
| BPlusDeleteProof.JoinCorrect | b+tree.ts:424-505 | Joining two ordered siblings around their separator gives one well-formed, ordered node of the same height holding both nodes' entries. |
| BPlusDeleteProof.TakeLastSized | b+tree.ts:360-383 | A sibling that can lend, stolen from by a child one under its minimum, leaves both within their bounds. |
| BPlusDeleteProof.JoinSized | b+tree.ts:424-505 | A child one under its minimum, joined with a sibling at its minimum, fits in one node. |
| BPlusDeleteProof.BalanceNodeOrdered | b+tree.ts:515-537 | In a node already in search-tree order, `balance_node` changes no separator. |
| BPlusDeleteProof.RepairChildCorrect | b+tree.ts:547-562 | Repairing a child that is at most one key short gives a parent in search-tree order, with the same height and entries. The parent is at most one key short of its own minimum. After a steal, the parent is within its bounds. |
| BPlusDeleteProof.DeleteRecCorrect | b+tree.ts:541-586 | Deleting a key from a subtree meeting its part of the invariant gives a subtree of the same height and bounds, with exactly that key's entry removed. The result is at most one key short of its minimum. |
| BPlusDeleteProof.FinishDeleteCorrect | b+tree.ts:564-578 | At the root, a root left without keys is replaced by its only child, one level lower. The result meets the invariant. |
| BPlusDeleteSpec.DeleteCorrect | b+tree.ts:330-350 | On a tree meeting the invariant, `delete_key` never reaches `merge`'s error. The result meets the invariant, has the same configuration and holds the entries with the key removed. It returns `false` exactly when the key was absent. |
| BPlusDeleteSpec.DeleteThenSearch | b+tree.ts:330-350 | After `delete_key`, `search` finds nothing under the deleted key and, under every other key, what it found before. |
| BPlusDeleteSpec.DeleteAll | b+tree.ts:330-350 | Deleting a sequence of keys keeps the invariant and the configuration. The entries left are exactly the old entries whose keys were not deleted. |
| BPlusDeleteSpec.DeleteAllEmpties | b+tree.ts:564-578 | Deleting every key of a tree leaves the empty leaf root of height 1. |
| BPlusLevels.LevelPlug | b+tree.ts:174-185 | A node plugged in at the bottom of a path has every level of its own between the same nodes of the tree's level, whatever the node is. |
| BPlusLevels.SiblingsAreNeighbours | b+tree.ts:354-413 | In the chain of a level, a child's neighbours are its parent's previous and next children, when it has them. So after the index checks of `steal`, `merge` and `balance_node`, `childNode.left` and `childNode.right` are the siblings the model uses. |
| BPlusLevels.SplitChain | b+tree.ts:174-185 | When `balance` puts a split child's pivot and halves into the parent at the child's place, the two halves replace the node in its level's chain between the same neighbours. This is the relinking of `split_em_up`. No deeper level changes, and the levels above keep their length. |
| BPlusLevels.NewRootChain | b+tree.ts:218-228 | A new root over a split root has the two halves as its level 1. Every deeper level is the old root's. |
| BPlusLevels.StealChain | b+tree.ts:354-413 | After a steal, the two siblings keep their places in the chain, and no other node of it and no deeper level changes. The levels above keep their length. This is why `steal` relinks nothing. |
| BPlusLevels.MergeChain | b+tree.ts:424-505 | After a merge, the joined node replaces the two siblings in the chain between the same neighbours. This is the relinking of `merge`. No deeper level changes, which matches the source leaving the merged internal nodes' children linked as they were. The levels above keep their length. |
| BPlusLevels.CollapseChain | b+tree.ts:564-575 | When the empty root's only child becomes the root, every level moves up by one unchanged. |
| BPlusValidate.InvValidates | b+tree.ts:665-772 | Every tree meeting the invariant passes `validate_tree`, both as written and with the corrected metadata check. |
| BPlusValidate.ValidatedSized | b+tree.ts:721-766 | A tree passing `validate_tree` has every node's key count within its kind's bounds. |
| BPlusValidate.UnevenTreePasses | b+tree.ts:770 | A tree whose leaves are at different depths passes `validate_tree` but does not meet the invariant. |
| BPlusValidate.RepeatedKeyPasses | b+tree.ts:718 | A leaf holding the same key twice passes `validate_tree` but does not meet the invariant. |
| BPlusValidate.MetadataAsWrittenMisses | b+tree.ts:667-670 | The metadata check as written passes an inner capacity of 1, which `init_btree` refuses. |
| BPlusValidate.MetadataMatchesInit | b+tree.ts:667-683 | The corrected metadata check passes only capacities that `init_btree` accepts. |
| BPlusFindings.SplitsAsWrittenMisses | b+tree.ts:209-213 | The split test as written splits only nodes that overflow. It misses exactly the leaves over the leaf capacity but within the inner one, and agrees whenever the leaf capacity is at least the inner one. |
| BPlusFindings.InsertAsWrittenAgrees | b+tree.ts:105-121 | With the leaf capacity at least the inner one, `insert` as written is the corrected `insert`. |
| BPlusFindings.OverfullLeafKept | b+tree.ts:209-213 | With inner capacity 3 and leaf capacity 2, `insert` as written keeps a three-key leaf, which breaks the invariant. The corrected `insert` splits it. |
| BPlusFindings.EqualCapacitiesAgree | b+tree.ts:507-511 | With equal capacities, `is_node_balanced` and the lending test as written are the corrected tests. |
| BPlusFindings.UnderfullLeafKept | b+tree.ts:507-511 | With inner capacity 2 and leaf capacity 4, deleting from a two-key leaf leaves a one-key leaf that `is_node_balanced` as written accepts. That tree breaks the invariant. |
| BPlusFindings.LeafLendsBelowMinimum | b+tree.ts:386 | With inner capacity 2 and leaf capacity 4, an emptied leaf is unbalanced even by the test as written. Its two-key right sibling lends by the test as written and drops under the leaf minimum. |
| BPlusFindings.LeafMergeOverflows | b+tree.ts:386 | With inner capacity 9 and leaf capacity 4, a four-key leaf cannot lend by the test as written, so the merge gives a five-key leaf, over capacity. |
| ClassicBTree.SearchNode | btree.ts:201-213 | A hit names a node and an index holding the key. |
| ClassicBTree.SearchNodeForInsertion | btree.ts:187-199 | The descent stops at an empty root or a leaf. Plugging the node back into the parent stack gives the tree it started from, and each recorded parent took the key's search position. |
| ClassicBTree.InsertLeafNode | btree.ts:144-158 | The leaf grows by one key and one value. On increasing keys, its entries become the ordered-map insertion of the new entry. A fresh key keeps the keys increasing. |
| ClassicBTree.InsertLeafNodeLoop | btree.ts:144-158 | The source's shifting loop gives the same leaf as `InsertLeafNode`. |
| ClassicBTree.InsertChildNode | btree.ts:98-141 | The three branches (first child, last child, middle) all splice the key and value in at the search position and replace the split child by its two halves. |
| ClassicBTree.SplitParts | btree.ts:61-82 | The halves and the pivot, put back together, give the node: keys and values in order around the pivot, children end to end. A four-key node leaves two keys on the left and one on the right. |
| ClassicBTree.CopyRange | btree.ts:71-80 | A copying loop of the split yields exactly the slice of keys and values it ranges over. |
| ClassicBTree.SplitNodeLoop | btree.ts:61-82 | The source's two copying loops and child slices give the split `SplitNode` defines. |
| ClassicBTree.BalanceStops | btree.ts:59 | A node within capacity is left as it is: no new root, and the tree is the parent stack with the node plugged in. |
| ClassicBTree.BalanceIsClimb | btree.ts:42-95 | `balance` over the parent stack is the recursive climb followed by the root step. |
| ClassicBTree.InsertIsInsertRec | btree.ts:26-39 | `insert` (the new root if `balance` made one, else the old root) equals the recursive insertion followed by the root step. |
| ClassicBTreeProof.SearchIsLookup | btree.ts:201-213 | In a well-formed, ordered subtree, the value read from `search_node`'s result is the lookup of the key in the subtree's entries. Nothing is found exactly when the key is absent. |
| ClassicBTreeProof.SplitEntries | btree.ts:61-82 | The left half's entries, then the pivot entry, then the right half's entries are the entries of the split node. |
| ClassicBTreeProof.SplitOrdered | btree.ts:61-82 | The halves are ordered on either side of the pivot, and the pivot lies within the node's bounds. |
| ClassicBTreeProof.SplitSized | btree.ts:61-82 | Both halves of a node one key over capacity hold at least one key and at most `MaxKeys`. |
| ClassicBTreeProof.SplitLands | btree.ts:98-141 | Inserting a split child's pivot into the parent lands it at that child's position: the parent becomes the splice of the two halves around the pivot. |
| ClassicBTreeProof.InsertRecCorrect | btree.ts:42-95 | Inserting a fresh key into a subtree meeting its part of the invariant gives a subtree of the same height and bounds, with exactly the new entry added. The result is within capacity, or one key over if it is pending a split. |
| ClassicBTreeProof.NewRootInv | btree.ts:84-89 | A new root over the halves of a root one key over capacity meets the invariant one level higher. |
| ClassicBTreeProof.NewRootEntries | btree.ts:84-89 | A new root over the halves of a split node holds exactly that node's entries. |
| ClassicBTreeProof.FinishCorrect | btree.ts:84-89 | The root step gives a tree meeting the invariant. It is one level higher exactly when a new root was made, and it holds the new entry. |
| ClassicBTreeProof.InsertCorrect | btree.ts:26-39 | Inserting a fresh key into a tree meeting the invariant gives a tree meeting it at the same or the next height, with exactly the new entry added in key order. |
| ClassicBTreeProof.InsertThenSearch | btree.ts:26-39 | After inserting a fresh key, `search_node` finds the new value under it and, under every other key, what it found before. |
| ClassicBTreeProof.InsertAll | btree.ts:220-240 | Inserting distinct entries one after the other into an empty root gives a tree meeting the invariant that maps every key as the entries do. |
| ClassicBTreeProof.InsertAllSearch | btree.ts:220-240 | In that tree, `search_node` finds each inserted key's value, which is the check the test makes after every insertion. A key never inserted finds nothing. |

## Left out

- **Sibling links.** The `left`/`right` links of b+tree.ts are not stored as fields. Module `BPlusLevels` derives each level's chain from the tree and shows how split, new root, steal, merge and root collapse change the chains. The field assignments themselves are not modelled, and neither is the null link at each end of a level. SplitChain assumes that the pivot lands at the split child's place in the parent, as it does in a parent in search-tree order (BPlusInsertProof.PivotPlace).
- BPlusDelete.BalanceNode: when the left sibling has no keys, the source writes `undefined` into the left separator (b+tree.ts:526-527). Integer separators cannot hold it, so the model keeps the old separator. Under the invariant no non-root node is empty, and BPlusDeleteProof.BalanceNodeOrdered shows that `balance_node` changes nothing in an ordered node.
- **Repeated keys.** Inserting a key already present is modelled, since the operations accept any key. Every correctness lemma, though, asks for a key not yet in the tree, because the source leaves the order among equal keys undefined.
- **`console.assert`.** The assertion override and the asserts inside the operations are left out. The properties those asserts check (split sizes, leaf found) are proved instead.
- **Output, timing and tests.** `print_tree`, the timing code and the random test drivers are left out. They are output, timing and randomness; `InsertAll` states what btree.ts's test checks, for every sequence of distinct keys.
- **Deletion in btree.ts.** Its `delete_key` is an empty placeholder and is not modelled.
- **Object identity.** `validate_tree` tells the root apart by object identity (`Object.is`). In the model, the root is the node at the top of the walk.
- **The order of `validate_tree`'s walk.** The breadth-first walk is a recursion over the tree, and its last dequeued level is the tree's depth. Each check is about one queue record, so the order does not change the verdict. Only the first failing assertion's message would differ.
- **Values.** They are a type parameter `V`. Integer keys are unbounded, which matches JavaScript numbers for the keys the tests use.
- **In-place updates.** Every operation returns the new tree; `Plug` rebuilds the ancestors of a changed node. `insert` of b+tree.ts updates the tree record in place, and the model returns the updated record. `insert` of btree.ts returns the root, as the source does.
- **`create_internal_node`, `create_leaf_node` and `create_btree_node`.** They are datatype constructors here.
- **`getParentKeyIndexWhenSiblingIsOnLeft`/`…OnRight`.** Their values (`childIdx - 1` and `childIdx`) are written inline.
- **Split sizes.** BPlusInsertProof.SplitSized and ClassicBTreeProof.SplitSized are stated only for a node exactly one key over capacity. Only such nodes are ever split.

## Findings

Three capacity tests in b+tree.ts compare a leaf against the inner-node bound, and `validate_tree` checks the leaf maximum twice and the inner maximum not at all. The tests of the repository use equal leaf and inner capacities. With equal capacities, each test as written agrees with the corrected one (BPlusFindings.InsertAsWrittenAgrees, BPlusFindings.EqualCapacitiesAgree). The rest of the model uses the corrected tests.

| source | as written | input that shows it | evidently intended | confidence | as-written member | corrected member |
|---|---|---|---|---|---|---|
| b+tree.ts:209-213 | `balance` keeps any node with at most the inner maximum of keys, leaves included | inner capacity 3, leaf capacity 2: insert 3 into the leaf root [1, 2] | a leaf splits when it has more than the leaf maximum | not executed | BPlusFindings.SplitsAsWritten, BPlusFindings.OverfullLeafKept | BPlusInsert.Overflows, BPlusInsertProof.InsertCorrect |
| b+tree.ts:507-511 | `is_node_balanced` accepts any node with at least the inner minimum, leaves included | inner capacity 2, leaf capacity 4: delete 1 from the leaf [1, 2] under root [2] | a leaf is balanced only at the leaf minimum | not executed | BPlusFindings.IsNodeBalancedAsWritten, BPlusFindings.UnderfullLeafKept | BPlusDelete.IsNodeBalanced, BPlusDeleteSpec.DeleteCorrect |
| b+tree.ts:359, b+tree.ts:386 | `steal` lets any sibling lend when it has more than the inner minimum, leaves included | inner capacity 2, leaf capacity 4: the leaf [3, 4] lends to its emptied left sibling; inner capacity 9, leaf capacity 4: the leaf [1, 2, 3, 4] cannot lend and the merge overflows | a sibling lends when it has more than its own kind's minimum | not executed | BPlusFindings.CanLendAsWritten, BPlusFindings.LeafLendsBelowMinimum, BPlusFindings.LeafMergeOverflows | BPlusDelete.CanLend, BPlusDeleteProof.TakeLastSized |
| b+tree.ts:667-670 | the metadata check tests `max_keys_per_leaf_node >= 2` twice and never the inner maximum | a tree record with inner capacity 1 | both maximums at least 2, as `init_btree` demands | not executed | BPlusValidate.MetadataAsWritten, BPlusValidate.MetadataAsWrittenMisses | BPlusValidate.Metadata, BPlusValidate.MetadataMatchesInit |
