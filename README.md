# Binary search trees and a chained hash table, modelled in Dafny

This project models a small C library of textbook data structures and proves
properties of the model:

- a binary search tree keyed by `char` with `int` values, in two variants that
  must behave identically: an iterative one that walks `bst_node_t **` slots
  and keeps explicit stacks (`btree/iter/btree.c`), and a recursive one
  (`btree/rec/btree.c`); each offers `init`, `search`, `insert`,
  `replace_by_rightmost`, `delete`, `dispose` and the three traversals into an
  item collector;
- two applications of the tree (`btree/exa/exa.c`): `letter_count`, which
  counts letters (case-insensitively), spaces and every other character
  (under `'_'`) of a NUL-terminated string, and `bst_balance`, which rebuilds a
  tree from its inorder items by inserting the middle item of every range
  first;
- a hash table with separate chaining, insertion at the head of a bucket and
  keys compared by pointer (`hashtable/hashtable.c`).

Modules:

- `Wrappers` (`wrappers.dfy`): `Option`.
- `BTree` (`btree.dfy`): the tree as a value (`Nil | Node(left, key, value,
  right)`), its keys, its content as a map, the search-tree and balance
  predicates, the lookup `Find` that follows the comparison path, the three
  traversal orders as functions, and the slot context (`Frame`, `Plug`) that
  stands for a `bst_node_t **` pointing inside the tree.
- `BTreeUpdate` (`btree_update.dfy`): insertion, rightmost removal and
  deletion as functions, both as the code does them and corrected, with their
  content lemmas.
- `BTreeIter` (`btree_iter.dfy`) and `BTreeRec` (`btree_rec.dfy`): the two
  variants as methods over the tree value. The iterative methods keep the C
  loops, the slot pointer and the stacks; the recursive ones keep the recursion.
  Each is proved against the functions of `BTreeUpdate` and `BTree`, so the two
  variants agree wherever both ensure the same function of their inputs (search,
  insert, traversals, and delete on a search tree).
- `BTreeExa` (`btree_exa.dfy`): character classes, `letter_count` against a
  counting function on the string, and `balance`/`bst_balance` against a
  recursive construction whose shape, inorder and balance are proved.
- `HashTable` (`hashtable.dfy`): keys and items as objects, the table as a
  class whose bucket array holds each chain as a sequence of item references;
  items' values are updated in place; a ghost set records freed items.
- `WorkedCases` (`worked_cases.dfy`): the documented `letter_count` example,
  a small tree with its traversals, the inputs behind the two findings, and
  pointer-identity keys.

## Model

| member | source | states |
|---|---|---|
| BTree.Find | btree/rec/btree.c:33-48 | the search: the value of the first node on the comparison path whose key is the key, going right past smaller keys and left past greater ones, or none at an empty slot |
| BTree.FindOnlyKeys | btree/iter/btree.c:35-53 | whatever the comparison path finds is a key of the tree |
| BTree.FindIsLookup | btree/rec/btree.c:33-48 | in a search tree the comparison path finds a key exactly when it is in the tree, with the value the tree's content holds for it |
| BTree.TraversalsArePermutations | btree/rec/btree.c:189-234 | preorder, inorder and postorder list the same items, each node once |
| BTree.InorderKeys | btree/rec/btree.c:207-216 | the keys listed inorder are exactly the tree's keys |
| BTree.BstIffInorderIncreasing | btree/iter/btree.c:272-289 | a tree is a search tree if and only if its inorder keys strictly increase |
| BTree.InorderDescribesMap | btree/exa/exa.c:115-123 | a search tree's content is the map its inorder items spell |
| BTreeUpdate.Inserted | btree/rec/btree.c:61-82 | insertion: overwrite the value of the node with the key on the comparison path, or hang a new leaf in the empty slot where the path ends |
| BTreeUpdate.CutRightmost | btree/rec/btree.c:97-110 | `replace_by_rightmost` as written: the slot of the rightmost node becomes empty, so the tree shrinks |
| BTreeUpdate.RemoveRightmost | btree/rec/btree.c:84-96 | the removal the comment describes: the rightmost node, which need not be a leaf, gives its slot to its left subtree, so the tree shrinks |
| BTreeUpdate.RemoveNode | btree/rec/btree.c:131-150 | the node found is rewritten by shape: a leaf becomes empty, a single child takes its place, two children make it take the key and value of its left subtree's rightmost node, removed as written; the tree shrinks |
| BTreeUpdate.Deleted | btree/rec/btree.c:125-158 | the recursive deletion: descend by comparison and rewrite the node with the key, or change nothing at an empty slot |
| BTreeUpdate.DeletedIter | btree/iter/btree.c:133-165 | the iterative deletion: the same descent, but after rewriting a slot the loop examines that slot again |
| BTreeUpdate.DeletedFixed | btree/rec/btree.c:112-124 | the deletion the comment describes, with the two-child case promoting the rightmost node's left subtree |
| BTreeUpdate.InsertedKeys | btree/rec/btree.c:61-82 | insertion adds exactly the key; the size grows by one exactly when the key was absent |
| BTreeUpdate.DescentSplits | btree/iter/btree.c:69-82 | the slot walk of insert splits the tree into the path taken and the slot reached; that slot holds the key's node or is empty exactly as the lookup says |
| BTreeUpdate.InsertedRewritesSlot | btree/iter/btree.c:66-92 | insertion rewrites only the slot the walk reached: a new leaf in an empty slot, the same node with the new value otherwise |
| BTreeUpdate.InsertedContent | btree/rec/btree.c:50-82 | insertion keeps the search-tree property and updates the content map at the key |
| BTreeUpdate.RightmostSlot | btree/iter/btree.c:107-118 | the walk follows right children only; the removal as written empties the last slot of that spine and the corrected one puts the rightmost node's left child there |
| BTreeUpdate.RightmostIsMax | btree/rec/btree.c:97-106 | in a search tree the rightmost item has the greatest key |
| BTreeUpdate.CutRightmostContent | btree/rec/btree.c:97-110 | as written, the removal keeps the search-tree property but loses the rightmost key and every key of the rightmost node's left subtree |
| BTreeUpdate.CutRightmostLeaf | btree/rec/btree.c:97-110 | when the rightmost node has no left child, the removal drops exactly the rightmost key |
| BTreeUpdate.RemoveRightmostContent | btree/rec/btree.c:84-96 | the corrected removal (promoting the rightmost node's left child) keeps the search-tree property and drops exactly the rightmost key |
| BTreeUpdate.DeletedRewritesSlot | btree/iter/btree.c:133-165 | deletion rewrites only the slot the comparison walk reaches |
| BTreeUpdate.DeleteAbsentUnchanged | btree/rec/btree.c:112-128 | deleting a key the walk does not find leaves the tree unchanged |
| BTreeUpdate.RemoveNodeContent | btree/rec/btree.c:131-150 | removing the node found keeps the search-tree property and removes its key and the dropped keys, which are the predecessor's left subtree in the two-child case and none otherwise |
| BTreeUpdate.TwoChildCase | btree/rec/btree.c:137-139 | the two-child case, promoting the left subtree's rightmost item into the node, keeps the search-tree property and loses the node's key and the predecessor's left subtree |
| BTreeUpdate.TwoChildCaseFixed | btree/rec/btree.c:116-118 | with the corrected removal, the two-child case drops exactly the deleted key |
| BTreeUpdate.OnlyChildCase | btree/rec/btree.c:140-150 | a node with at most one subtree is replaced by that subtree, keeping the search-tree property and dropping exactly its key |
| BTreeUpdate.DeletedContent | btree/rec/btree.c:125-158 | on a search tree, deletion keeps the property and its content is the old content without the key and without the keys of the dropped subtree |
| BTreeUpdate.DeletedKeysShrink | btree/rec/btree.c:125-158 | on a search tree, deletion never adds keys and always removes the key |
| BTreeUpdate.DeletedKeysExact | btree/rec/btree.c:112-128 | deletion removes exactly the key if and only if it does not reach a two-child node whose predecessor has a left child |
| BTreeUpdate.DeletedIterOnBst | btree/iter/btree.c:133-165 | on a search tree the iterative loop, which goes on walking after a removal, ends in the same tree as the recursive deletion |
| BTreeUpdate.DeletedFixedContent | btree/rec/btree.c:112-124 | the corrected deletion keeps the search-tree property and its content is the old content without the key |
| BTreeIter.Init | btree/iter/btree.c:22-24 | the tree becomes empty |
| BTreeIter.Search | btree/iter/btree.c:35-53 | found exactly when the walk finds the key, its value then, the caller's value left alone otherwise; on a search tree, found exactly when the key is present |
| BTreeIter.Insert | btree/iter/btree.c:66-92 | the result is the insertion function; keys gain the key; on a search tree the property holds and the content is updated |
| BTreeIter.ReplaceByRightmost | btree/iter/btree.c:107-118 | returns the rightmost item and the subtree with that node cut; on a search tree the item's key is the greatest |
| BTreeIter.Delete | btree/iter/btree.c:133-165 | the result is the iterative deletion function; an absent key changes nothing; on a search tree it equals the recursive deletion and stays a search tree |
| BTreeIter.Dispose | btree/iter/btree.c:177-204 | the tree becomes empty and every node is released once, in preorder |
| BTreeIter.LeftmostPreorder | btree/iter/btree.c:215-221 | emits the items of the left chain and pushes the chain's nodes, each of which still owes the preorder of its right subtree; the emitted items followed by what the stack owes stay the same |
| BTreeIter.Preorder | btree/iter/btree.c:231-246 | the collector gains the tree's items in preorder |
| BTreeIter.LeftmostInorder | btree/iter/btree.c:257-262 | pushes the left chain, keeping emitted plus pending inorder unchanged |
| BTreeIter.Inorder | btree/iter/btree.c:272-289 | the collector gains the tree's items in inorder |
| BTreeIter.LeftmostPostorder | btree/iter/btree.c:301-308 | pushes the left chain, each marked as a first visit, keeping pending postorder unchanged and counting the remaining loop steps |
| BTreeIter.Postorder | btree/iter/btree.c:318-345 | the collector gains the tree's items in postorder |
| BTreeRec.Init | btree/rec/btree.c:20-22 | the tree becomes empty |
| BTreeRec.Search | btree/rec/btree.c:33-48 | as the iterative search |
| BTreeRec.Insert | btree/rec/btree.c:61-82 | the result is the insertion function; keys gain the key; on a search tree the property holds and the content is updated |
| BTreeRec.ReplaceByRightmost | btree/rec/btree.c:97-110 | returns the rightmost item and the subtree with that node cut; on a search tree the item's key is the greatest |
| BTreeRec.Delete | btree/rec/btree.c:125-158 | the result is the recursive deletion function; an absent key changes nothing; a search tree stays one |
| BTreeRec.Dispose | btree/rec/btree.c:169-180 | the tree becomes empty and every node is released once, in postorder |
| BTreeRec.Preorder | btree/rec/btree.c:189-198 | the collector gains the tree's items in preorder |
| BTreeRec.Inorder | btree/rec/btree.c:207-216 | the collector gains the tree's items in inorder |
| BTreeRec.Postorder | btree/rec/btree.c:225-234 | the collector gains the tree's items in postorder |
| BTreeExa.IsAlpha | btree/exa/exa.c:18-20 | a letter is a character in `a`..`z` or `A`..`Z` |
| BTreeExa.ToLower | btree/exa/exa.c:25-29 | upper-case letters move by `'a' - 'A'`, everything else is kept |
| BTreeExa.Normalize | btree/exa/exa.c:64-68 | a character is counted under its lower-case letter, under the space, or otherwise under `'_'` |
| BTreeExa.Counts | btree/exa/exa.c:70-75 | the counts of a string: each character, one after another, adds one to its class's count or starts it at one |
| BTreeExa.ToLowerFacts | btree/exa/exa.c:18-29 | lower-casing maps exactly the upper-case letters to the matching lower-case ones, keeps letters letters, is idempotent |
| BTreeExa.NormalizeFacts | btree/exa/exa.c:64-68 | every character falls into one class: its lower-case letter, the space, or `'_'` |
| BTreeExa.NulIndex | btree/exa/exa.c:62-63 | the loop stops at the first NUL, or at the end of the string if there is none |
| BTreeExa.CountsAreOccurrences | btree/exa/exa.c:38-52 | the counts hold exactly the classes that occur, each with its number of occurrences |
| BTreeExa.InsertedSum | btree/exa/exa.c:70-75 | inserting a key replaces its old value in the sum of the values |
| BTreeExa.LetterCount | btree/exa/exa.c:56-77 | the result is a search tree whose content is the counts of the string before its first NUL: only class keys, a key for every class that occurs, values the numbers of occurrences, summing to the length counted |
| BTreeExa.Mid | btree/exa/exa.c:90 | the centre lies in the range |
| BTreeExa.MidHalves | btree/exa/exa.c:90-95 | the centre is C's `(start + end) / 2`; the range below it holds half the items rounded down, the range above it the rest but the centre |
| BTreeExa.OrderIsPermutation | btree/exa/exa.c:84-96 | the insertion order of `balance` is a permutation of the range |
| BTreeExa.Balance | btree/exa/exa.c:84-96 | the result is the tree with the range inserted in that order; from an empty tree and increasing items it is the middle-first construction |
| BTreeExa.Order | btree/exa/exa.c:84-96 | the order in which `balance` inserts a range: its centre first, then the left range, then the right range |
| BTreeExa.InsertAllOrder | btree/exa/exa.c:90-95 | inserting the range in `balance` order is inserting the centre, then the left range, then the right range |
| BTreeExa.BuildByInsertion | btree/exa/exa.c:84-96 | inserting increasing items in `balance` order into an empty tree builds the middle-first tree |
| BTreeExa.BuildInorder | btree/exa/exa.c:108-127 | the middle-first tree lists exactly the range's items inorder |
| BTreeExa.HalvesBalanced | btree/exa/exa.c:101 | heights of ranges split at the centre differ by at most one |
| BTreeExa.MidShapedBalanced | btree/exa/exa.c:101 | a tree split at the centre at every node has height `H(n)` for its `n` nodes and is balanced |
| BTreeExa.MinimalHeight | btree/exa/exa.c:101 | no tree of `n` nodes is lower than `H(n)`: a tree of height `h` holds fewer than `2^h` nodes |
| BTreeExa.BuildBalanced | btree/exa/exa.c:98-123 | the middle-first tree has height `H(n)` for its `n` items, which by `MinimalHeight` is the least any tree of `n` nodes can have, and is balanced in the sense of depth differences at most one |
| BTreeExa.BstBalance | btree/exa/exa.c:108-131 | the result is the inorder items inserted in `balance` order; for a search tree it is balanced, a search tree, with the same inorder items and the same content |
| BTreeExa.RebuiltTree | btree/exa/exa.c:115-127 | rebuilding a search tree's inorder items gives a balanced search tree with the same content |
| HashTable.Hash | hashtable/hashtable.c:22-29 | the hash is a bucket index below the table size |
| HashTable.GetHash | hashtable/hashtable.c:22-29 | the loop computes one plus the sum of the key's character codes, modulo the size |
| HashTable.FirstIndex | hashtable/hashtable.c:51-53 | the index of the first item with the key pointer, every item before it having another key |
| HashTable.FirstIndexFinds | hashtable/hashtable.c:46-58 | the search stops inside the chain if and only if some item has the key pointer |
| HashTable.Unlinked | hashtable/hashtable.c:126-127 | the chain without one item keeps the others in order |
| HashTable.UnlinkedKeepsOthers | hashtable/hashtable.c:119-127 | unlinking one key's item leaves every other key's first item as it was |
| HashTable.UnlinkedDropsKey | hashtable/hashtable.c:119-127 | in a chain without repeated keys, unlinking the key's item leaves no item with that key |
| HashTable.PrependKeeps | hashtable/hashtable.c:76-86 | putting a new item of an absent key at the head keeps the chain's items in their bucket, keys unique and no freed item reachable |
| HashTable.PrependValues | hashtable/hashtable.c:76-86 | after putting an item at the head, its key finds its value and every other key finds what it found before |
| HashTable.UnlinkKeeps | hashtable/hashtable.c:126-129 | unlinking keeps the chain placed with unique keys, and the unlinked item is no longer reachable once freed |
| HashTable.UnlinkValues | hashtable/hashtable.c:126-129 | after unlinking, the key finds nothing and every other key finds what it found before |
| HashTable.Table.constructor | hashtable/hashtable.c:34-38 | a fresh table with every bucket empty and nothing freed |
| HashTable.Table.Init | hashtable/hashtable.c:34-38 | every one of the array's buckets becomes empty |
| HashTable.Table.Search | hashtable/hashtable.c:46-58 | returns the first item of the key's bucket with the key pointer, or null |
| HashTable.Table.Insert | hashtable/hashtable.c:68-87 | the key then finds the value; an existing item has its value overwritten and nothing else changes; otherwise a fresh item is put at the head of the key's bucket; every other key finds what it found before |
| HashTable.Table.Get | hashtable/hashtable.c:97-103 | returns the value the search finds, or none |
| HashTable.Table.DeleteAsWritten | hashtable/hashtable.c:113-132 | an item found after the head is unlinked and freed; a head item is freed but the bucket still holds it, so the table is no longer sound; other buckets are unchanged |
| HashTable.Table.Delete | hashtable/hashtable.c:113-132 | the found item is unlinked and freed; the key then finds nothing; every other key finds what it found before; soundness is kept |
| HashTable.Table.DeleteAll | hashtable/hashtable.c:140-152 | every bucket becomes empty and every reachable item is freed |
| WorkedCases.TraceEndsInCounts | btree/exa/exa.c:61-76 | counting step by step, one character at a time, ends in the counts of the string |
| WorkedCases.DocumentedTraceSteps | btree/exa/exa.c:45-52 | the step-by-step counts of the documented input |
| WorkedCases.DocumentedLetterCount | btree/exa/exa.c:45-52 | `"abBccc_ 123 *"` counts `a` 1, `b` 2, `c` 3, space 2 and `'_'` 5 |
| WorkedCases.SampleByInsertion | btree/rec/btree.c:61-82 | inserting 5, 3, 8, 1, 4 builds the sample search tree |
| WorkedCases.SampleTraversals | btree/rec/btree.c:189-234 | the sample tree's preorder, inorder and postorder |
| WorkedCases.DeleteRoot | btree/rec/btree.c:137-139 | deleting the sample's root promotes the greatest key of its left subtree and removes exactly the root key |
| WorkedCases.DeleteDropsPredecessorChild | btree/rec/btree.c:97-110 | after inserting c, b, d, a, deleting c as written loses a; the corrected deletion keeps it |
| WorkedCases.SameContentsDifferentKeys | hashtable/hashtable.c:52 | a key with the same characters but another pointer does not find the item |
| WorkedCases.DeleteOnlyItem | hashtable/hashtable.c:126-129 | deleting the only item as written leaves it, freed, in its bucket, still found; the corrected deletion empties the bucket |

## Left out

- `malloc` failure (`btree/iter/btree.c:86-87`, `btree/rec/btree.c:66-67`):
  allocation always succeeds.
- `free`: the trees release their nodes through a ghost sequence (`Dispose`);
  the hash table records freed items in a ghost set. Use of memory after it is
  freed is modelled only through that set: the freed item stays an ordinary
  object.
- Node identity in the trees: a tree is a value, and a `bst_node_t **` slot
  is a path into it. This is exact because no node is shared, but it does not
  model aliasing of node pointers by callers.
- The `!tree` tests on a null `bst_node_t **` (`btree/rec/btree.c:63`, `:127`):
  every tree argument is a tree, possibly empty.
- `stack.h` and the `bst_items_t` collector are not part of this model; the
  stacks and the collector are sequences, and growth of the collector's array
  is left out.
- `char` keys are ordered by code point, as unsigned; C `char` may be signed,
  which only changes the order of characters above 127.
- `is_digit` (`btree/exa/exa.c:34-36`) is never called and is left out.
- `btree/exa/exa.c` calls whichever tree variant it is linked with; the model
  uses the function semantics both variants ensure (`BTreeUpdate.Inserted`,
  `BTree.InorderOf`).
- `HashTable.GetHash`: does not model `int` overflow or negative `char`
  codes; it sums the codes as naturals. It sums every character of the key's
  `contents`, where `strlen` (`hashtable/hashtable.c:24`) stops at the first
  NUL; the two agree for keys without a NUL, the only keys a C string holds
  in full.
- A key's characters (`HashTable.Key`) never change. In C the key is a
  caller-owned `char *`; a caller who changes the string after insertion
  leaves its item in a bucket its new hash does not name.
- `BTreeExa.LetterCount`, `BTreeExa.InsertedSum`: tree values are unbounded
  integers; the 32-bit `int` overflow of `value += 1`
  (`btree/exa/exa.c:73`) and of the values' sum is not modelled.
- `HashTable.Table`: `hashtable.h` is not part of this model. `MAX_HT_SIZE` is
  the bucket array's length and `HT_SIZE` the table's `size`, at most that
  length. Values are a type parameter, standing for `float`. `HT_SIZE` is a
  global the caller may change between calls; the model fixes it per table.
- `HashTable.Table.Get`: returns the value itself, not a pointer through
  which the caller could change it.
- `BTreeRec.Delete`: on a tree that is not a search tree, the recursive and
  iterative deletions may differ (the iterative loop goes on walking after a
  removal); the model states each exactly (`Deleted`, `DeletedIter`) and proves
  them equal only on search trees.
- The comments on deletion (`btree/iter/btree.c:126`, `btree/rec/btree.c:118`)
  say that the rightmost node need not be a leaf, which implies that its left
  child is kept; the code instead empties the rightmost node's slot and loses
  that child. The model follows the code and records the difference under
  Findings.

## Findings

| source | as written | input that shows it | evidently intended | confidence | as-written member | corrected member |
|---|---|---|---|---|---|---|
| btree/iter/btree.c:116-117, btree/rec/btree.c:108-109 | `replace_by_rightmost` sets the rightmost node's slot to NULL, dropping that node's left subtree | insert c, b, d, a, then delete c: b is promoted and a disappears | the slot takes the rightmost node's left child, as the comment "need not be a leaf" (`btree/iter/btree.c:126`) implies | not executed | BTreeUpdate.CutRightmost, BTreeUpdate.Deleted (WorkedCases.DeleteDropsPredecessorChild, BTreeUpdate.CutRightmostContent) | BTreeUpdate.RemoveRightmost, BTreeUpdate.DeletedFixed (BTreeUpdate.RemoveRightmostContent, BTreeUpdate.DeletedFixedContent) |
| hashtable/hashtable.c:126-129 | when the deleted item is the head of its bucket, the item is freed but the bucket still points to it | insert one key into an empty table, then delete it: the bucket reaches a freed item and the key still finds it | the bucket takes the deleted item's successor | not executed | HashTable.Table.DeleteAsWritten (WorkedCases.DeleteOnlyItem) | HashTable.Table.Delete |
