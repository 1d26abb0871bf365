# bptree: an in-memory B+ tree over byte keys

This project models the core of the Go package `bptree`, from `bptree.go` and `iterator.go`. The package is an in-memory B+ tree that maps byte-string keys to byte-string values and keeps the keys in ascending order. The model shows that Get, Put and Delete behave as operations on one sorted map, and that the leaf-chain iterator hands out that map's entries in key order.

The parts of the model:

- **Nodes** (`nodes.dfy`): the `node` record, with:
  - `leaf`, `parent`, `keys`, `keyNum` and `pointers`;
  - a pointer that is nil, a value, or a child;
  - the leaf's last pointer slot, which links to the next leaf.

  Every node operation that loops in the source is a `method` with a `while` loop. These are `keyPosition`, `pointerPositionOf`, `insertAt`, `deleteAt`, the scan of `findLeaf` and `putIntoLeaf`, and both splits. `append` has no loop; it is a method because it fails on an internal node. Each method is proved equal to a specification function on node values (`Inserted`, `Deleted`, `Appended`, `LeafHalves`, `InternalHalves`, …). Lemmas state what those functions do to the keys, the entries and the children.
- **Keys** (`keys.dfy`): `compare` as `bytes.Compare`, which is lexicographic order on bytes, and the strict order `less`.
- **Configuration** (`config.dfy`): the `Order` option, `New`'s default order 4, `ceil` with Go's truncating `/` and `%`, and `minKeyNum = ceil(order, 2) - 1`.
- **The reference map** (`ordered_map.dfy`): a sorted sequence of entries with `Lookup`, `Insert` and `Remove`. Lemmas relate these to `map` update and removal. The tree's ghost `contents` is always such a sequence.
- **The tree** (`bptree.dfy`): class `BPTree` with the source's fields `root`, `leftmost`, `order`, `size` and `minKeyNum`. The nodes live in an arena, `nodes: seq<Node>`, indexed by `NodeId`. A Go `*node` is modelled as an index into the arena, so a node updated in place is an arena slot reassigned.
- **The invariant** (`invariant.dfy` and the `*_steps.dfy` files): the tree invariant and its step lemmas. It states:
  - every live node's key range, height, parent link and children;
  - a `Pending` split not yet put into its parent;
  - the leaf chain, whose entries, read in order, are the `contents`;
  - minimum occupancy (`Occupied`): every live node other than the root holds at least `minKeyNum` keys.

  The step lemmas prove that one step of each operation keeps the invariant. `occupancy.dfy` proves that each step keeps minimum occupancy. `tree_facts.dfy` wraps these lemmas for the class methods.
- **The iterator** (`iterator.dfy`): class `Iterator` with the source's cursor `next` and `i`, plus `ForEach`.

What is proved:

- `Put` turns `contents` into `Insert(contents, key, value)`.
- `Delete` turns `contents` into `Remove(contents, key)`, except in one case: it fails, and leaves `contents` as they were, exactly when key's leaf would fall below `minKeyNum` keys and neither adjacent sibling has a key to spare.
- `Get` returns `Lookup(contents, key)`.
- `Size` is the number of entries.
- Every step of an insert keeps the B+ tree invariant. That covers:
  - a leaf split;
  - a parent split;
  - growing a new root;
  - the cascade up the tree.
- Every step of a delete keeps the invariant, minimum occupancy included:
  - a removal that leaves the leaf at `minKeyNum` keys or more;
  - a removal from the root leaf;
  - a borrow from either sibling.
- `Next` yields the entries of `contents` one by one, in order; `ForEach` visits exactly `contents`, sorted by key.

When a B+ tree deletion leaves a leaf below the minimum and no sibling can lend, the leaf merges with a sibling. The parent loses a separator, a root left with one child is replaced by that child, and separators higher in the tree are re-derived. The code does none of these: the merge branch of `deleteAtLeafAndRebalance` is unfinished, and `Delete` leaves those steps as a TODO. The model follows the code: it models the borrow branches, and when a merge would be needed, Delete reports it as a failure (see "Left out").

## Model

| member | source | states |
|---|---|---|
| Config.Order | bptree.go:16-24 | The option is accepted exactly for orders of at least 3 and then carries that order; any other order gives the failure "order must be >= 3". |
| Config.Ceil | bptree.go:688-695 | For x >= 0 and y > 0, the result r is the least integer with x <= r*y: (r-1)*y < x <= r*y. |
| Config.CeilHalf | bptree.go:688-695 | ceil(x, 2) is (x + 1) / 2 for every x >= 0. |
| Config.SplitSizes | bptree.go:47-57 | For every accepted order, minKeyNum is at least 1 and below the leaf capacity. Both halves of a leaf split and of an internal split keep at least minKeyNum keys. |
| Keys.Compare | bptree.go:673-675 | compare is -1, 0 or 1, and 0 exactly when the byte strings are equal. |
| Keys.CompareAntisymmetric | bptree.go:673-675 | Swapping the arguments of compare negates the result. |
| Keys.LessTransitive | bptree.go:677-679 | less is transitive. |
| Keys.LessTotal | bptree.go:677-679 | Of two distinct keys, exactly one is less than the other. |
| OrderedMap.LookupInsert | bptree.go:99-109 | After Put(k, v), looking up k gives v, and every other key keeps its value. |
| OrderedMap.LookupRemove | bptree.go:398-425 | After Delete(k), k is absent, and every other key keeps its value. |
| OrderedMap.InsertIsMapUpdate | bptree.go:99-109 | As a map, the contents after Put(k, v) are the old map updated at k. |
| OrderedMap.RemoveIsMapRemoval | bptree.go:398-425 | As a map, the contents after Delete(k) are the old map without k. |
| OrderedMap.InsertLength | bptree.go:192-194 | Put adds one entry exactly when the key was absent. |
| OrderedMap.RemoveLength | bptree.go:421 | Delete removes one entry exactly when the key was present. |
| OrderedMap.InsertSorted | bptree.go:133-195 | Inserting into sorted entries keeps them sorted. |
| OrderedMap.RemoveSorted | bptree.go:433-515 | Removing from sorted entries keeps them sorted. |
| OrderedMap.LookupAt | bptree.go:61-74 | In sorted entries, looking up the key at index i gives the value at index i. |
| Nodes.KeyPosition | bptree.go:551-565 | keyPosition is the first slot in use that holds key, or -1 exactly when no slot in use holds it. |
| Nodes.ChildPosition | bptree.go:80-87 | findLeaf's scan picks the first key above the search key: every key before the chosen slot is not above it, and the key at the slot, if any, is above it. |
| Nodes.InsertPosition | bptree.go:134-149 | putIntoLeaf's scan: every key before the position is below k. The match is exact when the key at the position is k; otherwise that key, if any, is above k. |
| Nodes.PointerPositionOf | bptree.go:611-623 | The position of the first pointer to x before the first nil pointer, or -1 exactly when x is not among the pointers before the first nil. |
| Nodes.InsertAt | bptree.go:627-636 | The shift loop followed by the store gives Inserted: key and pointer at position, and the slots in use after it move up one. |
| Nodes.InsertedKeys | bptree.go:627-636 | After insertAt, the keys in use are the old keys with key inserted at position, the entries likewise, and the leaf link is unchanged. |
| Nodes.DeleteAt | bptree.go:583-607 | The shift loops and the clearing of the vacated slots give Deleted. |
| Nodes.DeletedKeys | bptree.go:583-607 | After deleteAt, the keys in use lose the key at keyPosition. A leaf's entries lose that entry too, and its link is unchanged. |
| Nodes.Append | bptree.go:568-577 | On a leaf, append succeeds, and the keys and entries gain key and value at the end with the link unchanged. On an internal node it fails with "not implemented", where the source panics. |
| Nodes.AppendedKeys | bptree.go:568-577 | After append, the keys in use are the old ones followed by key, the entries likewise, and the link is unchanged. |
| Nodes.SetNext | bptree.go:640-642 | After setNext(p), next() is p and every other slot is unchanged. |
| Nodes.InsertChild | bptree.go:211-223 | putIntoParent's shift and store. The keys in use gain k at pos. |
| Nodes.ChildInsertedKids | bptree.go:211-223 | The children gain r right after l, and the slots past the children in use are unchanged. |
| Nodes.SplitLeaf | bptree.go:349-394 | putIntoLeafAndSplit's node work gives LeafHalves with the split point ceil(order-1, 2). |
| Nodes.LeafHalvesEntries | bptree.go:349-394 | The two halves hold, in order, the old entries with the new one inserted. The left half has mp entries and links to the right half, and the right half links to the old successor. |
| Nodes.CutLeaf | bptree.go:350-381 | The copies into the new right leaf, along with the clearing and relinking of the left one, give LeafCut. |
| Nodes.ClearFrom | bptree.go:289-292 | The clean-up loops put nil in every key slot from the cut on, and in the matching pointer slots. |
| Nodes.SplitInternal | bptree.go:265-325 | putIntoParentAndSplit's node work gives InternalHalves with the split point ceil(order-1, 2). |
| Nodes.InternalHalvesKeys | bptree.go:265-325 | The left keys, then middleKey, then the right keys are the old keys with k inserted. The children of both halves are the old children with r inserted after l. |
| Nodes.CutInternal | bptree.go:265-292 | The copies into the new right node, and the cut of the left one, give InternalCut. |
| Tree.AdoptChildren | bptree.go:330-339 | After the adopt loops, every node named by one of the pointers has g as its parent. |
| Invariant.EntriesSorted | bptree.go:517-523 | The entries of the leaf chain of any tree that satisfies the invariant are strictly ascending by key. |
| Invariant.EntriesLookup | bptree.go:77-93 | Looking up a key in the whole tree gives what the one leaf whose range holds the key gives. |
| TreeFacts.EmptyTree | bptree.go:47-57 | A tree with no root satisfies the invariant and holds no entries. |
| TreeFacts.FirstTree | bptree.go:112-130 | The single root leaf that initializeRoot makes satisfies the invariant and holds exactly the one entry. |
| TreeFacts.NoRootEmpty | bptree.go:62-64 | A tree without a root holds no entries. |
| TreeFacts.RouteStart | bptree.go:77-78 | The root answers for every key. |
| TreeFacts.RouteStep | bptree.go:79-89 | The child findLeaf moves to is live and strictly lower, and its range holds the key. |
| TreeFacts.LeafLookup | bptree.go:66-73 | What the scan of the leaf finds, or its failure to find the key, is the tree's lookup of the key. |
| TreeFacts.LeafParent | bptree.go:441-449 | A leaf's parent is a live internal node that lists the leaf. All its children in use are leaves, and nil fills the slots after them. |
| TreeFacts.SealedSorted | bptree.go:517-523 | The contents of every tree are sorted. |
| TreeFacts.SealedOverwrite | bptree.go:136-141 | Overwriting the value at the matching slot keeps the invariant and turns the contents into Insert(contents, k, v). |
| TreeFacts.SealedInsert | bptree.go:152-165 | Inserting into a leaf with room keeps the invariant and turns the contents into Insert(contents, k, v). |
| TreeFacts.SealedLeafSplit | bptree.go:349-394 | Splitting the full leaf gives a tree with the new entry inserted. The split is pending for the leaf's old parent, with separator the right half's first key. The right half follows the left one in the chain. |
| TreeFacts.SealedGrow | bptree.go:231-249 | A new root over the two halves of the old root settles the pending split and keeps the contents. |
| TreeFacts.SealedAbsorb | bptree.go:199-227 | Putting the separator and the right half into a parent with room settles the pending split and keeps the contents. |
| TreeFacts.SealedDivide | bptree.go:253-342 | Splitting the full parent moves the pending split one level up, with middleKey as separator, and keeps the contents. |
| TreeFacts.SealedRemove | bptree.go:447-459 | Deleting from a leaf that keeps at least minKeyNum keys keeps the invariant, minimum occupancy included, and turns the contents into Remove(contents, k). |
| TreeFacts.SealedRootRemove | bptree.go:447-457 | Deleting from a root leaf that keeps a key keeps the invariant and removes k. |
| TreeFacts.SealedEmptyRoot | bptree.go:447-457 | Deleting the last key of the root leaf gives a tree without a root and without k. |
| TreeFacts.SealedLeftBorrow | bptree.go:466-476 | When the left sibling has more than minKeyNum keys, moving its last entry to the front of the leaf, with that key as the new separator, keeps the invariant, minimum occupancy included, and removes k. |
| TreeFacts.SealedRightBorrow | bptree.go:483-494 | When the right sibling has more than minKeyNum keys, moving its first entry to the end of the leaf, with the sibling's new first key as the separator between them, keeps the invariant, minimum occupancy included, and removes k. |
| TreeFacts.KeyLeafUnique | bptree.go:77-93 | At most one live leaf has a range that holds a given key, so the leaf findLeaf reaches is the only one. |
| TreeFacts.NeedsMergeAt | bptree.go:459-498 | For a leaf at slot j of its parent, a merge is needed exactly when the leaf falls below minKeyNum keys and each neighbour slot that exists holds a sibling with at most minKeyNum keys. |
| TreeFacts.NoMergeAbsent | bptree.go:434-437 | A leaf that does not hold the key needs no merge. |
| Occupancy.OccupiedWithLeaf | bptree.go:447-459 | Replacing a leaf keeps minimum occupancy when the new leaf keeps minKeyNum keys, does not shrink, or is the root. |
| Occupancy.OccupiedHalved | bptree.go:349-394 | A leaf split whose halves both hold minKeyNum keys keeps minimum occupancy, the pending left half included. |
| Occupancy.OccupiedGrown | bptree.go:231-249 | A new root over the two halves of the old root keeps minimum occupancy. |
| Occupancy.OccupiedAbsorbed | bptree.go:199-227 | A parent with room that takes the separator only gains a key, so minimum occupancy holds. |
| Occupancy.OccupiedDivided | bptree.go:253-342 | A full parent split into halves of ceil(order-1, 2) and the remaining keys keeps minimum occupancy, when both halves are at least minKeyNum. |
| Occupancy.OccupiedEmptied | bptree.go:450-454 | Dropping the emptied root leaf keeps minimum occupancy. |
| Occupancy.OccupiedReseparated | bptree.go:459-494 | A borrow that leaves both siblings with minKeyNum keys or more keeps minimum occupancy. |
| Tree.BPTree.constructor | bptree.go:47-57 | New gives an empty tree with no root and size 0. The options loop leaves the order at the default 4 when no option is given, otherwise at the last option's order, and minKeyNum is ceil(order, 2) - 1. |
| Tree.BPTree.Size | bptree.go:526-528 | Size is the number of entries in the contents. |
| Tree.BPTree.FindLeaf | bptree.go:77-93 | The leaf reached is the live leaf whose range holds the key. Looking the key up there is looking it up in the whole tree. |
| Tree.BPTree.Get | bptree.go:61-74 | found exactly when the key is in the contents, and then its value; otherwise nil. |
| Tree.BPTree.Put | bptree.go:99-109 | The contents become Insert(contents, key, value) and the tree stays valid. overridden holds exactly when the key was present, and previous is then its old value. |
| Tree.BPTree.InitializeRoot | bptree.go:112-130 | On an empty tree, the contents become one entry. |
| Tree.BPTree.PutIntoLeaf | bptree.go:133-195 | The overwrite, plain insert and split branches each turn the contents into Insert(contents, k, v). They report the old value exactly when there was one. |
| Tree.BPTree.PushUp | bptree.go:172-189 | The cascade of splits ends with no split pending and the contents unchanged. |
| Tree.BPTree.PutIntoLeafAndSplit | bptree.go:349-394 | f keeps the lower half and a new arena slot takes the upper half. The split waits for f's old parent with the right half's first key, and the contents still to be settled include the new entry. |
| Tree.BPTree.PutIntoNewRoot | bptree.go:231-249 | The new root settles the split, and the contents are unchanged. |
| Tree.BPTree.PutIntoParent | bptree.go:199-227 | The parent with room settles the split, and the contents are unchanged. |
| Tree.BPTree.PutIntoParentAndSplit | bptree.go:253-342 | The full parent splits, and the split waits one level up with middleKey. Heights are unchanged, and the new left node stands one above l. |
| Tree.BPTree.Delete | bptree.go:398-425 | On success, the contents become Remove(contents, key) and the result is the key's old value, or nothing when the key was absent. The tree stays valid and size follows. Failure happens exactly when the tree has a root and key's leaf holds key, would fall below minKeyNum keys, and has no adjacent sibling with a key to spare. The contents are then unchanged. |
| Tree.BPTree.DeleteAtLeafAndRebalance | bptree.go:433-515 | Removes key from its leaf and from the contents, or reports absence. Failure is returned, and the tree left as it was, exactly when the leaf holds key, has a parent, would fall below minKeyNum keys, and neither the sibling before nor the one after it has more than minKeyNum keys. |
| Tree.BPTree.DeleteAtInnerLeaf | bptree.go:441-512 | For a leaf with a parent: key is removed, with a borrow when the leaf falls below minKeyNum keys. Nothing changes, and false is returned, exactly when a merge would be needed. |
| Tree.BPTree.RebalanceLeaf | bptree.go:459-498 | Borrows from the left sibling if it has more than minKeyNum keys, else from the right one if that has. It returns false, changing nothing, exactly when each sibling that exists has at most minKeyNum keys. |
| Tree.BPTree.DeleteAtRootLeaf | bptree.go:447-457 | A root leaf loses key, and the tree loses its root once that leaf is empty. The contents become Remove(contents, key). |
| Tree.BPTree.BorrowFromLeft | bptree.go:466-476 | The left borrow keeps the tree valid and the contents become Remove(contents, key). |
| Tree.BPTree.BorrowFromRight | bptree.go:483-494 | The right borrow keeps the tree valid and the contents become Remove(contents, key). |
| Iteration.CursorStart | iterator.go:12-14 | A cursor at slot 0 of the leftmost leaf stands before every entry. |
| Iteration.CursorHasNext | iterator.go:17-19 | The cursor is on a slot in use exactly when some entries have not been yielded. |
| Iteration.CursorEntry | iterator.go:30 | The key and value under the cursor are the next entry of the contents. |
| Iteration.CursorStep | iterator.go:32-42 | Moving on, within the leaf or along its link to the next leaf, puts the cursor after one more entry. |
| Iteration.Iterator.constructor | iterator.go:12-14 | Iterator() starts at slot 0 of the leftmost leaf, with nothing yielded. |
| Iteration.Iterator.HasNext | iterator.go:17-19 | True exactly when fewer entries than the tree holds have been yielded. |
| Iteration.Iterator.Next | iterator.go:24-45 | Yields the next entry of the contents in key order and moves past it. When every entry has been yielded, it fails with "there is no next node" and stays where it is. |
| Iteration.ForEach | bptree.go:518-523 | The entries visited are exactly the contents, in ascending key order. |
| Findings.RootLeafDeleteAsWritten | bptree.go:441-457 | As written, deleting a key held by a root leaf calls pointerPositionOf on the nil parent, so the root-leaf branch is never reached. |
| Findings.LeftBorrowAsWrittenDropsLeaf | bptree.go:466-511 | As written, a left borrow falls through to the merge branch. It panics when the parent falls below minKeyNum. Otherwise the parent loses the pointer to one of the two leaves, and both still hold entries. |
| Findings.RightBorrowAsWrittenMisroutes | bptree.go:483-494 | As written, a right borrow from a leaf that is not at slot 0 writes the new separator one slot too far left. The parent's keys stop ascending, and the moved key routes to a child left of the leaf. |

## Left out

- The merge branch of `deleteAtLeafAndRebalance` (bptree.go:497-511) is unfinished in the source:
  - it removes the leaf's separator and one pointer from the parent without moving the leaf's remaining entries;
  - it panics when the parent underflows;
  - it never relinks the leaf chain.

  There is no correct behaviour in the source to model. `Tree.BPTree.Delete` and `Tree.BPTree.DeleteAtLeafAndRebalance` return `Failure("merge not implemented")` and leave the tree unchanged exactly when the leaf would fall below `minKeyNum` keys and neither adjacent sibling can lend an entry (`TreeFacts.NeedsMerge`).
- Tree.BPTree.Delete: B+ tree deletion always succeeds for a present key; this contract allows the merge failure above, and states exactly when it happens.
- The separator re-derivation and the recursive delete on internal nodes (`deleteAtInternalAndRebalance`, bptree.go:428-430) are empty or commented out in the source. They are not modelled.
- Panics become results:
  - `Order` with an order below 3 gives `Failure`; the constructor requires options that `Order` produced.
  - `append` on an internal node gives `Failure("not implemented")`.
  - `Next` past the end gives `Failure("there is no next node")`.
  - The `fmt.Printf` before the panic is left out.
- Nil byte slices are modelled as the empty sequence: Get's and Put's nil results, and the nil slots that splits and deletes clear. `copyBytes` in `initializeRoot` is left out, because values cannot alias in the model.
- Pointers are arena indices, so node identity (`==` on `*node`) is index equality. A node the source would drop stays in the arena, marked dead in the ghost shape.
- `iterator.go` calls `lastPointer()`, which is defined in neither core file. It is read as `next()`, the leaf's last pointer slot.
- Iteration.ForEach: the `action` callback is modelled as the returned sequence of visited entries, since a callback's side effects cannot be seen here.
- Iteration.Iterator: the iterator keeps a reference to its tree. A tree changed during iteration is not modelled; the source leaves that behaviour undefined.
- Concurrency is not modelled: the source is single-threaded and not safe for concurrent use.
- Several class methods have no counterpart function in the source. `PushUp` is the loop at bptree.go:172-189. The others are branches of `deleteAtLeafAndRebalance`:
  - `DeleteAtRootLeaf`: the root branch, bptree.go:447-457;
  - `DeleteAtInnerLeaf`: the rest, bptree.go:441-512;
  - `RebalanceLeaf`: the sibling branches, bptree.go:459-498;
  - `BorrowFromLeft` and `BorrowFromRight`: bptree.go:466-476 and 483-494.

  Splitting them out keeps each method's proof small; the order of the steps is the source's.
- Tree.BPTree.DeleteAtLeafAndRebalance: it checks for a root leaf before looking at the parent, as the code evidently intends (see Findings); the source looks at the parent first.

## Findings

| source | as written | input that shows it | evidently intended | confidence | as-written member | corrected member |
|---|---|---|---|---|---|---|
| bptree.go:441 | `n.parent.pointerPositionOf(n)` is evaluated before the `parent == nil` check at line 450. For a root leaf it ranges over the pointers of a nil node. | Order 3: Put([1], [1]), then Delete([1]). The root leaf has no parent, so the dereference panics. The branch at 450-457 that empties the tree can never run. | Check for a root leaf first. Delete the key from it, and drop the root when it becomes empty. | not executed | Findings.RootLeafDeleteAsWritten | Tree.BPTree.DeleteAtRootLeaf |
| bptree.go:477 | A successful left borrow does not clear `tryMerge`, so lines 497-511 also run. `parent.deleteAt(leafKeyPosInParent)` removes a separator and a child pointer. | Order 3, a parent with keys [2], [4] over leaves [0, 1], [2] and [4, 5]. Delete([2]) borrows [1] into the middle leaf. Then `deleteAt(0)` on the parent drops pointer 0, so Get([0]) no longer finds the key. With one key in the parent, the code panics instead. | Set `tryMerge = false` after the left borrow, as the right borrow does. | not executed | Findings.LeftBorrowAsWrittenDropsLeaf | Tree.BPTree.BorrowFromLeft |
| bptree.go:492 | The right borrow writes the right sibling's new first key to `parent.keys[leafKeyPosInParent]`, that is, the key at max(leafPointerPos - 1, 0). | Order 3, a parent with keys [2], [4] over leaves [0], [2] and [4, 5]. Delete([2]) borrows [4] into the middle leaf. The parent's keys become [5], [4], and Get([4]) goes to the first leaf and finds nothing. | Write the key at `leafPointerPos`: the separator between the leaf and its right sibling. | not executed | Findings.RightBorrowAsWrittenMisroutes | Tree.BPTree.BorrowFromRight |
