# BST: an unbalanced binary search tree with duplicate keys, and Map/Set over it

This project models `BinarySearchTree<Key, Value>`, a pointer-linked binary
search tree that allows duplicate keys (a multimap). It also models the two
thin adapters built on it: `Map<Key, Value>`, which keeps at most one pair per
key, and `Set<Value>`, a `Map<Value, Value>` whose pairs are `(v, v)`. Key and
Value are fixed to `int`.

## How the model is built

- **The heap becomes an arena.** `BinarySearchTree` is a class whose fields are
  the node arena `nodes: seq<Node>`, `root` and `size`.
  - A `Node` holds the key, the value and the `parent`, `left` and `right`
    links, as arena indices. `Null` (-1) stands for `nullptr`.
  - A pointer is an arena index, and an iterator is the index of the node it
    points at, so iterator `==` is node identity.
  - `new Node` appends a slot to the arena. `delete` detaches the slot, and
    the slot stays in the arena unused.
- **A ghost shape pins down the tree.** The ghost field `shape` (`Nil |
  Branch(id, left, right)`) is the tree the links describe. `Valid()` states:
  - the links agree with `shape` both ways: child links, and the parent link of
    every node;
  - no slot occurs twice;
  - the in-order keys never decrease;
  - `size` is the number of nodes.

  `Order()` is the in-order sequence of node slots. `Contents()` is the
  in-order sequence of `(key, value)` pairs. Every operation is specified
  against these.
- **The weak ordering invariant is the one kept.** Left keys are at most the
  node's key, and right keys at least it. The tree needs this weak form:
  - `insert` sends equal keys left;
  - `remove`'s two-child case copies the successor's pair upward, which can
    leave an equal key in the right subtree.
- **Each operation is specified on pairs.**
  - `insert` places `(k, v)` at the lower bound of `k` in `Contents()`.
  - `remove` drops exactly one pair with the key.
  - `erase` keeps exactly the pairs whose key differs (`WithoutKey`).
  - Iterator `++` and `--` move one position along `Order()`.
- **Modules.**
  - `Entries`: sequences of pairs.
  - `Shapes`: shapes, paths, in-order and links.
  - `Surgery`: what `insert` does to shape and arena.
  - `Pruning`: what each `remove` case does.
  - `Cursor`: iterator steps.
  - `Bst`: the class.
  - `Maps` and `Sets`: the adapters.
- **`Map::insert` of a present key only erases it.** The comment in
  BinarySearchTree.h:488-489 says "replace", but the code at map.h:71-77
  erases the key and inserts nothing. The model follows the code: see `Put`,
  and `Set::insert`, which inherits the behaviour.

## Model

| member | source | states |
|---|---|---|
| Bst.BinarySearchTree.constructor | BinarySearchTree.h:98 | a new tree is well formed and holds no pairs |
| Bst.BinarySearchTree.Size | BinarySearchTree.h:450-452 | size() is the number of stored pairs |
| Bst.BinarySearchTree.Find | BinarySearchTree.h:356-376 | find returns end exactly when no pair has the key; otherwise it returns a node of the tree whose key is the key, namely the one the root-down search reaches |
| Bst.BinarySearchTree.Begin | BinarySearchTree.h:428-434 | on a non-empty tree, begin() is the first node in in-order (the least key) |
| Bst.BinarySearchTree.End | BinarySearchTree.h:435-437 | end() is no node of the tree |
| Bst.BinarySearchTree.SlotDistinct | BinarySearchTree.h:226-232 | iterator equality is node identity: iterators at two different in-order positions, or at a node and at end, compare unequal |
| Bst.BinarySearchTree.Next | BinarySearchTree.h:180-196 | ++ leaves end at end and otherwise moves to the in-order successor, which is end after the last node |
| Bst.BinarySearchTree.Prev | BinarySearchTree.h:203-219 | -- leaves end at end and otherwise moves to the in-order predecessor, which is end before the first node |
| Bst.BinarySearchTree.Leftmost | BinarySearchTree.h:184-188 | the walk down the right subtree's left spine ends at the node right after the start node in in-order |
| Bst.BinarySearchTree.Rightmost | BinarySearchTree.h:207-211 | the walk down the left subtree's right spine ends at the node right before the start node in in-order |
| Bst.BinarySearchTree.ClimbToSuccessor | BinarySearchTree.h:189-194 | from a node with no right child, climbing while the node is its parent's right child and then taking the parent yields the in-order successor, or end |
| Bst.BinarySearchTree.ClimbToPredecessor | BinarySearchTree.h:212-217 | from a node with no left child, climbing while the node is its parent's left child and then taking the parent yields the in-order predecessor, or end |
| Bst.BinarySearchTree.Locate | BinarySearchTree.h:309-321 | insert's descent (equal keys go left) stops at a node whose child slot on the chosen side is empty, and that slot's in-order position is the lower bound of the key |
| Bst.BinarySearchTree.Insert | BinarySearchTree.h:308-333 | the pairs afterwards are the old pairs with (key, value) placed at the lower bound of key, even if the key was present; the new node takes that in-order position and is a leaf: the root of an empty tree (no parent), otherwise a child whose parent is a node of the old tree; the tree stays well formed |
| Bst.BinarySearchTree.HangLeaf | BinarySearchTree.h:309-328 | on a non-empty tree, the new leaf (key, value) hangs in the empty child slot of the last node visited, on the left when that node's key is at least key, with its parent set to that node and no other slot changed; the pairs gain exactly (key, value) at the lower bound |
| Bst.BinarySearchTree.RemoveLeaf | BinarySearchTree.h:39-48 | removing a childless non-root node unhooks it from its parent: the new shape is the old one with that node's place replaced by an empty subtree, exactly its pair is dropped and the tree stays well formed |
| Bst.BinarySearchTree.RemoveLiftRight | BinarySearchTree.h:49-61 | a node with only a right child takes that child's pair and children: the new shape has the node, in its old place, over the right child's two subtrees; the tree stays well formed, so the grandchildren's parent links point to the node, and exactly the node's pair is dropped |
| Bst.BinarySearchTree.RemoveLiftLeft | BinarySearchTree.h:63-76 | the mirror case: the node, in its old place, now sits over the left child's two subtrees, and exactly its pair is dropped |
| Bst.BinarySearchTree.RemoveSplice | BinarySearchTree.h:78-84 | two children, with the right child having no left child: the new shape has the node, in its old place, over its old left subtree and the right child's right subtree, and exactly the node's pair is dropped (with the parent link repaired, see Findings) |
| Bst.BinarySearchTree.RemoveSuccessor | BinarySearchTree.h:85-92 | two children otherwise: the tree stays well formed with the same root and exactly the node's pair is dropped (the copy-up of the successor's pair is stated by Pruning.CopyLeftmost) |
| Bst.BinarySearchTree.RemoveAt | BinarySearchTree.h:39-93 | removing a matched node in a tree of more than one node drops exactly that node's pair and keeps the tree well formed and sorted |
| Bst.BinarySearchTree.Remove | BinarySearchTree.h:28-95 | remove(key, node): when the search from node finds no key, nothing changes; otherwise exactly the found node's pair, which has the key, is dropped from the in-order pairs |
| Bst.BinarySearchTree.Erase | BinarySearchTree.h:335-339 | after erase(key) the pairs are the old pairs without every pair of that key, the others in the same order; the loop terminates because each round removes one pair |
| Bst.BinarySearchTree.EqualRange | BinarySearchTree.h:378-391 | for an absent key both iterators are end; otherwise start is the first pair with the key, the range ends at the node find(key) returns (position f, tied to the root-down search), every pair from start through it has the key, and stop is that node's in-order successor |
| Bst.BinarySearchTree.BlockFirst | BinarySearchTree.h:384-390 | the beginning check and the backward walk followed by one ++ land on the first pair with the key |
| Bst.BinarySearchTree.Min | BinarySearchTree.h:407-416 | min(key) is end for an absent key; otherwise, over equalRange(key) (from the first pair with the key through find's node), it is the node whose value is at most every value in the range and strictly below the values before it (the earliest minimum) |
| Bst.BinarySearchTree.ScanMin | BinarySearchTree.h:409-415 | the scan over [start, stop) keeps the earliest least value |
| Bst.BinarySearchTree.Max | BinarySearchTree.h:417-426 | max(key) is end for an absent key; otherwise, over equalRange(key) (from the first pair with the key through find's node), the earliest node with the greatest value |
| Bst.BinarySearchTree.ScanMax | BinarySearchTree.h:419-425 | the scan over [start, stop) keeps the earliest greatest value |
| Entries.LowerBound | BinarySearchTree.h:312-327 | the insertion position: every pair before it has a smaller key, and the pair at it (if any) a key at least as large |
| Entries.LowerBoundUnique | BinarySearchTree.h:312-327 | any position that splits the pairs into smaller keys and keys at least as large is the lower bound |
| Entries.SortedInsert | BinarySearchTree.h:308-333 | placing a pair between smaller-or-equal and greater-or-equal keys keeps the keys non-decreasing |
| Entries.SortedDelete | BinarySearchTree.h:28-95 | dropping one pair keeps the keys non-decreasing |
| Entries.SortedCopySuccessor | BinarySearchTree.h:85-91 | copying the next pair over a pair keeps the keys non-decreasing (the weak invariant) |
| Entries.DropCopied | BinarySearchTree.h:85-91 | copying the successor's pair up and then dropping the successor's slot equals dropping the node's own pair |
| Entries.WithoutKey | BinarySearchTree.h:335-339 | a pair survives erase exactly when it was present and its key differs |
| Entries.WithoutKeyDelete | BinarySearchTree.h:335-339 | removing one pair with the key, then erasing the key, is erasing the key |
| Entries.WithoutKeyAbsent | BinarySearchTree.h:335-339 | when find reports the key absent, erasing changes nothing (the loop exit) |
| Entries.WithoutKeyCount | BinarySearchTree.h:335-339 | erase shrinks the pairs by the number of pairs with the key |
| Entries.CountZero | BinarySearchTree.h:335-339 | no pair carries the key exactly when its count is zero |
| Entries.SortedBlock | BinarySearchTree.h:378-390 | in sorted pairs, every pair from the lower bound through a pair with the key has the key |
| Entries.BlockStart | BinarySearchTree.h:387-390 | the backward walk stops one before the first pair with the key |
| Entries.UniqueWithoutKey | map.h:79-82 | erasing keeps keys unique |
| Entries.UniqueInsert | map.h:71-77 | inserting an absent key keeps keys unique |
| Shapes.FindNodeCorrect | BinarySearchTree.h:341-354 | the root-down search returns null exactly when no pair in the subtree has the key, and otherwise a node of the subtree with that key |
| Surgery.StraddleStep | BinarySearchTree.h:312-321 | each step of insert's descent keeps every pair before the current subtree below the key and every pair after it at least the key |
| Surgery.StraddleBound | BinarySearchTree.h:321-327 | at the empty slot where the descent ends, the slot's in-order position is the lower bound of the key |
| Surgery.LeafLinks | BinarySearchTree.h:322-327 | hanging the new node in the empty slot, with the parent set, keeps every child and parent link consistent |
| Surgery.InsertLeaf | BinarySearchTree.h:322-327 | the tree with the new leaf is well formed, grows by one, and its pairs are the old ones with (key, value) at the lower bound |
| Surgery.InsertRoot | BinarySearchTree.h:329-331 | inserting into an empty tree yields a well-formed one-node tree holding exactly (key, value) |
| Pruning.Adopt | BinarySearchTree.h:54-59 | setting a child's parent link changes that one field of that one node |
| Pruning.LeafOrder | BinarySearchTree.h:39-48 | a leaf sits at its own in-order position, and cutting it drops exactly that position |
| Pruning.Unlink | BinarySearchTree.h:39-48 | clearing the parent's child link to a leaf yields a well-formed tree whose order drops exactly the leaf |
| Pruning.LiftRight | BinarySearchTree.h:49-61 | absorbing the only (right) child yields a well-formed tree whose pairs drop exactly the node's pair |
| Pruning.LiftLeft | BinarySearchTree.h:63-76 | absorbing the only (left) child yields a well-formed tree whose pairs drop exactly the node's pair |
| Pruning.Spliced | BinarySearchTree.h:79-82 | the node after the copy holds the right child's pair and right link, and keeps its own parent and left links |
| Pruning.Splice | BinarySearchTree.h:78-84 | splicing out the right child, with its right child re-parented, yields a well-formed tree whose pairs drop exactly the node's pair |
| Pruning.SpliceAsWritten | BinarySearchTree.h:78-84 | as written, with a right-right grandchild present, that grandchild's parent still names the deleted node, so the links no longer describe the tree |
| Pruning.CopyLeftmost | BinarySearchTree.h:85-91 | after the successor's pair is copied up the tree is still well formed, and a search for the copied key from the successor's node stops there, so the recursive call removes that node |
| Pruning.CopySuccessor | BinarySearchTree.h:85-90 | copying the successor's pair into the node keeps the tree well formed and duplicates exactly that pair in in-order |
| Cursor.ParentSlot | BinarySearchTree.h:190-193 | the parent link is null exactly at the root, so the climb ends there |
| Cursor.RightChildStep | BinarySearchTree.h:190 | the test "the parent's right child is this node" identifies a step up from a right child |
| Cursor.LeftChildStep | BinarySearchTree.h:213 | the test "the parent's left child is this node" identifies a step up from a left child |
| Cursor.SuccessorBelow | BinarySearchTree.h:184-188 | the leftmost node of the right subtree is the in-order successor |
| Cursor.PredecessorBelow | BinarySearchTree.h:207-211 | the rightmost node of the left subtree is the in-order predecessor |
| Cursor.SuccessorAbove | BinarySearchTree.h:190-193 | once the climbed subtree is not a right child, its parent (or end) is the successor of the subtree's last node |
| Cursor.PredecessorAbove | BinarySearchTree.h:213-216 | once the climbed subtree is not a left child, its parent (or end) is the predecessor of the subtree's first node |
| Cursor.AfterLeftSubtree | BinarySearchTree.h:190-193 | the node right after a left subtree's last node is that subtree's parent |
| Cursor.BeforeRightSubtree | BinarySearchTree.h:213-216 | the node right before a right subtree's first node is that subtree's parent |
| Maps.Map.constructor | map.h:13 | a new map is valid and empty |
| Maps.Map.Insert | map.h:71-77 | insert of a present key erases it and inserts nothing; of an absent key adds (key, value) at its place; keys stay unique |
| Maps.Map.Erase | map.h:79-82 | erase leaves exactly the pairs with another key, in order, and keys unique |
| Maps.Map.Find | map.h:89-92 | find is end exactly when the key is absent; otherwise its node holds the key and the map's value for it |
| Maps.Map.Index | map.h:102-108 | operator[] inserts (key, 0) when the key is absent and changes nothing otherwise; the returned node holds the key and its stored value |
| Maps.Map.Begin | map.h:110-113 | begin() is the first node, which holds a key of the map |
| Maps.Map.End | map.h:115-118 | end() is no node of the map |
| Maps.Map.Size | map.h:130-133 | size() is the tree's size, and equals the number of distinct keys |
| Maps.InsertedContents | BinarySearchTree.h:308-333 | the tree's insert adds exactly one pair: the length grows by one, the multiset of pairs gains exactly (key, value), the keys gain the key |
| Maps.KeysWithoutKey | map.h:79-82 | erase removes exactly the key from the key set |
| Maps.UniqueCount | map.h:79-82 | with unique keys a key occurs once or not at all |
| Maps.UniqueErase | map.h:79-82 | with unique keys, erasing a present key shrinks the map by exactly one |
| Maps.PutKeys | map.h:71-77 | insert toggles the key: removed when present, added when absent; other keys stay |
| Maps.PutUnique | map.h:71-77 | insert keeps keys unique, shrinks by one for a present key and grows by one for an absent one, after which the only pair with the key is (key, value) |
| Maps.IndexedUnique | map.h:102-108 | operator[] keeps keys unique, leaves the key present, and grows the map by one exactly when the key was absent |
| Maps.UniqueKeysCount | map.h:130-133 | with unique keys the number of pairs equals the number of keys |
| Sets.DiagonalPut | set.h:62-70 | insert and erase keep every stored pair of the form (v, v) |
| Sets.Set.constructor | set.h:15 | a new set is valid and empty |
| Sets.Set.Insert | set.h:62-65 | insert(v) is Map::insert(v, v): an absent v becomes an element, a present v is removed |
| Sets.Set.Erase | set.h:67-70 | erase(v) removes exactly v from the elements |
| Sets.Set.Find | set.h:77-80 | find is end exactly when v is not an element; otherwise its node stores v as both key and value |
| Sets.Set.Contains | set.h:82-85 | contains(v) holds exactly when v is an element, that is, when find is not end |

## Left out

- Bst.BinarySearchTree.EqualRange: the range is complete only up to find's node.
  - The code ends the range after the node find returns. When find's node is
    not the last pair with the key, the pairs with the key after it are
    missing.
  - Insert 10, 5, 20, 15, 15 and erase 10: the copied 15 sits above the other
    15, so equalRange(15) covers only one of them.
  - The contract states what the code yields: every pair from the first match
    through find's node has the key, and stop is find's node's successor.
    Completeness over all pairs with the key is not claimed.
- Bst.BinarySearchTree.Min and Bst.BinarySearchTree.Max: they range over
  EqualRange's range, so they share its limit.
- Bst.BinarySearchTree.Remove and Bst.BinarySearchTree.Erase: removing a
  childless root is undefined in the source, because the leaf case reads the
  root's null parent. Both methods therefore require that this case is never
  reached:
  - Remove: more than one node, or the key absent.
  - Erase: when the key is present, some pair with another key remains.
  - Maps.Map.Insert, Maps.Map.Erase, Sets.Set.Insert and Sets.Set.Erase
    inherit this as "the key is not the only one".
- Bst.BinarySearchTree.Next and Bst.BinarySearchTree.Prev take the iterator's
  in-order position as a ghost argument; the source finds it from the node.
- Remove's four structural cases and the successor walk are separate methods
  (RemoveLeaf, RemoveLiftRight, RemoveLiftLeft, RemoveSplice,
  RemoveSuccessor). The recursion of the two-child case is kept.
- Memory reclamation: a deleted node's arena slot is detached but not reused.
  The destructor at BinarySearchTree.h:141-158, with its breadth-first
  freeing, has no counterpart.
- Copy and move constructors and assignments (BinarySearchTree.h:100-139,
  map.h:41-68, set.h:33-60) are ownership plumbing and are not modelled.
  - The tree's move constructor (BinarySearchTree.h:126-129) is well formed:
    it swaps the root and the size.
  - All the others are ill-formed if instantiated.
- The const `find`, `cbegin` and `cend` behave as the non-const ones and are
  not modelled separately. `ConstIterator` (BinarySearchTree.h:238-306)
  duplicates `Iterator` and is modelled once.
- Iterator dereference (`*`, `->`) and use after removal are undefined for end
  and for deleted nodes. A node's pair is read as `nodes[it]`, and writing
  through the returned reference is not modelled.
- Maps.Map.Index returns the node of the key instead of a `Value&`. Writing
  through that reference is not modelled. `Value()` is 0 for `int`.
- The const `Map::operator[]` (map.h:94-100) passes a type as a value and is
  ill-formed, so it has no behaviour to model.
- The duplicate `Map` at BinarySearchTree.h:459-544 and the commented-out
  `Set` there implement the same operations as map.h and set.h, which are
  modelled once. That `Map`'s move constructor and assignment
  (BinarySearchTree.h:478-484) lack map.h's `this != other` test and its
  `delete` of the moved-from tree; these are not modelled either way.
- Key and Value are `int`, not template parameters. `std::size_t` wrap-around
  of `_size` cannot occur, since each node is a distinct allocation.
- main.cpp is a console demo and is not part of this model.
- The postfix `operator++(int)` and `operator--(int)` (BinarySearchTree.h:197-201, 220-224) copy the iterator, apply the prefix step (Next, Prev) and return the copy; they are not modelled separately.

## Findings

| source | as written | input that shows it | evidently intended | confidence | as-written member | corrected member |
|---|---|---|---|---|---|---|
| BinarySearchTree.h:78-84 | the two-child case whose right child has no left child moves the right child's right subtree up under the node but never sets that subtree's `_parent` to the node, which keeps pointing at the deleted right child | map insert 2, 1, 3, 4 then erase(2): 4's parent names the freed node, and `++` from 4 (the last node) climbs through it | set `newNode->_parent = node` when `newNode` is not null, as the one-child cases do | not executed | Pruning.SpliceAsWritten | Pruning.Splice |
