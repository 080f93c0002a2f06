# Order-statistics red-black tree and doubly linked list

This project models the two containers of the library and proves their
contracts in Dafny:

- `lib/bst.js`, a left-leaning red-black binary search tree (LLRB) whose
  nodes carry the size of their subtree, so rank queries (`countLess`,
  `countGreater`, `countRange`) run along one root-to-leaf path;
- `lib/linked-list.js`, a doubly linked list with `first`/`last`/`count`
  fields and `prev`/`next` links rewired in place.

Modules:

| file | module | content |
|---|---|---|
| `wrappers.dfy` | `Wrappers` | `Option` (JavaScript `null`/`undefined` results) |
| `bst_node.dfy` | `BstNode` | the node datatype, its in-order entry sequence, key order, size augmentation, lookup |
| `bst_balance.dfy` | `BstBalance` | `_recalculateCount`, the rotations, the colour flip, `_put` and the LLRB shape invariants |
| `bst_query.dfy` | `BstQuery` | `_floorNode`, `_ceilingNode`, `_countLess`, `_countGreater`, `countRange`, `_traversalRange` with reference definitions |
| `bst.dfy` | `Bst` | the `BinarySearchTree` class: `put`, lookups, cursor loops, rank wrappers, array exports |
| `bst_as_written.dfy` | `BstAsWritten` | three source lines modelled literally, each shown on a concrete input |
| `linked_list.dfy` | `DoublyLinkedList` | the `Node` and `LinkedList` classes over heap nodes, plus `filter`/`map`/`reduce` as sequence functions |

Tree nodes are an immutable datatype `Tree<V>` (`Leaf` stands for `null`);
`_put`, the rotations and the flip are functions returning the rebuilt
subtree. Each node is reachable from exactly one parent, so the value model
and the in-place rewrite give the same tree. The class `BinarySearchTree`
holds `root`, and its invariant `Valid()` is: keys strictly increasing in
order, every `count` equal to its subtree size, no red right link, no red
node with a red left child, equal black height on every path, black root.

Keys are `int` with their native order. A stored value is a `Value`, that
is `Option<int>`, where `None` stands for `undefined`. A new node created
without a value holds its key (lib/bst.js:13). An existing key is
overwritten with the argument exactly as passed (lib/bst.js:134), so a
second `put(k)` without a value stores `undefined`. `_put` therefore takes
two values: `created` for a new node and `val` for an overwrite. Lookups
that can also answer `null` (`getValue`, `min`, `max`) return
`Option<Value>`.

An overwrite changes only the value: on a well-formed tree, `_put` on a
key that is already present leaves every node, link, colour and count as it
was. Repeating `put(k, v)` therefore leaves the tree identical when a value
is given or `k` was already present. A repeated `put` is not idempotent in
every case: `put(k)` twice on a new key first stores `k` (lib/bst.js:13),
then `undefined` (lib/bst.js:134).

The linked list is a class over real `Node` objects. A ghost sequence
`Nodes` lists the nodes from `first` to `last`, and a ghost sequence
`Contents` lists their values. `Valid()` ties them together: `count ==
|Nodes|`, the nodes are distinct, each node holds its value,
`first`/`last` are the ends, and every `next`/`prev` link points at the
neighbour in `Nodes` (`null` at the ends).

Three places in `lib/bst.js` do not do what the surrounding code evidently
means. The model uses the corrected reading and keeps the literal reading
beside it (see "## Findings"):

- the dropped rotation result at line 159;
- `this.comparekey` at line 189;
- the unguarded `countRange` at lines 443-451.

## Model

| member | source | states |
|---|---|---|
| `BstNode.IsRed` | lib/bst.js:60-62 | a red link is a real node; null counts as black |
| `BstNode.InOrder` | lib/bst.js:308-314 | the in-order traversal visits nothing exactly when the tree is null |
| `BstNode.Find` | lib/bst.js:183-196 | the descent by key, with `key` compared at each node: whatever it returns is an entry stored under that key |
| `BstNode.KeysInOrder` | lib/bst.js:308-314 | the keys of a tree are exactly the keys its in-order traversal visits |
| `BstNode.OrderedIffSorted` | lib/bst.js:130-146 | a tree obeys search-tree order iff its in-order keys are strictly increasing |
| `BstNode.FindIffStored` | lib/bst.js:183-196 | in an ordered tree, the descent by key yields `v` for `k` iff the entry (k, v) is stored |
| `BstNode.FindIffKey` | lib/bst.js:183-196 | in an ordered tree, the descent by key finds something iff the key is present |
| `BstNode.CountIsSize` | lib/bst.js:64-70 | when every `count` is 1 + left count + right count, the root `count` is the number of entries |
| `BstNode.DistinctKeys` | lib/bst.js:133-134 | an ordered tree stores no key twice: its number of distinct keys equals its number of entries |
| `BstNode.ExtremesOfInOrder` | lib/bst.js:218-245 | the first and last in-order entries hold the least and the greatest key |
| `BstBalance.Recount` | lib/bst.js:68-70 | recomputing `count` keeps entries and colour and restores the size augmentation over correct children |
| `BstBalance.RotateLeft` | lib/bst.js:72-95 | acts iff the right child is red; keeps the in-order entries and the total count; the new root takes the old colour, the demoted node is red |
| `BstBalance.RotateRight` | lib/bst.js:97-119 | acts iff the left child is red; keeps the in-order entries and the total count; the new root takes the old colour, the demoted node is red |
| `BstBalance.FlipColors` | lib/bst.js:121-128 | acts iff both children are red; reddens the node, blackens both children, keeps entries and counts |
| `BstBalance.RecolourKeepsCounts` | lib/bst.js:121-128 | changing a node's colour does not affect the size augmentation |
| `BstBalance.Balance` | lib/bst.js:150-166 | the lean-left, 4-node and split steps keep the in-order entries, the root count and the size augmentation |
| `BstBalance.BalanceKeepsContents` | lib/bst.js:150-166 | the balance steps keep search-tree order, the key set and every lookup |
| `BstBalance.PutNode` | lib/bst.js:130-168 | `_put` always returns a node, never null |
| `BstBalance.PutNodeContents` | lib/bst.js:130-168 | `_put` keeps order and adds exactly `key`. The key maps to `val` when it was already present (line 134) and to the new node's value `created` when it was not (lines 132, 137, 143). Every other lookup is unchanged |
| `BstBalance.SetValue` | lib/bst.js:133-134 | the intended effect of an overwrite: keys, count and root colour unchanged; the lookup of `key` gives `val` if it was present, every other lookup is unchanged |
| `BstBalance.SetValueKeepsShape` | lib/bst.js:133-134 | replacing a value keeps order, the size augmentation, the red-black shape and the black height |
| `BstBalance.SetValueSame` | lib/bst.js:133-134 | writing the value a key already holds changes nothing |
| `BstBalance.OverwriteOnlyValue` | lib/bst.js:130-168 | on a well-formed tree, `_put` of a present key only replaces its value: the result equals `SetValue`, so no node, link, colour or count changes |
| `BstBalance.PutNodeSize` | lib/bst.js:130-168 | `_put` adds one entry for a new key and none for an existing key |
| `BstBalance.PutNodeCounts` | lib/bst.js:130-168 | after `_put` every `count` is the subtree size, and the root count rises by 1 exactly for a new key |
| `BstBalance.BalanceOfLLRB` | lib/bst.js:150-166 | on a tree that already has the LLRB shape, the balance steps change nothing |
| `BstBalance.BalanceAfterLeftInsert` | lib/bst.js:139-166 | after a left insertion the balance steps restore the LLRB shape (or leave one red-red at a red root) at the same black height |
| `BstBalance.BalanceAfterRightInsert` | lib/bst.js:139-166 | after a right insertion the balance steps restore the LLRB shape (or leave one red-red at a red root) at the same black height |
| `BstBalance.RightInsertLeans` | lib/bst.js:150-155 | a red right child over a black left one is leaned left into LLRB shape at the same black height |
| `BstBalance.RightInsertSplits` | lib/bst.js:162-166 | two red children are split by the flip into LLRB shape at the same black height |
| `BstBalance.PutNodeKeepsLLRB` | lib/bst.js:130-168 | `_put` keeps black balance and black height; below a black root it keeps the LLRB shape |
| `BstBalance.Blacken` | lib/bst.js:179 | blackening the root gives a black root and keeps the entries and the count |
| `BstBalance.BlackenKeepsContents` | lib/bst.js:179 | blackening the root keeps keys, order, size augmentation and every lookup |
| `BstBalance.PutKeepsLLRB` | lib/bst.js:177-181 | `put` on an LLRB tree gives an LLRB tree with a black root |
| `BstQuery.FloorNode` | lib/bst.js:247-258 | the node found holds a key ≤ x and no key ≤ x is greater; none is found only when every key exceeds x |
| `BstQuery.CeilingNode` | lib/bst.js:272-283 | the node found holds a key ≥ x and no key ≥ x is smaller; none is found only when every key is below x |
| `BstQuery.CountLessNode` | lib/bst.js:375-385 | `_countLess` is never negative and, with correct counts, at most the subtree count |
| `BstQuery.CountGreaterNode` | lib/bst.js:405-415 | `_countGreater` is never negative and, with correct counts, at most the subtree count |
| `BstQuery.AllBelow` | lib/bst.js:375-385 | when every key is below x, all entries count as below and none as above |
| `BstQuery.AllAbove` | lib/bst.js:405-415 | when every key is above x, all entries count as above and none as below |
| `BstQuery.CountLessCorrect` | lib/bst.js:375-385 | the one-path count using subtree sizes equals the number of keys < x (≤ x with `includeEqual`) |
| `BstQuery.CountGreaterCorrect` | lib/bst.js:405-415 | the one-path count using subtree sizes equals the number of keys > x (≥ x with `includeEqual`) |
| `BstQuery.RankSplit` | lib/bst.js:392-433 | keys < x and keys ≥ x (also ≤ x and > x) together are all entries |
| `BstQuery.RangeInclusionExclusion` | lib/bst.js:443-451 | size minus "below from" minus "above to" equals the keys in range minus the keys counted on both sides |
| `BstQuery.NoDoubleCount` | lib/bst.js:443-451 | for `from < to`, or `from == to` with an end included, no key is both below `from` and above `to` |
| `BstQuery.EmptyRange` | lib/bst.js:443-451 | for `from > to`, or `from == to` with both ends excluded, no key lies in the range |
| `BstQuery.CountRangeNode` | lib/bst.js:443-451 | `countRange` as written never exceeds the subtree count; it can be negative |
| `BstQuery.CountRangeChecked` | lib/bst.js:443-451 | `countRange` with the empty-range guard never exceeds the subtree count |
| `BstQuery.CountRangeCorrect` | lib/bst.js:443-451 | `countRange` as written is the number of keys in range minus the doubly counted keys; for a non-empty range it is exactly the number in range |
| `BstQuery.CountRangeCheckedCorrect` | lib/bst.js:443-451 | the guarded range count equals the number of keys in range for every pair of ends |
| `BstQuery.EntriesInRangeConcat` | lib/bst.js:328-343 | filtering a concatenation by range filters each part |
| `BstQuery.EntriesInRangeNone` | lib/bst.js:328-343 | a sequence with no key in range keeps nothing |
| `BstQuery.RangeTraversal` | lib/bst.js:328-343 | `_traversalRange` visits only stored entries, and no more entries than the tree holds |
| `BstQuery.RangeTraversalCorrect` | lib/bst.js:328-343 | the pruned range traversal visits exactly the in-order entries whose keys lie in range, in order |
| `Bst.PushInOrder` | lib/bst.js:308-314 | the in-order push appends `f` of each entry in key order after the existing array |
| `Bst.PutOfElement` | lib/bst.js:40-48 | one loop step of the array constructor: after `put(y)` without a value, the keys are those of the elements seen so far, an element seen once maps to itself and a repeated element maps to `undefined` |
| `Bst.PutIdempotent` | lib/bst.js:177-181 | on a well-formed tree, a second `put(key, val)` leaves the tree exactly as the first left it, when a value is given or the key was present |
| `Bst.PutTwiceWithoutValue` | lib/bst.js:130-134 | `put(key)` twice without a value on a new key is not idempotent: the first stores the key, the second `undefined` |
| `Bst.BinarySearchTree.constructor` | lib/bst.js:27-48 | building from an array of values gives a valid tree whose keys are exactly those values. A value occurring once maps to itself; a repeated value maps to `undefined`, because its second `put` overwrites without a value. `count` is the number of distinct values |
| `Bst.BinarySearchTree.Put` | lib/bst.js:177-181 | keeps the invariant and adds `key`. A new key maps to `val`, or to `key` when no value is given. An existing key maps to `val` exactly as passed, `undefined` included. Other lookups are unchanged, and `count` rises by 1 exactly for a new key |
| `Bst.BinarySearchTree.FindNode` | lib/bst.js:183-196 | the cursor loop returns the node holding `key`, or null exactly when the descent finds nothing |
| `Bst.BinarySearchTree.GetValue` | lib/bst.js:204-211 | null iff `key` is absent; otherwise the value stored under `key`, which may be `undefined` |
| `Bst.BinarySearchTree.Min` | lib/bst.js:218-228 | null iff empty; otherwise the value (possibly `undefined`) stored under the least key |
| `Bst.BinarySearchTree.Max` | lib/bst.js:235-245 | null iff empty; otherwise the value (possibly `undefined`) stored under the greatest key |
| `Bst.BinarySearchTree.Floor` | lib/bst.js:266-270 | the greatest key ≤ x, or null when there is none |
| `Bst.BinarySearchTree.Ceiling` | lib/bst.js:291-295 | the least key ≥ x, or null when there is none |
| `Bst.BinarySearchTree.Delete` | lib/bst.js:303-306 | leaves the tree unchanged |
| `Bst.BinarySearchTree.CountLess` | lib/bst.js:392-394 | the number of keys < x |
| `Bst.BinarySearchTree.CountLessOrEqual` | lib/bst.js:401-403 | the number of keys ≤ x |
| `Bst.BinarySearchTree.CountGreater` | lib/bst.js:422-424 | the number of keys > x |
| `Bst.BinarySearchTree.CountGreaterOrEqual` | lib/bst.js:431-433 | the number of keys ≥ x |
| `Bst.BinarySearchTree.CountsPartition` | lib/bst.js:392-433 | `countLess(x) + countGreaterOrEqual(x)` and `countLessOrEqual(x) + countGreater(x)` both equal the root count |
| `Bst.BinarySearchTree.CountRange` | lib/bst.js:443-451 | 0 on an empty tree; otherwise the number of keys between the ends, each end excluded iff its flag is set |
| `Bst.BinarySearchTree.IterateRange` | lib/bst.js:352-356 | visits exactly the stored entries whose keys lie in range, in key order |
| `Bst.BinarySearchTree.FindRangeRoot` | lib/bst.js:358-373 | the node found lies in `[from, to]` and its subtree holds every stored key in `[from, to]` |
| `Bst.BinarySearchTree.ToKeyArray` | lib/bst.js:461-467 | the keys in strictly increasing order, `count` of them, exactly the stored keys |
| `Bst.BinarySearchTree.ToValueArray` | lib/bst.js:453-459 | `count` values, the i-th stored under the i-th smallest key |
| `Bst.BinarySearchTree.ToArray` | lib/bst.js:469-475 | the stored entries, `count` of them, in strictly increasing key order |
| `BstAsWritten.BalanceAsWritten` | lib/bst.js:150-166 | with the rotation result dropped, two reds in a row leave the old root on top over the old left child's right subtree |
| `BstAsWritten.PutNodeAsWritten` | lib/bst.js:130-168 | `_put` as written, with the rotation result at line 159 dropped, still returns a node |
| `BstAsWritten.PutAsWritten` | lib/bst.js:177-181 | `put` as written over that `_put` leaves a black node at the root |
| `BstAsWritten.BalanceAsWrittenKeys` | lib/bst.js:150-166 | the literal balance step never adds a key |
| `BstAsWritten.PutNodeAsWrittenKeys` | lib/bst.js:130-168 | the literal `_put` never adds a key other than its own |
| `BstAsWritten.PutAsWrittenLosesKeys` | lib/bst.js:159 | as written, `put(3)`, `put(2)`, `put(1)` leave only key 3 |
| `BstAsWritten.PutCorrectedKeepsKeys` | lib/bst.js:159 | with the rotation result kept, the same insertions keep keys 1, 2 and 3 |
| `BstAsWritten.FindNodeAsWritten` | lib/bst.js:183-196 | a node the literal walk (which always takes the right link) returns holds `key`, and `key` is present |
| `BstAsWritten.FindAsWrittenMisses` | lib/bst.js:189 | after `put(2)`, `put(1)` the literal walk misses key 1 although it is stored |
| `BstAsWritten.CountRangeNegative` | lib/bst.js:443-451 | on a one-node tree holding 3, `countRange(3, 3, true, true)` as written is -1; the guarded count is 0 |
| `DoublyLinkedList.Node.constructor` | lib/linked-list.js:9-15 | a fresh node holds the value and has no neighbours |
| `DoublyLinkedList.FilterSeq` | lib/linked-list.js:336-338 | keeps only values satisfying the predicate, all drawn from the list |
| `DoublyLinkedList.FilterKeepsMatches` | lib/linked-list.js:336-338 | a value is kept iff it is in the list and satisfies the predicate |
| `DoublyLinkedList.FilterConcat` | lib/linked-list.js:336-338 | filtering a concatenation filters each part |
| `DoublyLinkedList.FilterIdempotent` | lib/linked-list.js:336-338 | filtering twice by the same predicate equals filtering once |
| `DoublyLinkedList.MapSeq` | lib/linked-list.js:340-342 | the same length, the i-th value mapped |
| `DoublyLinkedList.MapConcat` | lib/linked-list.js:340-342 | mapping a concatenation maps each part |
| `DoublyLinkedList.FoldLeft` | lib/linked-list.js:344-346 | `reduce` with an initial value: on a non-empty list the callback is applied last to the last value, after folding all the others |
| `DoublyLinkedList.FoldLeftConcat` | lib/linked-list.js:344-346 | folding a concatenation folds the second part from the result of the first |
| `DoublyLinkedList.LinkedList.constructor` | lib/linked-list.js:23-32 | from an array: the list holds its values in order with `count` its length; otherwise empty with `first == last == null` |
| `DoublyLinkedList.LinkedList.AddFirst` | lib/linked-list.js:117-128 | prepends a fresh node holding the value, raises `count` by 1, sets `last` too on an empty list |
| `DoublyLinkedList.LinkedList.AddLast` | lib/linked-list.js:136-147 | appends a fresh node holding the value, raises `count` by 1, sets `first` too on an empty list |
| `DoublyLinkedList.LinkedList.AddAfter` | lib/linked-list.js:69-85 | inserts a fresh node right after `node`, raises `count` by 1, moves `last` when `node` was last; null leaves the list unchanged |
| `DoublyLinkedList.LinkedList.AddBefore` | lib/linked-list.js:94-109 | inserts a fresh node right before `node`, raises `count` by 1, moves `first` when `node` was first; null leaves the list unchanged |
| `DoublyLinkedList.LinkedList.RemoveNode` | lib/linked-list.js:155-181 | removes exactly `node`, keeps the order of the rest, lowers `count` by 1, fixes `first`/`last`; null leaves the list unchanged |
| `DoublyLinkedList.LinkedList.RemoveFirst` | lib/linked-list.js:188-191 | drops the first value, a no-op on an empty list |
| `DoublyLinkedList.LinkedList.RemoveLast` | lib/linked-list.js:199-202 | drops the last value, a no-op on an empty list |
| `DoublyLinkedList.LinkedList.FindByPosition` | lib/linked-list.js:210-227 | the node at 0-based position `pos` when `0 <= pos < count`, null otherwise |
| `DoublyLinkedList.LinkedList.FindByValue` | lib/linked-list.js:236-250 | null iff the value is absent; otherwise a node holding it with no earlier occurrence (no later one with `getLast`) |
| `DoublyLinkedList.LinkedList.ToArray` | lib/linked-list.js:259-279 | the values from first to last |
| `DoublyLinkedList.LinkedList.Clear` | lib/linked-list.js:286-291 | an empty valid list with `count` 0 and no ends |
| `DoublyLinkedList.LinkedList.Equals` | lib/linked-list.js:303-332 | false for null; otherwise true iff the lengths agree and every pair of values is equal under the comparator (or `==`) |
| `DoublyLinkedList.LinkedList.Filter` | lib/linked-list.js:336-338 | a fresh valid list of the values satisfying the predicate, in order |
| `DoublyLinkedList.LinkedList.Map` | lib/linked-list.js:340-342 | a fresh valid list of the mapped values, in order |
| `DoublyLinkedList.LinkedList.Reduce` | lib/linked-list.js:344-346 | the left fold of the values from first to last |

## Left out

- `compareIsLess` (lib/bst.js:29-35): keys are `int` with their native order. Most queries in the source bypass the comparator and use `<`, `>` and `===` anyway.
- `Bst.BinarySearchTree.constructor`: the object form (`data`/`keyLambda`/`keyPredicate`, lib/bst.js:50-56) is not modelled. Neither is the truthiness test `arr[i].key && arr[i].value` (lib/bst.js:41) that selects key-value pairs; every element is taken as a value.
- BST `filter` and `map` (lib/bst.js:479-485): they rebuild a tree from `toArray()` entries through the key-value form of the array constructor, which is not modelled (see above).
- BST `reduce` (lib/bst.js:487-489): it builds no tree. It is the array `reduce` over `toArray()`, that is the left fold `DoublyLinkedList.FoldLeft` applied to the entries `Bst.BinarySearchTree.ToArray` returns; it has no member of its own.
- Node identity in the tree: nodes are values. The source's in-place field rewrites give the same result because no tree node is shared.
- Callbacks in `iterate`, `iterateRange` and `reduce` of the tree, and in `filter`, `map` and `reduce` of the list (lib/linked-list.js:336-346): traversals return the visited sequence, and `FilterSeq`, `MapSeq` and `FoldLeft` pass the callback only the value (and the accumulator). The index and array arguments that JavaScript's array `filter`, `map` and `reduce` also pass, and callback side effects, are not modelled.
- Range callbacks `fromFunc`/`toFunc` (lib/bst.js:328-356): modelled as bounds with inclusive/exclusive flags.
- `DoublyLinkedList.LinkedList.AddAfter`: reuse of `val` when it is already a `Node` (lib/linked-list.js:72) is not modelled; a fresh node is always made. `getNewNode` (lib/linked-list.js:58-60) is therefore a plain `Node` construction.
- `DoublyLinkedList.LinkedList.AddAfter`, `AddBefore` and `RemoveNode` require the node to belong to this list or be null. The source accepts a node from another list and would corrupt both lists. `removeNode` (lib/linked-list.js:156) also lets any other truthy non-`Node` object through, which sets `first`/`last` to `undefined` and lowers `count`; the `Node?` parameter type rules that out.
- `DoublyLinkedList.LinkedList.Equals`: values are compared with `==`, not with JavaScript reference identity for objects.
- Three tests in the source never change the outcome, so the model has no branch for them:
  - lib/linked-list.js:307 parses as `(!list) instanceof LinkedList`. That is `false instanceof LinkedList`, which is always false, so the type check never fires.
  - lib/linked-list.js:328 runs after the loop, which stops only once `n1` or `n2` is null. Its test that both are non-null is therefore always false.
  - lib/bst.js:157 tests `this.left`, a field the tree object never has. It is `undefined`, so `!== null` always holds.
- The `if (node)` test at lib/bst.js:151 always holds, because `node` was dereferenced on the line before.
- JavaScript number semantics (floating point, `NaN`, truthiness of 0 as a position or a flag): positions and keys are unbounded integers. `getLast` is a boolean. A missing `pos` or `val` is `None`.
- `iterate` of the list (lib/linked-list.js:259-266) is modelled through `ToArray`, which collects the values it visits.
- `index.js` (re-exports only) and the timing script under `perf-test/` are outside the model.

## Findings

| source | as written | input that shows it | evidently intended | confidence | as-written member | corrected member |
|---|---|---|---|---|---|---|
| lib/bst.js:159 | `this._rotateRight(node)` drops the rotated subtree root, so the old left child and everything below it on the left is lost | `put(3)`, `put(2)`, `put(1)` leaves only key 3 | `node = this._rotateRight(node)`: every key is kept and the LLRB shape holds | not executed | `BstAsWritten.PutAsWrittenLosesKeys` | `BstBalance.PutNodeContents` |
| lib/bst.js:189 | the descent compares `this.comparekey`, which is undefined, so it always goes right | `put(2)`, `put(1)`, then `getValue(1)` gives null | compare `key` with `node.key`, as `_put` does at line 135 | not executed | `BstAsWritten.FindAsWrittenMisses` | `Bst.BinarySearchTree.FindNode` |
| lib/bst.js:443-451 | no guard for an empty range, so keys at or below `from` and at or above `to` are counted twice | a tree holding 3, `countRange(3, 3, true, true)` gives -1 | 0 for an empty range (`from > to`, or `from == to` with both ends excluded) | not executed | `BstAsWritten.CountRangeNegative` | `BstQuery.CountRangeCheckedCorrect` |
