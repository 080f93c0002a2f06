/**
 * The `BinarySearchTree` object of lib/bst.js: the field `root` that `put`
 * replaces, and the public operations over it. Keys are integers; a stored
 * value is a `Value`, an integer or `undefined`.
 *
 * `Valid()` is the class invariant: the search-tree order, the size
 * augmentation and the left-leaning red-black shape with a black root. The
 * constructor establishes it and `Put` keeps it; the queries rely on it.
 */
module Bst {
  import opened Wrappers
  import opened BstNode
  import opened BstBalance
  import opened BstQuery

  /**
   * `_inOrderTraversal` (lib/bst.js:308-314) with the callback that pushes
   * `f(node)` onto an array, as `toKeyArray`, `toValueArray` and `toArray`
   * (lib/bst.js:453-475) use it: the array grows by `f` of each entry in
   * key order.
   */
  method PushInOrder<V, T>(t: Tree<V>, f: Entry<V> -> T, arr: seq<T>) returns (out: seq<T>)
    ensures |out| == |arr| + |InOrder(t)|
    ensures out[..|arr|] == arr
    ensures forall i :: 0 <= i < |InOrder(t)| ==> out[|arr| + i] == f(InOrder(t)[i])
    decreases t
  {
    if t.Leaf? {
      return arr;
    }
    var afterLeft := PushInOrder(t.left, f, arr);
    var afterNode := afterLeft + [f(Entry(t.key, t.value))];
    out := PushInOrder(t.right, f, afterNode);
    var a, b := InOrder(t.left), InOrder(t.right);
    assert InOrder(t) == a + [Entry(t.key, t.value)] + b;
    forall i | 0 <= i < |InOrder(t)| ensures out[|arr| + i] == f(InOrder(t)[i]) {
      if i < |a| {
        assert out[|arr| + i] == out[..|afterNode|][|arr| + i];
      } else if i == |a| {
        assert out[|arr| + i] == out[..|afterNode|][|arr| + i];
      } else {
        assert out[|arr| + i] == out[|afterNode| + (i - |a| - 1)];
      }
    }
    assert out[..|arr|] == out[..|afterNode|][..|arr|];
  }

  /**
   * A value as the tree stores it: `Some(n)`, or `None` for `undefined`. A
   * node created without a value holds its key (lib/bst.js:13), but
   * overwriting an existing key without a value stores `undefined`
   * (lib/bst.js:134).
   */
  type Value = Option<int>

  /**
   * One step of the constructor's loop: after the elements `seen` were put
   * without values, a `put(y)` with no value gives the tree the keys of
   * `seen + [y]`; an element seen once holds itself and a repeated one holds
   * `undefined`.
   */
  lemma PutOfElement(data: seq<int>, i: int, before: Tree<Value>, after: Tree<Value>)
    requires 0 <= i < |data|
    requires Keys(before) == set x | x in data[..i]
    requires forall x :: x in data[..i] ==> Find(before, x) == Some(if multiset(data[..i])[x] == 1 then Some(x) else None)
    requires Keys(after) == Keys(before) + {data[i]}
    requires data[i] in Keys(before) ==> Find(after, data[i]) == Some(None)
    requires data[i] !in Keys(before) ==> Find(after, data[i]) == Some(Some(data[i]))
    requires forall j :: j != data[i] ==> Find(after, j) == Find(before, j)
    ensures var grown := data[..i + 1];
      && Keys(after) == (set x | x in grown)
      && forall x :: x in grown ==> Find(after, x) == Some(if multiset(grown)[x] == 1 then Some(x) else None)
  {
    var seen, y := data[..i], data[i];
    var grown := seen + [y];
    assert data[..i + 1] == grown;
    assert (set x | x in grown) == (set x | x in seen) + {y};
    forall x | x in grown
      ensures Find(after, x) == Some(if multiset(grown)[x] == 1 then Some(x) else None)
    {
      Occurrences(seen, y, x);
      if x != y {
        assert x in seen;
      }
    }
  }

  /** How often `x` occurs once `y` is appended to `seen`. */
  lemma Occurrences(seen: seq<int>, y: int, x: int)
    ensures multiset(seen + [y])[x] == multiset(seen)[x] + (if x == y then 1 else 0)
    ensures x in seen <==> multiset(seen)[x] > 0
  {
    assert multiset(seen + [y]) == multiset(seen) + multiset{y};
  }

  /** A sequence holding the keys of `s`, position by position, holds exactly the keys of `s`. */
  lemma KeysOfEntries<V>(keys: seq<int>, s: seq<Entry<V>>)
    requires |keys| == |s|
    requires forall i :: 0 <= i < |keys| ==> keys[i] == s[i].key
    ensures forall k :: k in keys <==> k in KeySet(s)
  {
    forall k | k in keys ensures k in KeySet(s) {
      var i :| 0 <= i < |keys| && keys[i] == k;
    }
    forall k | k in KeySet(s) ensures k in keys {
      var i :| 0 <= i < |s| && s[i].key == k;
      assert keys[i] == k;
    }
  }

  /**
   * `put(key, val)` twice leaves the tree exactly as one call left it, when a
   * value is given or the key was already present: the second call only
   * overwrites the value with the one the key already holds.
   */
  lemma PutIdempotent(t: Tree<Value>, key: int, val: Option<int>)
    requires Ordered(t) && CountsOk(t) && IsLLRB(t)
    requires val.Some? || key in Keys(t)
    ensures var created := Some(val.GetOr(key));
      var once := Blacken(PutNode(t, key, created, val));
      Blacken(PutNode(once, key, created, val)) == once
  {
    var created := Some(val.GetOr(key));
    var grown := PutNode(t, key, created, val);
    PutNodeContents(t, key, created, val);
    PutNodeCounts(t, key, created, val);
    PutKeepsLLRB(t, key, created, val);
    BlackenKeepsContents(grown);
    var once := Blacken(grown);
    OverwriteOnlyValue(once, key, created, val);
    SetValueSame(once, key, val);
  }

  /**
   * Without a value, `put(key)` twice on a new key is not idempotent: the
   * first call stores the key itself (lib/bst.js:13), the second overwrites
   * it with `undefined` (lib/bst.js:134).
   */
  lemma PutTwiceWithoutValue(t: Tree<Value>, key: int)
    requires Ordered(t) && key !in Keys(t)
    ensures var once := Blacken(PutNode(t, key, Some(key), None));
      var twice := Blacken(PutNode(once, key, Some(key), None));
      && Find(once, key) == Some(Some(key))
      && Find(twice, key) == Some(None)
      && twice != once
  {
    var grown := PutNode(t, key, Some(key), None);
    PutNodeContents(t, key, Some(key), None);
    BlackenKeepsContents(grown);
    var once := Blacken(grown);
    PutNodeContents(once, key, Some(key), None);
    BlackenKeepsContents(PutNode(once, key, Some(key), None));
  }

  class BinarySearchTree {
    /** The root node; `Leaf` is the empty tree (`this.root = null`). */
    var root: Tree<Value>

    /** The invariants `put` maintains: order, sizes, and the left-leaning red-black shape with a black root. */
    ghost predicate Valid()
      reads this
    {
      Ordered(root) && CountsOk(root) && IsLLRB(root) && !IsRed(root)
    }

    /**
     * The constructor's array-of-values form (lib/bst.js:27-48 with
     * `this.put(arr[i])`): each element is put in turn with no value. The
     * first occurrence of an element creates its node holding the element
     * itself; a repeated element overwrites it with `undefined`. An absent
     * argument is the empty sequence.
     */
    constructor (data: seq<int>)
      ensures Valid()
      ensures Keys(root) == set x | x in data
      ensures forall x :: x in data ==> Find(root, x) == Some(if multiset(data)[x] == 1 then Some(x) else None)
      ensures CountOf(root) == |set x | x in data|
    {
      root := Leaf;
      new;
      var i := 0;
      while i < |data|
        invariant 0 <= i <= |data|
        invariant Valid()
        invariant Keys(root) == set x | x in data[..i]
        invariant forall x :: x in data[..i] ==> Find(root, x) == Some(if multiset(data[..i])[x] == 1 then Some(x) else None)
      {
        ghost var before := root;
        Put(data[i], None);
        PutOfElement(data, i, before, root);
        i := i + 1;
      }
      assert data[..i] == data;
      CountIsSize(root);
      DistinctKeys(root);
    }

    /**
     * `put` (lib/bst.js:177-181): `_put` from the root, then blacken the root.
     * `val` is the argument as passed, `None` when it is left out. A new key
     * gets a node holding `val`, or the key itself when `val` is undefined
     * (lib/bst.js:13); an existing key is overwritten with `val` as passed,
     * so `put(k)` on a stored key stores `undefined` (lib/bst.js:134).
     */
    method Put(key: int, val: Option<int>)
      requires Valid()
      modifies this
      ensures Valid()
      ensures root == Blacken(PutNode(old(root), key, Some(val.GetOr(key)), val))
      ensures Keys(root) == old(Keys(root)) + {key}
      ensures key in old(Keys(root)) ==> Find(root, key) == Some(val)
      ensures key !in old(Keys(root)) ==> Find(root, key) == Some(Some(val.GetOr(key)))
      ensures forall j :: j != key ==> Find(root, j) == old(Find(root, j))
      ensures CountOf(root) == old(CountOf(root)) + (if key in old(Keys(root)) then 0 else 1)
    {
      var created := Some(val.GetOr(key));
      PutNodeContents(root, key, created, val);
      PutNodeCounts(root, key, created, val);
      PutKeepsLLRB(root, key, created, val);
      root := PutNode(root, key, created, val);
      BlackenKeepsContents(root);
      root := Blacken(root);
    }

    /**
     * `_findNode` (lib/bst.js:183-196): a cursor descends from the root and
     * stops at the node holding the key, or falls off at null (`Leaf`).
     *
     * Deviation from the source as written: line 189 compares the undefined
     * field `this.comparekey` instead of `key`, so the walk always turns
     * right. This descent compares `key`, as `_put` does at line 135; the
     * literal reading is `BstAsWritten.FindNodeAsWritten`.
     */
    method FindNode(key: int) returns (node: Tree<Value>)
      ensures node.Node? ==> node.key == key && Find(root, key) == Some(node.value)
      ensures node.Leaf? ==> Find(root, key) == None
    {
      node := root;
      while node.Node?
        invariant Find(node, key) == Find(root, key)
        decreases node
      {
        if node.key == key {
          return;
        }
        if key < node.key {
          node := node.left;
        } else {
          node := node.right;
        }
      }
    }

    /**
     * `getValue` (lib/bst.js:204-211): the value stored under the key, which
     * may be `undefined` (`Some(None)`), or null (`None`) when the key is absent.
     */
    method GetValue(key: int) returns (r: Option<Value>)
      requires Valid()
      ensures r.Some? <==> key in Keys(root)
      ensures r.Some? ==> Entry(key, r.value) in InOrder(root)
    {
      var node := FindNode(key);
      if node.Node? {
        r := Some(node.value);
      } else {
        r := None;
      }
      FindIffKey(root, key);
      if r.Some? {
        FindIffStored(root, key, r.value);
      }
    }

    /** `min` (lib/bst.js:218-228): the value of the leftmost node, which holds the least key; null (`None`) when empty. */
    method Min() returns (r: Option<Value>)
      requires Valid()
      ensures r.None? <==> root.Leaf?
      ensures r.Some? ==>
        var least := InOrder(root)[0];
        && least.value == r.value
        && least.key in Keys(root)
        && (forall k :: k in Keys(root) ==> least.key <= k)
        && Find(root, least.key) == r
    {
      var node := root;
      if node.Leaf? {
        return None;
      }
      while node.left.Node?
        invariant node.Node? && InOrder(node)[0] == InOrder(root)[0]
        decreases node
      {
        assert InOrder(node) == InOrder(node.left) + ([Entry(node.key, node.value)] + InOrder(node.right));
        node := node.left;
      }
      r := Some(node.value);
      ExtremesOfInOrder(root);
      FindIffStored(root, InOrder(root)[0].key, node.value);
    }

    /** `max` (lib/bst.js:235-245): the value of the rightmost node, which holds the greatest key; null (`None`) when empty. */
    method Max() returns (r: Option<Value>)
      requires Valid()
      ensures r.None? <==> root.Leaf?
      ensures r.Some? ==>
        var greatest := InOrder(root)[|InOrder(root)| - 1];
        && greatest.value == r.value
        && greatest.key in Keys(root)
        && (forall k :: k in Keys(root) ==> k <= greatest.key)
        && Find(root, greatest.key) == r
    {
      var node := root;
      if node.Leaf? {
        return None;
      }
      while node.right.Node?
        invariant node.Node? && InOrder(node)[|InOrder(node)| - 1] == InOrder(root)[|InOrder(root)| - 1]
        decreases node
      {
        assert InOrder(node) == (InOrder(node.left) + [Entry(node.key, node.value)]) + InOrder(node.right);
        node := node.right;
      }
      r := Some(node.value);
      ExtremesOfInOrder(root);
      FindIffStored(root, InOrder(root)[|InOrder(root)| - 1].key, node.value);
    }

    /** `floor` (lib/bst.js:266-270): the greatest key <= x (the key, not the value), or null. */
    function Floor(x: int): (r: Option<int>)
      reads this
      requires Valid()
      ensures r.Some? ==> r.value in Keys(root) && r.value <= x
      ensures r.Some? ==> forall k :: k in Keys(root) && k <= x ==> k <= r.value
      ensures r.None? ==> forall k :: k in Keys(root) ==> x < k
    {
      var node := FloorNode(x, root);
      if node.Node? then Some(node.key) else None
    }

    /** `ceiling` (lib/bst.js:291-295): the least key >= x (the key, not the value), or null. */
    function Ceiling(x: int): (r: Option<int>)
      reads this
      requires Valid()
      ensures r.Some? ==> r.value in Keys(root) && x <= r.value
      ensures r.Some? ==> forall k :: k in Keys(root) && x <= k ==> r.value <= k
      ensures r.None? ==> forall k :: k in Keys(root) ==> k < x
    {
      var node := CeilingNode(x, root);
      if node.Node? then Some(node.key) else None
    }

    /** `delete` (lib/bst.js:303-306): looks the key up and leaves the tree as it is. */
    method Delete(key: int)
      requires Valid()
      ensures root == old(root)
    {
      var node := FindNode(key);
    }

    /** `countLess` (lib/bst.js:392-394): the number of keys < x. */
    function CountLess(x: int): (r: int)
      reads this
      requires Valid()
      ensures r == NodesBelow(root, x, false)
    {
      CountLessCorrect(x, root, false);
      CountLessNode(x, root, false)
    }

    /** `countLessOrEqual` (lib/bst.js:401-403): the number of keys <= x. */
    function CountLessOrEqual(x: int): (r: int)
      reads this
      requires Valid()
      ensures r == NodesBelow(root, x, true)
    {
      CountLessCorrect(x, root, true);
      CountLessNode(x, root, true)
    }

    /** `countGreater` (lib/bst.js:422-424): the number of keys > x. */
    function CountGreater(x: int): (r: int)
      reads this
      requires Valid()
      ensures r == NodesAbove(root, x, false)
    {
      CountGreaterCorrect(x, root, false);
      CountGreaterNode(x, root, false)
    }

    /** `countGreaterOrEqual` (lib/bst.js:431-433): the number of keys >= x. */
    function CountGreaterOrEqual(x: int): (r: int)
      reads this
      requires Valid()
      ensures r == NodesAbove(root, x, true)
    {
      CountGreaterCorrect(x, root, true);
      CountGreaterNode(x, root, true)
    }

    /** The rank counts split the tree: below x and at-or-above x together are all the nodes, and likewise at x itself. */
    lemma CountsPartition(x: int)
      requires Valid()
      ensures CountLess(x) + CountGreaterOrEqual(x) == CountOf(root)
      ensures CountLessOrEqual(x) + CountGreater(x) == CountOf(root)
    {
      RankSplit(root, x, false);
      RankSplit(root, x, true);
      CountIsSize(root);
    }

    /**
     * `countRange` (lib/bst.js:443-451), with the guard for a reversed range
     * that the source lacks: the number of keys between `from` and `to`,
     * `from` left out when `excludeFrom` and `to` when `excludeTo`. The
     * unguarded formula is `BstQuery.CountRangeNode`.
     */
    function CountRange(from: int, to: int, excludeFrom: bool, excludeTo: bool): (r: int)
      reads this
      requires Valid()
      ensures root.Leaf? ==> r == 0
      ensures r == NodesInRange(root, from, to, excludeFrom, excludeTo)
    {
      CountRangeCheckedCorrect(root, from, to, excludeFrom, excludeTo);
      CountRangeChecked(root, from, to, excludeFrom, excludeTo)
    }

    /**
     * `iterateRange` (lib/bst.js:352-356) with the bounds given as a range
     * (`fromFunc` and `toFunc` as lower and upper bound with exclusion flags):
     * the entries visited, which are exactly the in-range entries in key order.
     */
    function IterateRange(from: int, to: int, excludeFrom: bool, excludeTo: bool): (visited: seq<Entry<Value>>)
      reads this
      requires Valid()
      ensures visited == EntriesInRange(InOrder(root), from, to, excludeFrom, excludeTo)
    {
      RangeTraversalCorrect(root, from, to, excludeFrom, excludeTo);
      RangeTraversal(root, from, to, excludeFrom, excludeTo)
    }

    /**
     * `_findRangeRoot` (lib/bst.js:358-373): descend to the first node whose
     * key lies in [from, to]; every key of the tree in that range lies in the
     * returned subtree, and null means there is none.
     */
    method FindRangeRoot(from: int, to: int) returns (node: Tree<Value>)
      requires Valid()
      ensures node.Node? ==> from <= node.key <= to && node.key in Keys(root)
      ensures Keys(node) <= Keys(root)
      ensures forall k :: k in Keys(root) && from <= k <= to ==> k in Keys(node)
    {
      node := root;
      while node.Node?
        invariant Ordered(node) && Keys(node) <= Keys(root)
        invariant forall k :: k in Keys(root) && from <= k <= to ==> k in Keys(node)
        decreases node
      {
        if from <= node.key && node.key <= to {
          return;
        }
        if to <= node.key {
          node := node.left;
        } else if from >= node.key {
          node := node.right;
        } else {
          return Leaf;
        }
      }
    }

    /** `toKeyArray` (lib/bst.js:461-467): the keys in in-order, strictly increasing, one per node. */
    method ToKeyArray() returns (keys: seq<int>)
      requires Valid()
      ensures |keys| == |InOrder(root)| == CountOf(root)
      ensures forall i :: 0 <= i < |keys| ==> keys[i] == InOrder(root)[i].key
      ensures forall i, j :: 0 <= i < j < |keys| ==> keys[i] < keys[j]
      ensures forall k :: k in keys <==> k in Keys(root)
    {
      keys := PushInOrder(root, (e: Entry<Value>) => e.key, []);
      CountIsSize(root);
      OrderedIffSorted(root);
      KeysInOrder(root);
      KeysOfEntries(keys, InOrder(root));
    }

    /** `toValueArray` (lib/bst.js:453-459): the values in key order; the i-th is the one stored under the i-th key. */
    method ToValueArray() returns (values: seq<Value>)
      requires Valid()
      ensures |values| == |InOrder(root)| == CountOf(root)
      ensures forall i :: 0 <= i < |values| ==> values[i] == InOrder(root)[i].value
      ensures forall i :: 0 <= i < |values| ==> Find(root, InOrder(root)[i].key) == Some(values[i])
    {
      values := PushInOrder(root, (e: Entry<Value>) => e.value, []);
      CountIsSize(root);
      forall i | 0 <= i < |values| ensures Find(root, InOrder(root)[i].key) == Some(values[i]) {
        FindIffStored(root, InOrder(root)[i].key, values[i]);
      }
    }

    /** `toArray` (lib/bst.js:469-475): the { key, value } pairs in strictly increasing key order. */
    method ToArray() returns (entries: seq<Entry<Value>>)
      requires Valid()
      ensures |entries| == CountOf(root)
      ensures entries == InOrder(root)
      ensures Sorted(entries)
    {
      entries := PushInOrder(root, (e: Entry<Value>) => e, []);
      CountIsSize(root);
      OrderedIffSorted(root);
    }
  }
}
