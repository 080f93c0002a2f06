/**
 * The nodes of the order-statistics left-leaning red-black tree of lib/bst.js,
 * and the views of a subtree that the rest of the model is specified against:
 * its in-order entries, its key set, the search-tree order, the stored sizes
 * and the key lookup.
 *
 * A node is a value here: `Leaf` stands for JavaScript `null`, and a subtree
 * is its root node.
 */
module BstNode {
  import opened Wrappers

  /** A key-value pair, as `toArray` materialises it ({ key, value }). */
  datatype Entry<V> = Entry(key: int, value: V)

  /**
   * A node of lib/bst.js: key, value, the two children, `count` (the stored
   * number of nodes of the subtree, the order-statistics augmentation) and
   * `isRed` (the colour of the link from the parent to this node).
   */
  datatype Tree<V> =
    | Leaf
    | Node(key: int, value: V, left: Tree<V>, right: Tree<V>, count: nat, isRed: bool)

  /** `_isRed`: a null link is black. */
  predicate IsRed<V>(t: Tree<V>)
    ensures IsRed(t) ==> t.Node?
  {
    t.Node? && t.isRed
  }

  /** `_count`: the stored subtree size, 0 for a null link. */
  function CountOf<V>(t: Tree<V>): nat {
    if t.Leaf? then 0 else t.count
  }

  /** `_inOrderTraversal`, as the sequence of entries it visits. */
  function InOrder<V>(t: Tree<V>): (s: seq<Entry<V>>)
    ensures |s| == 0 <==> t.Leaf?
  {
    match t
    case Leaf => []
    case Node(k, v, l, r, _, _) => InOrder(l) + [Entry(k, v)] + InOrder(r)
  }

  /** The keys stored in a subtree. */
  function Keys<V>(t: Tree<V>): set<int> {
    match t
    case Leaf => {}
    case Node(k, _, l, r, _, _) => Keys(l) + {k} + Keys(r)
  }

  /** The keys of a sequence of entries. */
  function KeySet<V>(s: seq<Entry<V>>): set<int> {
    set i | 0 <= i < |s| :: s[i].key
  }

  /** Binary-search-tree order: every key of a left subtree is smaller, every key of a right subtree larger. */
  ghost predicate Ordered<V>(t: Tree<V>) {
    match t
    case Leaf => true
    case Node(k, _, l, r, _, _) =>
      && Ordered(l) && Ordered(r)
      && (forall x :: x in Keys(l) ==> x < k)
      && (forall x :: x in Keys(r) ==> k < x)
  }

  /** Strictly increasing keys. */
  ghost predicate Sorted<V>(s: seq<Entry<V>>) {
    forall i, j :: 0 <= i < j < |s| ==> s[i].key < s[j].key
  }

  /** The size augmentation: every stored `count` is 1 + count(left) + count(right). */
  ghost predicate CountsOk<V>(t: Tree<V>) {
    match t
    case Leaf => true
    case Node(_, _, l, r, c, _) => c == CountOf(l) + CountOf(r) + 1 && CountsOk(l) && CountsOk(r)
  }

  /** Descent by key from a subtree root: the value stored under `k` on the search path. */
  function Find<V>(t: Tree<V>, k: int): (r: Option<V>)
    ensures r.Some? ==> k in Keys(t) && Entry(k, r.value) in InOrder(t)
  {
    match t
    case Leaf => None
    case Node(key, v, l, r, _, _) =>
      if key == k then Some(v)
      else if k < key then Find(l, k)
      else Find(r, k)
  }

  lemma KeySetConcat<V>(a: seq<Entry<V>>, b: seq<Entry<V>>)
    ensures KeySet(a + b) == KeySet(a) + KeySet(b)
  {
    var s := a + b;
    forall k | k in KeySet(s) ensures k in KeySet(a) + KeySet(b) {
      var i :| 0 <= i < |s| && s[i].key == k;
      if i < |a| {
        assert a[i] == s[i];
      } else {
        assert b[i - |a|] == s[i];
      }
    }
    forall k | k in KeySet(a) + KeySet(b) ensures k in KeySet(s) {
      if k in KeySet(a) {
        var i :| 0 <= i < |a| && a[i].key == k;
        assert s[i] == a[i];
      } else {
        var i :| 0 <= i < |b| && b[i].key == k;
        assert s[|a| + i] == b[i];
      }
    }
  }

  /** The key set of a subtree is the key set of its in-order traversal. */
  lemma {:induction false} KeysInOrder<V>(t: Tree<V>)
    ensures Keys(t) == KeySet(InOrder(t))
  {
    match t
    case Leaf =>
    case Node(k, v, l, r, _, _) =>
      KeysInOrder(l);
      KeysInOrder(r);
      KeySetConcat(InOrder(l), [Entry(k, v)]);
      KeySetConcat(InOrder(l) + [Entry(k, v)], InOrder(r));
      assert KeySet([Entry(k, v)]) == {k} by {
        assert [Entry(k, v)][0].key == k;
      }
  }

  /** Sortedness of `a + [e] + b` splits into sortedness of the parts and the position of `e`. */
  lemma SortedSplit<V>(a: seq<Entry<V>>, e: Entry<V>, b: seq<Entry<V>>)
    ensures Sorted(a + [e] + b) <==>
      && Sorted(a) && Sorted(b)
      && (forall i :: 0 <= i < |a| ==> a[i].key < e.key)
      && (forall j :: 0 <= j < |b| ==> e.key < b[j].key)
  {
    var s := a + [e] + b;
    assert forall i :: 0 <= i < |a| ==> s[i] == a[i];
    assert s[|a|] == e;
    assert forall j :: 0 <= j < |b| ==> s[|a| + 1 + j] == b[j];
    if Sorted(s) {
      assert forall i :: 0 <= i < |a| ==> a[i].key < e.key by {
        forall i | 0 <= i < |a| ensures a[i].key < e.key {
          assert s[i].key < s[|a|].key;
        }
      }
      assert forall j :: 0 <= j < |b| ==> e.key < b[j].key by {
        forall j | 0 <= j < |b| ensures e.key < b[j].key {
          assert s[|a|].key < s[|a| + 1 + j].key;
        }
      }
      assert Sorted(b) by {
        forall i, j | 0 <= i < j < |b| ensures b[i].key < b[j].key {
          assert s[|a| + 1 + i].key < s[|a| + 1 + j].key;
        }
      }
    }
  }

  /** Search-tree order is exactly a strictly increasing in-order key sequence. */
  lemma {:induction false} OrderedIffSorted<V>(t: Tree<V>)
    ensures Ordered(t) <==> Sorted(InOrder(t))
  {
    match t
    case Leaf =>
    case Node(k, v, l, r, _, _) =>
      OrderedIffSorted(l);
      OrderedIffSorted(r);
      KeysInOrder(l);
      KeysInOrder(r);
      var a, b := InOrder(l), InOrder(r);
      SortedSplit(a, Entry(k, v), b);
      assert (forall x :: x in Keys(l) ==> x < k) <==> (forall i :: 0 <= i < |a| ==> a[i].key < k) by {
        if forall i :: 0 <= i < |a| ==> a[i].key < k {
          forall x | x in Keys(l) ensures x < k {
            var i :| 0 <= i < |a| && a[i].key == x;
          }
        }
        if forall x :: x in Keys(l) ==> x < k {
          forall i | 0 <= i < |a| ensures a[i].key < k {
            assert a[i].key in KeySet(a);
          }
        }
      }
      assert (forall x :: x in Keys(r) ==> k < x) <==> (forall j :: 0 <= j < |b| ==> k < b[j].key) by {
        if forall j :: 0 <= j < |b| ==> k < b[j].key {
          forall x | x in Keys(r) ensures k < x {
            var j :| 0 <= j < |b| && b[j].key == x;
          }
        }
        if forall x :: x in Keys(r) ==> k < x {
          forall j | 0 <= j < |b| ensures k < b[j].key {
            assert b[j].key in KeySet(b);
          }
        }
      }
  }

  /** An entry visited by the traversal carries one of the subtree's keys. */
  lemma EntryKeyInKeys<V>(t: Tree<V>, i: int)
    requires 0 <= i < |InOrder(t)|
    ensures InOrder(t)[i].key in Keys(t)
  {
    KeysInOrder(t);
  }

  /**
   * In an ordered subtree the descent finds `v` under `k` exactly when the
   * entry (k, v) is stored somewhere in the subtree.
   */
  lemma {:induction false} FindIffStored<V>(t: Tree<V>, k: int, v: V)
    requires Ordered(t)
    ensures Find(t, k) == Some(v) <==> Entry(k, v) in InOrder(t)
  {
    match t
    case Leaf =>
    case Node(key, w, l, r, _, _) =>
      FindIffStored(l, k, v);
      FindIffStored(r, k, v);
      if Entry(k, v) in InOrder(l) {
        var i :| 0 <= i < |InOrder(l)| && InOrder(l)[i] == Entry(k, v);
        EntryKeyInKeys(l, i);
      }
      if Entry(k, v) in InOrder(r) {
        var i :| 0 <= i < |InOrder(r)| && InOrder(r)[i] == Entry(k, v);
        EntryKeyInKeys(r, i);
      }
  }

  /** The descent finds something exactly for the stored keys of an ordered subtree. */
  lemma {:induction false} FindIffKey<V>(t: Tree<V>, k: int)
    requires Ordered(t)
    ensures Find(t, k).Some? <==> k in Keys(t)
  {
    match t
    case Leaf =>
    case Node(key, w, l, r, _, _) =>
      FindIffKey(l, k);
      FindIffKey(r, k);
  }

  /** Two ordered subtrees with the same traversal answer every lookup alike. */
  lemma SameInOrderSameFind<V>(a: Tree<V>, b: Tree<V>, k: int)
    requires Ordered(a) && Ordered(b) && InOrder(a) == InOrder(b)
    ensures Find(a, k) == Find(b, k)
  {
    if Find(a, k).Some? {
      FindIffStored(a, k, Find(a, k).value);
      FindIffStored(b, k, Find(a, k).value);
    } else if Find(b, k).Some? {
      FindIffStored(a, k, Find(b, k).value);
      FindIffStored(b, k, Find(b, k).value);
    }
  }

  /** Under the size augmentation every stored count is the number of nodes of its subtree. */
  lemma {:induction false} CountIsSize<V>(t: Tree<V>)
    requires CountsOk(t)
    ensures CountOf(t) == |InOrder(t)|
  {
    match t
    case Leaf =>
    case Node(_, _, l, r, _, _) =>
      CountIsSize(l);
      CountIsSize(r);
  }

  /** An ordered subtree stores no key twice: it has as many distinct keys as entries. */
  lemma {:induction false} DistinctKeys<V>(t: Tree<V>)
    requires Ordered(t)
    ensures |Keys(t)| == |InOrder(t)|
  {
    match t
    case Leaf =>
    case Node(k, _, l, r, _, _) =>
      DistinctKeys(l);
      DistinctKeys(r);
      assert k !in Keys(l) && k !in Keys(r);
      assert |Keys(l) + {k}| == |Keys(l)| + 1;
      assert (Keys(l) + {k}) !! Keys(r) by {
        forall x | x in Keys(l) + {k} ensures x !in Keys(r) {
          assert x <= k;
        }
      }
  }

  /** The first in-order entry carries the least key of an ordered subtree, the last one the greatest. */
  lemma ExtremesOfInOrder<V>(t: Tree<V>)
    requires Ordered(t) && t.Node?
    ensures InOrder(t)[0].key in Keys(t) && InOrder(t)[|InOrder(t)| - 1].key in Keys(t)
    ensures forall k :: k in Keys(t) ==> InOrder(t)[0].key <= k <= InOrder(t)[|InOrder(t)| - 1].key
  {
    var s := InOrder(t);
    OrderedIffSorted(t);
    KeysInOrder(t);
    assert s[0].key in KeySet(s) && s[|s| - 1].key in KeySet(s);
    forall k | k in Keys(t) ensures s[0].key <= k <= s[|s| - 1].key {
      var i :| 0 <= i < |s| && s[i].key == k;
    }
  }
}
