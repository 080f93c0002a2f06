/**
 * The read-only recursive queries of lib/bst.js: floor and ceiling nodes,
 * the rank counts that use the stored subtree sizes, and the range
 * traversal. Each is proved against a reference definition that scans the
 * whole subtree (or its in-order sequence) without pruning.
 *
 * These queries compare keys with `<`, `>` and `===` directly, not with the
 * tree's comparator; keys are integers here, so both orders agree.
 */
module BstQuery {
  import opened Wrappers
  import opened BstNode

  /**
   * `_floorNode` (lib/bst.js:247-258): the node with the greatest key <= x,
   * or `Leaf` (null) when there is none.
   */
  function FloorNode<V>(x: int, t: Tree<V>): (r: Tree<V>)
    ensures r.Node? ==> r.key in Keys(t) && r.key <= x
    ensures Ordered(t) && r.Node? ==> forall k :: k in Keys(t) && k <= x ==> k <= r.key
    ensures Ordered(t) && r.Leaf? ==> forall k :: k in Keys(t) ==> x < k
  {
    match t
    case Leaf => Leaf
    case Node(k, _, l, rt, _, _) =>
      if k == x then t
      else if k < x then
        var rightFloor := FloorNode(x, rt);
        if rightFloor.Node? then rightFloor else t
      else FloorNode(x, l)
  }

  /**
   * `_ceilingNode` (lib/bst.js:272-283): the node with the least key >= x,
   * or `Leaf` (null) when there is none.
   */
  function CeilingNode<V>(x: int, t: Tree<V>): (r: Tree<V>)
    ensures r.Node? ==> r.key in Keys(t) && x <= r.key
    ensures Ordered(t) && r.Node? ==> forall k :: k in Keys(t) && x <= k ==> r.key <= k
    ensures Ordered(t) && r.Leaf? ==> forall k :: k in Keys(t) ==> k < x
  {
    match t
    case Leaf => Leaf
    case Node(k, _, l, rt, _, _) =>
      if k == x then t
      else if k > x then
        var leftCeiling := CeilingNode(x, l);
        if leftCeiling.Node? then leftCeiling else t
      else CeilingNode(x, rt)
  }

  /** `key < x`, or `key == x` when equal keys are included. */
  predicate Below(key: int, x: int, inclusive: bool) {
    key < x || (inclusive && key == x)
  }

  /** `key > x`, or `key == x` when equal keys are included. */
  predicate Above(key: int, x: int, inclusive: bool) {
    key > x || (inclusive && key == x)
  }

  /** Reference definition: the number of nodes whose key is below x, by a full scan. */
  function NodesBelow<V>(t: Tree<V>, x: int, inclusive: bool): nat {
    match t
    case Leaf => 0
    case Node(k, _, l, r, _, _) =>
      NodesBelow(l, x, inclusive) + (if Below(k, x, inclusive) then 1 else 0) + NodesBelow(r, x, inclusive)
  }

  /** Reference definition: the number of nodes whose key is above x, by a full scan. */
  function NodesAbove<V>(t: Tree<V>, x: int, inclusive: bool): nat {
    match t
    case Leaf => 0
    case Node(k, _, l, r, _, _) =>
      NodesAbove(l, x, inclusive) + (if Above(k, x, inclusive) then 1 else 0) + NodesAbove(r, x, inclusive)
  }

  /**
   * `_countLess` (lib/bst.js:375-385): keys below x (equal keys counted when
   * `includeEqual`), adding the stored count of each left subtree that lies
   * wholly below x instead of visiting it. The source passes `includeEqual`
   * as the number 0 or 1 and adds it.
   */
  function CountLessNode<V>(x: int, t: Tree<V>, includeEqual: bool): (r: int)
    ensures 0 <= r
    ensures CountsOk(t) ==> r <= CountOf(t)
  {
    match t
    case Leaf => 0
    case Node(k, _, l, r, _, _) =>
      if k == x then CountOf(l) + (if includeEqual then 1 else 0)
      else if k < x then CountOf(l) + 1 + CountLessNode(x, r, includeEqual)
      else CountLessNode(x, l, includeEqual)
  }

  /** `_countGreater` (lib/bst.js:405-415), the mirror image of `_countLess`. */
  function CountGreaterNode<V>(x: int, t: Tree<V>, includeEqual: bool): (r: int)
    ensures 0 <= r
    ensures CountsOk(t) ==> r <= CountOf(t)
  {
    match t
    case Leaf => 0
    case Node(k, _, l, r, _, _) =>
      if k == x then CountOf(r) + (if includeEqual then 1 else 0)
      else if k > x then CountOf(r) + 1 + CountGreaterNode(x, l, includeEqual)
      else CountGreaterNode(x, r, includeEqual)
  }

  /** A subtree whose keys are all below x has every node counted below x and none above. */
  lemma {:induction false} AllBelow<V>(t: Tree<V>, x: int, inclusive: bool)
    requires forall k :: k in Keys(t) ==> k < x
    ensures NodesBelow(t, x, inclusive) == |InOrder(t)|
    ensures NodesAbove(t, x, inclusive) == 0
  {
    match t
    case Leaf =>
    case Node(k, _, l, r, _, _) =>
      assert Keys(t) == Keys(l) + {k} + Keys(r);
      AllBelow(l, x, inclusive);
      AllBelow(r, x, inclusive);
  }

  /** A subtree whose keys are all above x has every node counted above x and none below. */
  lemma {:induction false} AllAbove<V>(t: Tree<V>, x: int, inclusive: bool)
    requires forall k :: k in Keys(t) ==> x < k
    ensures NodesAbove(t, x, inclusive) == |InOrder(t)|
    ensures NodesBelow(t, x, inclusive) == 0
  {
    match t
    case Leaf =>
    case Node(k, _, l, r, _, _) =>
      assert Keys(t) == Keys(l) + {k} + Keys(r);
      AllAbove(l, x, inclusive);
      AllAbove(r, x, inclusive);
  }

  /**
   * On an ordered tree with correct stored counts the pruned `_countLess`
   * equals the full count of keys below x.
   */
  lemma {:induction false} CountLessCorrect<V>(x: int, t: Tree<V>, includeEqual: bool)
    requires Ordered(t) && CountsOk(t)
    ensures CountLessNode(x, t, includeEqual) == NodesBelow(t, x, includeEqual)
  {
    match t
    case Leaf =>
    case Node(k, _, l, r, _, _) =>
      CountIsSize(l);
      if k == x {
        AllBelow(l, x, includeEqual);
        AllAbove(r, x, includeEqual);
      } else if k < x {
        AllBelow(l, x, includeEqual);
        CountLessCorrect(x, r, includeEqual);
      } else {
        AllAbove(r, x, includeEqual);
        CountLessCorrect(x, l, includeEqual);
      }
  }

  /**
   * On an ordered tree with correct stored counts the pruned `_countGreater`
   * equals the full count of keys above x.
   */
  lemma {:induction false} CountGreaterCorrect<V>(x: int, t: Tree<V>, includeEqual: bool)
    requires Ordered(t) && CountsOk(t)
    ensures CountGreaterNode(x, t, includeEqual) == NodesAbove(t, x, includeEqual)
  {
    match t
    case Leaf =>
    case Node(k, _, l, r, _, _) =>
      CountIsSize(r);
      if k == x {
        AllAbove(r, x, includeEqual);
        AllBelow(l, x, includeEqual);
      } else if k > x {
        AllAbove(r, x, includeEqual);
        CountGreaterCorrect(x, l, includeEqual);
      } else {
        AllBelow(l, x, includeEqual);
        CountGreaterCorrect(x, r, includeEqual);
      }
  }

  /**
   * Every node is either below x or at-or-above x (and either at-or-below or
   * above): the two rank counts of a split add up to the tree's size.
   */
  lemma {:induction false} RankSplit<V>(t: Tree<V>, x: int, inclusive: bool)
    ensures NodesBelow(t, x, inclusive) + NodesAbove(t, x, !inclusive) == |InOrder(t)|
  {
    match t
    case Leaf =>
    case Node(_, _, l, r, _, _) =>
      RankSplit(l, x, inclusive);
      RankSplit(r, x, inclusive);
  }

  /** The key lies within both bounds of the range: not below `from` and not above `to`, an excluded end not included. */
  predicate InRange(key: int, from: int, to: int, excludeFrom: bool, excludeTo: bool) {
    !Below(key, from, excludeFrom) && !Above(key, to, excludeTo)
  }

  /** Reference definition: the number of nodes whose key lies in the range, by a full scan. */
  function NodesInRange<V>(t: Tree<V>, from: int, to: int, excludeFrom: bool, excludeTo: bool): nat {
    match t
    case Leaf => 0
    case Node(k, _, l, r, _, _) =>
      NodesInRange(l, from, to, excludeFrom, excludeTo)
      + (if InRange(k, from, to, excludeFrom, excludeTo) then 1 else 0)
      + NodesInRange(r, from, to, excludeFrom, excludeTo)
  }

  /** The number of nodes counted both below `from` and above `to`: nonzero only for a reversed range, or `from == to` with both ends excluded. */
  function NodesBelowAndAbove<V>(t: Tree<V>, from: int, to: int, excludeFrom: bool, excludeTo: bool): nat {
    match t
    case Leaf => 0
    case Node(k, _, l, r, _, _) =>
      NodesBelowAndAbove(l, from, to, excludeFrom, excludeTo)
      + (if Below(k, from, excludeFrom) && Above(k, to, excludeTo) then 1 else 0)
      + NodesBelowAndAbove(r, from, to, excludeFrom, excludeTo)
  }

  /**
   * Inclusion-exclusion over the nodes: size minus the nodes below `from`
   * minus the nodes above `to` is the number in range, less those counted twice.
   */
  lemma {:induction false} RangeInclusionExclusion<V>(t: Tree<V>, from: int, to: int, excludeFrom: bool, excludeTo: bool)
    ensures |InOrder(t)| - NodesBelow(t, from, excludeFrom) - NodesAbove(t, to, excludeTo)
      == NodesInRange(t, from, to, excludeFrom, excludeTo) - NodesBelowAndAbove(t, from, to, excludeFrom, excludeTo)
  {
    match t
    case Leaf =>
    case Node(_, _, l, r, _, _) =>
      RangeInclusionExclusion(l, from, to, excludeFrom, excludeTo);
      RangeInclusionExclusion(r, from, to, excludeFrom, excludeTo);
  }

  /** A proper range (from < to, or from == to not excluded at both ends) counts no node twice. */
  lemma {:induction false} NoDoubleCount<V>(t: Tree<V>, from: int, to: int, excludeFrom: bool, excludeTo: bool)
    requires from < to || (from == to && !(excludeFrom && excludeTo))
    ensures NodesBelowAndAbove(t, from, to, excludeFrom, excludeTo) == 0
  {
    match t
    case Leaf =>
    case Node(_, _, l, r, _, _) =>
      NoDoubleCount(l, from, to, excludeFrom, excludeTo);
      NoDoubleCount(r, from, to, excludeFrom, excludeTo);
  }

  /** A reversed range (from > to, or from == to excluded at both ends) holds no key. */
  lemma {:induction false} EmptyRange<V>(t: Tree<V>, from: int, to: int, excludeFrom: bool, excludeTo: bool)
    requires from > to || (from == to && excludeFrom && excludeTo)
    ensures NodesInRange(t, from, to, excludeFrom, excludeTo) == 0
  {
    match t
    case Leaf =>
    case Node(_, _, l, r, _, _) =>
      EmptyRange(l, from, to, excludeFrom, excludeTo);
      EmptyRange(r, from, to, excludeFrom, excludeTo);
  }

  /**
   * `countRange` (lib/bst.js:443-451) on a subtree: 0 for null, otherwise the
   * stored count minus the keys below `from` (at-or-below when `from` is
   * excluded) minus the keys above `to` (at-or-above when `to` is excluded).
   * There is no guard for a reversed range.
   */
  function CountRangeNode<V>(t: Tree<V>, from: int, to: int, excludeFrom: bool, excludeTo: bool): (r: int)
    ensures r <= CountOf(t)
  {
    if t.Leaf? then 0
    else t.count - CountLessNode(from, t, excludeFrom) - CountGreaterNode(to, t, excludeTo)
  }

  /**
   * On an ordered tree with correct counts, `countRange` is the number of keys
   * in the range minus the keys counted twice; for a proper range that is
   * exactly the number of keys in the range.
   */
  lemma CountRangeCorrect<V>(t: Tree<V>, from: int, to: int, excludeFrom: bool, excludeTo: bool)
    requires Ordered(t) && CountsOk(t)
    ensures CountRangeNode(t, from, to, excludeFrom, excludeTo)
      == NodesInRange(t, from, to, excludeFrom, excludeTo) - NodesBelowAndAbove(t, from, to, excludeFrom, excludeTo)
    ensures from < to || (from == to && !(excludeFrom && excludeTo)) ==>
      CountRangeNode(t, from, to, excludeFrom, excludeTo) == NodesInRange(t, from, to, excludeFrom, excludeTo)
  {
    CountIsSize(t);
    CountLessCorrect(from, t, excludeFrom);
    CountGreaterCorrect(to, t, excludeTo);
    RangeInclusionExclusion(t, from, to, excludeFrom, excludeTo);
    if from < to || (from == to && !(excludeFrom && excludeTo)) {
      NoDoubleCount(t, from, to, excludeFrom, excludeTo);
    }
  }

  /**
   * `countRange` with the evidently intended guard: a reversed range (from > to,
   * or from == to excluded at both ends) counts 0 instead of a negative number.
   */
  function CountRangeChecked<V>(t: Tree<V>, from: int, to: int, excludeFrom: bool, excludeTo: bool): (r: int)
    ensures r <= CountOf(t)
  {
    if from > to || (from == to && excludeFrom && excludeTo) then 0
    else CountRangeNode(t, from, to, excludeFrom, excludeTo)
  }

  /** The guarded count is the number of keys in the range, for every range. */
  lemma CountRangeCheckedCorrect<V>(t: Tree<V>, from: int, to: int, excludeFrom: bool, excludeTo: bool)
    requires Ordered(t) && CountsOk(t)
    ensures CountRangeChecked(t, from, to, excludeFrom, excludeTo) == NodesInRange(t, from, to, excludeFrom, excludeTo)
  {
    if from > to || (from == to && excludeFrom && excludeTo) {
      EmptyRange(t, from, to, excludeFrom, excludeTo);
    } else {
      CountRangeCorrect(t, from, to, excludeFrom, excludeTo);
    }
  }

  /** The lower-bound test of a range traversal (`fromFunc`): the key is not below `from`. */
  predicate FromOk(key: int, from: int, excludeFrom: bool) {
    !Below(key, from, excludeFrom)
  }

  /** The upper-bound test of a range traversal (`toFunc`): the key is not above `to`. */
  predicate ToOk(key: int, to: int, excludeTo: bool) {
    !Above(key, to, excludeTo)
  }

  /**
   * `_traversalRange` (lib/bst.js:328-343), as the sequence of visited entries:
   * the left subtree only when the node passes the lower bound, the node when
   * it passes both, the right subtree only when it passes the upper bound.
   */
  function RangeTraversal<V>(t: Tree<V>, from: int, to: int, excludeFrom: bool, excludeTo: bool): (r: seq<Entry<V>>)
    ensures |r| <= |InOrder(t)|
    ensures forall e :: e in r ==> e in InOrder(t)
  {
    match t
    case Leaf => []
    case Node(k, v, l, r, _, _) =>
      (if FromOk(k, from, excludeFrom) then RangeTraversal(l, from, to, excludeFrom, excludeTo) else [])
      + (if FromOk(k, from, excludeFrom) && ToOk(k, to, excludeTo) then [Entry(k, v)] else [])
      + (if ToOk(k, to, excludeTo) then RangeTraversal(r, from, to, excludeFrom, excludeTo) else [])
  }

  /** Reference definition: the entries of a sequence whose key lies in the range, in order. */
  function EntriesInRange<V>(s: seq<Entry<V>>, from: int, to: int, excludeFrom: bool, excludeTo: bool): (r: seq<Entry<V>>)
    ensures |r| <= |s|
  {
    if s == [] then []
    else
      (if InRange(s[0].key, from, to, excludeFrom, excludeTo) then [s[0]] else [])
      + EntriesInRange(s[1..], from, to, excludeFrom, excludeTo)
  }

  lemma {:induction false} EntriesInRangeConcat<V>(a: seq<Entry<V>>, b: seq<Entry<V>>, from: int, to: int, excludeFrom: bool, excludeTo: bool)
    ensures EntriesInRange(a + b, from, to, excludeFrom, excludeTo)
      == EntriesInRange(a, from, to, excludeFrom, excludeTo) + EntriesInRange(b, from, to, excludeFrom, excludeTo)
  {
    if a == [] {
      assert a + b == b;
    } else {
      var s := a + b;
      var head := if InRange(a[0].key, from, to, excludeFrom, excludeTo) then [a[0]] else [];
      assert s[0] == a[0];
      assert s[1..] == a[1..] + b;
      EntriesInRangeConcat(a[1..], b, from, to, excludeFrom, excludeTo);
      calc {
        EntriesInRange(s, from, to, excludeFrom, excludeTo);
        head + EntriesInRange(a[1..] + b, from, to, excludeFrom, excludeTo);
        head + (EntriesInRange(a[1..], from, to, excludeFrom, excludeTo) + EntriesInRange(b, from, to, excludeFrom, excludeTo));
        (head + EntriesInRange(a[1..], from, to, excludeFrom, excludeTo)) + EntriesInRange(b, from, to, excludeFrom, excludeTo);
      }
    }
  }

  /** No entry of a sequence in range when every key fails one bound. */
  lemma {:induction false} EntriesInRangeNone<V>(s: seq<Entry<V>>, from: int, to: int, excludeFrom: bool, excludeTo: bool)
    requires forall i :: 0 <= i < |s| ==> !InRange(s[i].key, from, to, excludeFrom, excludeTo)
    ensures EntriesInRange(s, from, to, excludeFrom, excludeTo) == []
  {
    if s != [] {
      EntriesInRangeNone(s[1..], from, to, excludeFrom, excludeTo);
    }
  }

  /**
   * On an ordered tree the pruned range traversal visits exactly the in-range
   * entries of the full in-order traversal, in the same order.
   */
  lemma {:induction false} RangeTraversalCorrect<V>(t: Tree<V>, from: int, to: int, excludeFrom: bool, excludeTo: bool)
    requires Ordered(t)
    ensures RangeTraversal(t, from, to, excludeFrom, excludeTo) == EntriesInRange(InOrder(t), from, to, excludeFrom, excludeTo)
  {
    match t
    case Leaf =>
    case Node(k, v, l, r, _, _) =>
      RangeTraversalCorrect(l, from, to, excludeFrom, excludeTo);
      RangeTraversalCorrect(r, from, to, excludeFrom, excludeTo);
      var a, e, b := InOrder(l), [Entry(k, v)], InOrder(r);
      EntriesInRangeConcat(a + e, b, from, to, excludeFrom, excludeTo);
      EntriesInRangeConcat(a, e, from, to, excludeFrom, excludeTo);
      assert EntriesInRange(e, from, to, excludeFrom, excludeTo)
        == if InRange(k, from, to, excludeFrom, excludeTo) then e else [] by {
        assert e[1..] == [];
      }
      if !FromOk(k, from, excludeFrom) {
        forall i | 0 <= i < |a| ensures !InRange(a[i].key, from, to, excludeFrom, excludeTo) {
          EntryKeyInKeys(l, i);
        }
        EntriesInRangeNone(a, from, to, excludeFrom, excludeTo);
      }
      if !ToOk(k, to, excludeTo) {
        forall i | 0 <= i < |b| ensures !InRange(b[i].key, from, to, excludeFrom, excludeTo) {
          EntryKeyInKeys(r, i);
        }
        EntriesInRangeNone(b, from, to, excludeFrom, excludeTo);
      }
  }
}
