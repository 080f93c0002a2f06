/**
 * Insertion into the left-leaning red-black tree of lib/bst.js: the size
 * recount, the two rotations, the colour flip, the bottom-up balance step
 * and `_put`, with the proofs that insertion keeps the search-tree order,
 * the map contents, the size augmentation and the red-black shape.
 *
 * The source rewrites node fields in place; here each step returns the new
 * subtree root, which the caller links in (as `node.left = this._put(...)`
 * does). Nodes are never shared, so the two readings coincide.
 */
module BstBalance {
  import opened Wrappers
  import opened BstNode

  /** `_recalculateCount` (lib/bst.js:68-70): the node's count from its children's stored counts. */
  function Recount<V>(t: Tree<V>): (r: Tree<V>)
    requires t.Node?
    ensures r.Node? && InOrder(r) == InOrder(t) && r.isRed == t.isRed
    ensures CountsOk(t.left) && CountsOk(t.right) ==> CountsOk(r)
  {
    t.(count := CountOf(t.left) + CountOf(t.right) + 1)
  }

  /**
   * `_rotateLeft` (lib/bst.js:72-95). `None` is the `undefined` the source
   * returns when the node is null or its right link is not red.
   */
  function RotateLeft<V>(t: Tree<V>): (r: Option<Tree<V>>)
    ensures r.Some? <==> t.Node? && IsRed(t.right)
    ensures r.Some? ==>
      && r.value.Node? && InOrder(r.value) == InOrder(t)
      && r.value.isRed == t.isRed && IsRed(r.value.left)
      && r.value.count == t.count
      && r.value.left.left == t.left && r.value.left.right == t.right.left && r.value.right == t.right.right
    ensures r.Some? && CountsOk(t) ==> CountsOk(r.value)
  {
    if t.Leaf? then None
    else if !IsRed(t.right) then None
    else
      var x := t.right;
      assert CountsOk(t) ==> CountsOk(x) && CountsOk(x.left) && CountsOk(x.right);
      // The demoted node takes the risen node's inner (left) subtree, is recounted and turns red.
      var demoted := Node(t.key, t.value, t.left, x.left, CountOf(t.left) + CountOf(x.left) + 1, true);
      // The risen node adopts it, takes over its colour and the subtree's old total count.
      Some(Node(x.key, x.value, demoted, x.right, t.count, t.isRed))
  }

  /**
   * `_rotateRight` (lib/bst.js:97-119). `None` is the `undefined` the source
   * returns when the node is null or its left link is not red.
   */
  function RotateRight<V>(t: Tree<V>): (r: Option<Tree<V>>)
    ensures r.Some? <==> t.Node? && IsRed(t.left)
    ensures r.Some? ==>
      && r.value.Node? && InOrder(r.value) == InOrder(t)
      && r.value.isRed == t.isRed && IsRed(r.value.right)
      && r.value.count == t.count
      && r.value.left == t.left.left && r.value.right.left == t.left.right && r.value.right.right == t.right
    ensures r.Some? && CountsOk(t) ==> CountsOk(r.value)
  {
    if t.Leaf? then None
    else if !IsRed(t.left) then None
    else
      var x := t.left;
      assert CountsOk(t) ==> CountsOk(x) && CountsOk(x.left) && CountsOk(x.right);
      // The demoted node takes the risen node's inner (right) subtree, is recounted and turns red.
      var demoted := Node(t.key, t.value, x.right, t.right, CountOf(x.right) + CountOf(t.right) + 1, true);
      // The risen node adopts it, takes over its colour and the subtree's old total count.
      Some(Node(x.key, x.value, x.left, demoted, t.count, t.isRed))
  }

  /**
   * `_flipColors` (lib/bst.js:121-128): only when both children are red, it
   * blackens both and reddens the node.
   */
  function FlipColors<V>(t: Tree<V>): (r: Option<Tree<V>>)
    ensures r.Some? <==> t.Node? && IsRed(t.left) && IsRed(t.right)
    ensures r.Some? ==>
      && r.value.Node? && InOrder(r.value) == InOrder(t) && r.value.count == t.count
      && r.value.isRed && r.value.left.Node? && !r.value.left.isRed && r.value.right.Node? && !r.value.right.isRed
      && r.value.left.(isRed := true) == t.left && r.value.right.(isRed := true) == t.right
    ensures r.Some? && CountsOk(t) ==> CountsOk(r.value)
  {
    if t.Leaf? then None
    else if !IsRed(t.left) || !IsRed(t.right) then None
    else
      var l, r := t.left.(isRed := false), t.right.(isRed := false);
      RecolourKeepsCounts(t.left, false);
      RecolourKeepsCounts(t.right, false);
      Some(t.(left := l, right := r, isRed := true))
  }

  /** The colour of a node plays no part in the size augmentation. */
  lemma RecolourKeepsCounts<V>(t: Tree<V>, red: bool)
    requires t.Node?
    ensures CountsOk(t.(isRed := red)) == CountsOk(t)
  {
  }

  /**
   * The red-black balance steps of `_put` (lib/bst.js:150-166), in order:
   * lean left, balance a 4-node, split a 4-node. Each rotation and the flip
   * is applied only under its own guard, so the `Some` is always present.
   *
   * Deviation from the source as written: lib/bst.js:159 calls
   * `this._rotateRight(node)` and drops its result; this step uses the
   * rotated-up node, as lines 154 and 164 do for the other two steps.
   * The literal reading is `BstAsWritten.BalanceAsWritten`.
   * (The guard `this.left !== null` of line 157 reads an undefined field of
   * the tree object and is always true.)
   */
  function Balance<V>(n: Tree<V>): (r: Tree<V>)
    requires n.Node?
    ensures r.Node? && InOrder(r) == InOrder(n) && r.count == n.count
    ensures CountsOk(n) ==> CountsOk(r)
  {
    var leaned := if IsRed(n.right) && !IsRed(n.left) then RotateLeft(n).value else n;
    var balanced := if IsRed(leaned.left) && IsRed(leaned.left.left) then RotateRight(leaned).value else leaned;
    if IsRed(balanced.left) && IsRed(balanced.right) then FlipColors(balanced).value else balanced
  }

  /**
   * `_put` (lib/bst.js:130-168): descend by key, create a red node of count 1
   * at a null link, overwrite the value of an equal key, re-link the child,
   * recount (line 148), then balance. The source's special case for a null
   * child (lines 136-137, 142-143) creates the same node that the recursive
   * call would return.
   *
   * A node created for a new key holds `created`: the `Node` constructor
   * substitutes the key for an undefined value (lib/bst.js:13). An equal key
   * is overwritten with `val` exactly as passed (line 134), undefined or not.
   */
  function PutNode<V>(t: Tree<V>, key: int, created: V, val: V): (r: Tree<V>)
    ensures r.Node?
  {
    match t
    case Leaf => Node(key, created, Leaf, Leaf, 1, true)
    case Node(k, _, l, rt, _, _) =>
      var relinked :=
        if k == key then t.(value := val)
        else if key < k then t.(left := PutNode(l, key, created, val))
        else t.(right := PutNode(rt, key, created, val));
      Balance(Recount(relinked))
  }

  /** Balancing keeps the keys, the order and every lookup of an ordered subtree. */
  lemma BalanceKeepsContents<V>(n: Tree<V>)
    requires n.Node? && Ordered(n)
    ensures Ordered(Balance(n)) && Keys(Balance(n)) == Keys(n)
    ensures forall j :: Find(Balance(n), j) == Find(n, j)
  {
    var b := Balance(n);
    OrderedIffSorted(n);
    OrderedIffSorted(b);
    KeysInOrder(n);
    KeysInOrder(b);
    forall j ensures Find(b, j) == Find(n, j) {
      SameInOrderSameFind(b, n, j);
    }
  }

  /** Linking the grown left subtree back keeps the contents facts of the insertion. */
  lemma RelinkLeft<V>(t: Tree<V>, l2: Tree<V>, key: int, val: V)
    requires t.Node? && Ordered(t) && key < t.key
    requires Ordered(l2) && Keys(l2) == Keys(t.left) + {key} && Find(l2, key) == Some(val)
    requires forall j :: j != key ==> Find(l2, j) == Find(t.left, j)
    ensures var n := Recount(t.(left := l2));
      && Ordered(n) && Keys(n) == Keys(t) + {key} && Find(n, key) == Some(val)
      && forall j :: j != key ==> Find(n, j) == Find(t, j)
  {
  }

  /** Linking the grown right subtree back keeps the contents facts of the insertion. */
  lemma RelinkRight<V>(t: Tree<V>, r2: Tree<V>, key: int, val: V)
    requires t.Node? && Ordered(t) && t.key < key
    requires Ordered(r2) && Keys(r2) == Keys(t.right) + {key} && Find(r2, key) == Some(val)
    requires forall j :: j != key ==> Find(r2, j) == Find(t.right, j)
    ensures var n := Recount(t.(right := r2));
      && Ordered(n) && Keys(n) == Keys(t) + {key} && Find(n, key) == Some(val)
      && forall j :: j != key ==> Find(n, j) == Find(t, j)
  {
  }

  /**
   * Insertion into an ordered subtree keeps it ordered, adds exactly the key,
   * stores under it `val` when the key was present and `created` when it was
   * new, and leaves every other lookup unchanged.
   */
  lemma {:induction false} PutNodeContents<V>(t: Tree<V>, key: int, created: V, val: V)
    requires Ordered(t)
    ensures Ordered(PutNode(t, key, created, val))
    ensures Keys(PutNode(t, key, created, val)) == Keys(t) + {key}
    ensures Find(PutNode(t, key, created, val), key) == Some(if key in Keys(t) then val else created)
    ensures forall j :: j != key ==> Find(PutNode(t, key, created, val), j) == Find(t, j)
  {
    match t
    case Leaf =>
    case Node(k, _, l, rt, _, _) =>
      var n;
      if key < k {
        assert key in Keys(t) <==> key in Keys(l);
        PutNodeContents(l, key, created, val);
        RelinkLeft(t, PutNode(l, key, created, val), key, if key in Keys(l) then val else created);
        n := Recount(t.(left := PutNode(l, key, created, val)));
      } else if k < key {
        assert key in Keys(t) <==> key in Keys(rt);
        PutNodeContents(rt, key, created, val);
        RelinkRight(t, PutNode(rt, key, created, val), key, if key in Keys(rt) then val else created);
        n := Recount(t.(right := PutNode(rt, key, created, val)));
      } else {
        n := Recount(t.(value := val));
      }
      assert PutNode(t, key, created, val) == Balance(n);
      BalanceKeepsContents(n);
  }

  /** Insertion adds one node for a new key and none for a key already stored. */
  lemma {:induction false} PutNodeSize<V>(t: Tree<V>, key: int, created: V, val: V)
    requires Ordered(t)
    ensures |InOrder(PutNode(t, key, created, val))| == |InOrder(t)| + (if key in Keys(t) then 0 else 1)
  {
    match t
    case Leaf =>
    case Node(k, _, l, rt, _, _) =>
      if key < k {
        PutNodeSize(l, key, created, val);
      } else if k < key {
        PutNodeSize(rt, key, created, val);
      }
  }

  /**
   * Insertion keeps the size augmentation: every count on the rebuilt path is
   * recomputed, and the root's count rises by one exactly for a new key.
   */
  lemma {:induction false} PutNodeCounts<V>(t: Tree<V>, key: int, created: V, val: V)
    requires Ordered(t) && CountsOk(t)
    ensures CountsOk(PutNode(t, key, created, val))
    ensures CountOf(PutNode(t, key, created, val)) == CountOf(t) + (if key in Keys(t) then 0 else 1)
  {
    match t
    case Leaf =>
    case Node(k, _, l, rt, _, _) =>
      if key < k {
        PutNodeCounts(l, key, created, val);
      } else if k < key {
        PutNodeCounts(rt, key, created, val);
      }
      PutNodeSize(t, key, created, val);
      CountIsSize(t);
      CountIsSize(PutNode(t, key, created, val));
  }

  // The left-leaning red-black shape (the invariants behind the "lean left /
  // balance 4-node / split 4-node" steps of lib/bst.js:150-166).

  /** No node has a red right child: red links lean left. */
  ghost predicate NoRedRight<V>(t: Tree<V>) {
    match t
    case Leaf => true
    case Node(_, _, l, r, _, _) => !IsRed(r) && NoRedRight(l) && NoRedRight(r)
  }

  /** No red node has a red child: no two red links in a row. */
  ghost predicate NoRedRed<V>(t: Tree<V>) {
    match t
    case Leaf => true
    case Node(_, _, l, r, _, red) => !(red && (IsRed(l) || IsRed(r))) && NoRedRed(l) && NoRedRed(r)
  }

  /** The number of black nodes on the leftmost path, the root included. */
  function BlackHeight<V>(t: Tree<V>): nat {
    match t
    case Leaf => 0
    case Node(_, _, l, _, _, red) => BlackHeight(l) + (if red then 0 else 1)
  }

  /** Every path from a node to a null link meets the same number of black nodes. */
  ghost predicate BlackBalanced<V>(t: Tree<V>) {
    match t
    case Leaf => true
    case Node(_, _, l, r, _, _) => BlackBalanced(l) && BlackBalanced(r) && BlackHeight(l) == BlackHeight(r)
  }

  /** A left-leaning red-black subtree. */
  ghost predicate IsLLRB<V>(t: Tree<V>) {
    NoRedRight(t) && NoRedRed(t) && BlackBalanced(t)
  }

  /**
   * The one defect an insertion below a red node may hand back to its parent:
   * a red node whose left child is red too, both otherwise well formed. The
   * parent's "balance 4-node" step repairs it.
   */
  ghost predicate RedLeftRed<V>(t: Tree<V>) {
    && t.Node? && t.isRed && IsRed(t.left) && !IsRed(t.right)
    && IsLLRB(t.left) && IsLLRB(t.right) && BlackHeight(t.left) == BlackHeight(t.right)
  }

  /** The balance steps leave a well-formed node alone. */
  lemma BalanceOfLLRB<V>(n: Tree<V>)
    requires n.Node? && IsLLRB(n)
    ensures Balance(n) == n
  {
    assert NoRedRed(n.left);
  }

  /** Re-linking the left child after an insertion into it, then balancing. */
  lemma BalanceAfterLeftInsert<V>(t: Tree<V>, n: Tree<V>)
    requires t.Node? && IsLLRB(t)
    requires n.Node? && n.isRed == t.isRed && n.right == t.right
    requires BlackBalanced(n.left) && BlackHeight(n.left) == BlackHeight(t.left)
    requires !IsRed(t.left) ==> IsLLRB(n.left)
    requires IsRed(t.left) ==> IsRed(n.left) && (IsLLRB(n.left) || RedLeftRed(n.left))
    ensures BlackBalanced(Balance(n)) && BlackHeight(Balance(n)) == BlackHeight(t)
    ensures !IsRed(t) ==> IsLLRB(Balance(n))
    ensures IsRed(t) ==> IsRed(Balance(n)) && (IsLLRB(Balance(n)) || RedLeftRed(Balance(n)))
  {
    if IsRed(t.left) && RedLeftRed(n.left) {
      // Only under a black node: rotate right, then split the 4-node.
      var rotated := RotateRight(n).value;
      var flipped := FlipColors(rotated).value;
      assert Balance(n) == flipped;
    }
  }

  /** Re-linking the right child after an insertion into it, then balancing. */
  lemma BalanceAfterRightInsert<V>(t: Tree<V>, n: Tree<V>)
    requires t.Node? && IsLLRB(t)
    requires n.Node? && n.isRed == t.isRed && n.left == t.left
    requires IsLLRB(n.right) && BlackHeight(n.right) == BlackHeight(t.right)
    ensures BlackBalanced(Balance(n)) && BlackHeight(Balance(n)) == BlackHeight(t)
    ensures !IsRed(t) ==> IsLLRB(Balance(n))
    ensures IsRed(t) ==> IsRed(Balance(n)) && (IsLLRB(Balance(n)) || RedLeftRed(Balance(n)))
  {
    assert NoRedRed(n.left);
    if !IsRed(n.right) {
      assert Balance(n) == n;
    } else if !IsRed(n.left) {
      RightInsertLeans(t, n);
    } else {
      RightInsertSplits(t, n);
    }
  }

  /** A red right child beside a black left one: `Balance` rotates left. */
  lemma RightInsertLeans<V>(t: Tree<V>, n: Tree<V>)
    requires t.Node? && IsLLRB(t)
    requires n.Node? && n.isRed == t.isRed && n.left == t.left
    requires IsLLRB(n.right) && BlackHeight(n.right) == BlackHeight(t.right)
    requires IsRed(n.right) && !IsRed(n.left)
    ensures BlackBalanced(Balance(n)) && BlackHeight(Balance(n)) == BlackHeight(t)
    ensures !IsRed(t) ==> IsLLRB(Balance(n))
    ensures IsRed(t) ==> IsRed(Balance(n)) && (IsLLRB(Balance(n)) || RedLeftRed(Balance(n)))
  {
    assert !IsRed(n.right.left) && !IsRed(n.right.right);
    var leaned := RotateLeft(n).value;
    assert Balance(n) == leaned;
  }

  /** Two red children: `Balance` splits the 4-node by flipping colours. */
  lemma RightInsertSplits<V>(t: Tree<V>, n: Tree<V>)
    requires t.Node? && IsLLRB(t)
    requires n.Node? && n.isRed == t.isRed && n.left == t.left
    requires IsLLRB(n.right) && BlackHeight(n.right) == BlackHeight(t.right)
    requires IsRed(n.right) && IsRed(n.left)
    ensures BlackBalanced(Balance(n)) && BlackHeight(Balance(n)) == BlackHeight(t)
    ensures !IsRed(t) ==> IsLLRB(Balance(n))
    ensures IsRed(t) ==> IsRed(Balance(n)) && (IsLLRB(Balance(n)) || RedLeftRed(Balance(n)))
  {
    assert NoRedRed(n.left) && NoRedRed(n.right);
    var flipped := FlipColors(n).value;
    assert Balance(n) == flipped;
    assert flipped.left == n.left.(isRed := false) && flipped.right == n.right.(isRed := false);
    Blackened(n.left);
    Blackened(n.right);
  }

  /** Blackening a red node keeps its shape and adds one to its black height. */
  lemma Blackened<V>(x: Tree<V>)
    requires x.Node? && x.isRed && IsLLRB(x)
    ensures IsLLRB(x.(isRed := false)) && BlackHeight(x.(isRed := false)) == BlackHeight(x) + 1
  {
  }

  /**
   * Insertion keeps the black height and the left-leaning red-black shape
   * below a black node; below a red node it may leave a red-red pair on the
   * left, which the parent repairs.
   */
  lemma {:induction false} PutNodeKeepsLLRB<V>(t: Tree<V>, key: int, created: V, val: V)
    requires IsLLRB(t)
    ensures BlackBalanced(PutNode(t, key, created, val)) && BlackHeight(PutNode(t, key, created, val)) == BlackHeight(t)
    ensures !IsRed(t) ==> IsLLRB(PutNode(t, key, created, val))
    ensures IsRed(t) ==> IsRed(PutNode(t, key, created, val)) && (IsLLRB(PutNode(t, key, created, val)) || RedLeftRed(PutNode(t, key, created, val)))
  {
    match t
    case Leaf =>
    case Node(k, _, l, rt, _, _) =>
      if key == k {
        var n := Recount(t.(value := val));
        BalanceOfLLRB(n);
      } else if key < k {
        PutNodeKeepsLLRB(l, key, created, val);
        BalanceAfterLeftInsert(t, Recount(t.(left := PutNode(l, key, created, val))));
      } else {
        PutNodeKeepsLLRB(rt, key, created, val);
        BalanceAfterRightInsert(t, Recount(t.(right := PutNode(rt, key, created, val))));
      }
  }

  /** `this.root.isRed = false` (lib/bst.js:179). */
  function Blacken<V>(t: Tree<V>): (r: Tree<V>)
    ensures !IsRed(r) && InOrder(r) == InOrder(t) && CountOf(r) == CountOf(t)
  {
    if t.Leaf? then t else t.(isRed := false)
  }

  /** Blackening the root changes no key, no order and no lookup. */
  lemma BlackenKeepsContents<V>(t: Tree<V>)
    ensures Keys(Blacken(t)) == Keys(t) && (Ordered(t) ==> Ordered(Blacken(t)))
    ensures CountsOk(t) ==> CountsOk(Blacken(t))
    ensures forall k :: Find(Blacken(t), k) == Find(t, k)
  {
  }

  /** `put` (lib/bst.js:177-181) on a well-formed tree gives a well-formed tree with a black root. */
  lemma PutKeepsLLRB<V>(t: Tree<V>, key: int, created: V, val: V)
    requires IsLLRB(t)
    ensures IsLLRB(Blacken(PutNode(t, key, created, val)))
  {
    PutNodeKeepsLLRB(t, key, created, val);
    var r := PutNode(t, key, created, val);
    if IsRed(t) {
      // Only reachable when the caller did not blacken the root before.
      if RedLeftRed(r) {
        assert IsLLRB(Blacken(r));
      }
    }
  }

  /**
   * The tree with the value under `key` replaced by `val`, and nothing else
   * changed: the same nodes, links, colours and counts. This is what an
   * overwrite is meant to do.
   */
  function SetValue<V>(t: Tree<V>, key: int, val: V): (r: Tree<V>)
    ensures Keys(r) == Keys(t) && CountOf(r) == CountOf(t) && IsRed(r) == IsRed(t)
    ensures forall k :: Find(r, k) == if k == key && Find(t, k).Some? then Some(val) else Find(t, k)
  {
    match t
    case Leaf => Leaf
    case Node(k, _, l, rt, _, _) =>
      if key == k then t.(value := val)
      else if key < k then t.(left := SetValue(l, key, val))
      else t.(right := SetValue(rt, key, val))
  }

  /** Replacing one value keeps order, the size augmentation and the red-black shape. */
  lemma {:induction false} SetValueKeepsShape<V>(t: Tree<V>, key: int, val: V)
    ensures Ordered(t) ==> Ordered(SetValue(t, key, val))
    ensures CountsOk(t) ==> CountsOk(SetValue(t, key, val))
    ensures IsLLRB(t) ==> IsLLRB(SetValue(t, key, val))
    ensures BlackHeight(SetValue(t, key, val)) == BlackHeight(t)
  {
    match t
    case Leaf =>
    case Node(k, _, l, rt, _, _) =>
      SetValueKeepsShape(l, key, val);
      SetValueKeepsShape(rt, key, val);
  }

  /** Setting the value a key already holds changes nothing. */
  lemma {:induction false} SetValueSame<V>(t: Tree<V>, key: int, val: V)
    requires Find(t, key) == Some(val)
    ensures SetValue(t, key, val) == t
  {
    match t
    case Node(k, _, l, rt, _, _) =>
      if key < k {
        SetValueSame(l, key, val);
      } else if key > k {
        SetValueSame(rt, key, val);
      }
  }

  /**
   * `_put` on a key the tree already holds (lib/bst.js:133-134) only
   * overwrites the value: on a well-formed tree the recount and the balance
   * steps on the way back up change nothing.
   */
  lemma {:induction false} OverwriteOnlyValue<V>(t: Tree<V>, key: int, created: V, val: V)
    requires Ordered(t) && CountsOk(t) && IsLLRB(t) && key in Keys(t)
    ensures PutNode(t, key, created, val) == SetValue(t, key, val)
  {
    match t
    case Node(k, _, l, rt, _, _) =>
      SetValueKeepsShape(t, key, val);
      if key < k {
        OverwriteOnlyValue(l, key, created, val);
      } else if key > k {
        OverwriteOnlyValue(rt, key, created, val);
      }
      BalanceOfLLRB(SetValue(t, key, val));
  }
}
