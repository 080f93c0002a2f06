/**
 * Three places where lib/bst.js as written does not do what it evidently
 * means to, each modelled literally and shown on a concrete input. The rest
 * of the model uses the corrected readings (`BstBalance.Balance`,
 * `Bst.BinarySearchTree.FindNode`, `BstQuery.CountRangeChecked`).
 */
module BstAsWritten {
  import opened Wrappers
  import opened BstNode
  import opened BstBalance
  import opened BstQuery
  import opened Bst

  /**
   * The balance steps of `_put` as written (lib/bst.js:150-166). Line 159
   * calls `this._rotateRight(node)` and drops the result, so `node` stays
   * the demoted old root: its left link now points at the old left child's
   * right subtree, its count is recomputed and it is red. The old left
   * child, now the top of the rotated subtree, is no longer reachable from
   * `node` and is lost.
   */
  function BalanceAsWritten<V>(n: Tree<V>): (r: Tree<V>)
    requires n.Node?
    ensures r.Node?
    ensures IsRed(n.left) && IsRed(n.left.left) && !IsRed(n.right) ==>
      r.key == n.key && r.left == n.left.right
  {
    var leaned := if IsRed(n.right) && !IsRed(n.left) then RotateLeft(n).value else n;
    var balanced := if IsRed(leaned.left) && IsRed(leaned.left.left) then RotateRight(leaned).value.right else leaned;
    if IsRed(balanced.left) && IsRed(balanced.right) then FlipColors(balanced).value else balanced
  }

  /** `_put` as written: `BstBalance.PutNode` with the literal balance step. */
  function PutNodeAsWritten<V>(t: Tree<V>, key: int, created: V, val: V): (r: Tree<V>)
    ensures r.Node?
  {
    match t
    case Leaf => Node(key, created, Leaf, Leaf, 1, true)
    case Node(k, _, l, rt, _, _) =>
      var relinked :=
        if k == key then t.(value := val)
        else if key < k then t.(left := PutNodeAsWritten(l, key, created, val))
        else t.(right := PutNodeAsWritten(rt, key, created, val));
      BalanceAsWritten(Recount(relinked))
  }

  /** Subtrees with the same traversal hold the same keys. */
  lemma SameInOrderSameKeys<V>(a: Tree<V>, b: Tree<V>)
    requires InOrder(a) == InOrder(b)
    ensures Keys(a) == Keys(b)
  {
    KeysInOrder(a);
    KeysInOrder(b);
  }

  /** The literal balance step never adds a key, but may drop some. */
  lemma BalanceAsWrittenKeys<V>(n: Tree<V>)
    requires n.Node?
    ensures Keys(BalanceAsWritten(n)) <= Keys(n)
  {
    var leaned := if IsRed(n.right) && !IsRed(n.left) then RotateLeft(n).value else n;
    SameInOrderSameKeys(leaned, n);
    var balanced := if IsRed(leaned.left) && IsRed(leaned.left.left) then RotateRight(leaned).value.right else leaned;
    if IsRed(leaned.left) && IsRed(leaned.left.left) {
      SameInOrderSameKeys(RotateRight(leaned).value, leaned);
    }
    if IsRed(balanced.left) && IsRed(balanced.right) {
      SameInOrderSameKeys(FlipColors(balanced).value, balanced);
    }
  }

  /** As written, an insertion never adds a key other than its own, but may lose keys. */
  lemma {:induction false} PutNodeAsWrittenKeys<V>(t: Tree<V>, key: int, created: V, val: V)
    ensures Keys(PutNodeAsWritten(t, key, created, val)) <= Keys(t) + {key}
  {
    match t
    case Leaf =>
    case Node(k, _, l, rt, _, _) =>
      var relinked :=
        if k == key then t.(value := val)
        else if key < k then t.(left := PutNodeAsWritten(l, key, created, val))
        else t.(right := PutNodeAsWritten(rt, key, created, val));
      if key < k {
        PutNodeAsWrittenKeys(l, key, created, val);
      } else if k < key {
        PutNodeAsWrittenKeys(rt, key, created, val);
      }
      SameInOrderSameKeys(Recount(relinked), relinked);
      BalanceAsWrittenKeys(Recount(relinked));
  }

  /**
   * `put(key, val)` as written: the literal `_put` from the root, then blacken
   * the root. A new node holds `val`, or the key when `val` is undefined; an
   * existing key is overwritten with `val` as passed.
   */
  function PutAsWritten(t: Tree<Value>, key: int, val: Option<int>): (r: Tree<Value>)
    ensures r.Node? && !IsRed(r)
  {
    Blacken(PutNodeAsWritten(t, key, Some(val.GetOr(key)), val))
  }

  /** `put(key, val)` with the corrected balance step, as `Bst.BinarySearchTree.Put` performs it. */
  function PutCorrected(t: Tree<Value>, key: int, val: Option<int>): (r: Tree<Value>)
    ensures r.Node? && !IsRed(r)
  {
    Blacken(PutNode(t, key, Some(val.GetOr(key)), val))
  }

  /**
   * Inserting 3, 2, 1 (no values) as written leaves a tree holding only the
   * key 3: the third insertion hits the "balance 4-node" step at the root
   * and loses keys 1 and 2.
   */
  lemma PutAsWrittenLosesKeys()
    ensures Keys(PutAsWritten(PutAsWritten(PutAsWritten(Leaf, 3, None), 2, None), 1, None)) == {3}
  {
    StepOne();
    StepTwo();
    StepThree();
    StepFour();
  }

  // The four steps of `PutAsWrittenLosesKeys`, one unfolding each.

  /** `put(3)` on the empty tree. */
  lemma StepOne()
    ensures PutAsWritten(Leaf, 3, None) == Node(3, Some(3), Leaf, Leaf, 1, false)
  {
  }

  /** `put(2)`: 2 becomes the red left child of 3. */
  lemma StepTwo()
    ensures PutAsWritten(Node(3, Some(3), Leaf, Leaf, 1, false), 2, None)
      == Node(3, Some(3), Node(2, Some(2), Leaf, Leaf, 1, true), Leaf, 2, false)
  {
    var two := Node(2, Some(2), Leaf, Leaf, 1, true);
    assert PutNodeAsWritten(Leaf, 2, Some(2), None) == two;
    assert PutNodeAsWritten(Node(3, Some(3), Leaf, Leaf, 1, false), 2, Some(2), None)
      == BalanceAsWritten(Node(3, Some(3), two, Leaf, 2, false));
  }

  /** `_put(1)` below the red 2: 1 becomes its red left child. */
  lemma StepThree()
    ensures PutNodeAsWritten(Node(2, Some(2), Leaf, Leaf, 1, true), 1, Some(1), None)
      == Node(2, Some(2), Node(1, Some(1), Leaf, Leaf, 1, true), Leaf, 2, true)
  {
    var one := Node(1, Some(1), Leaf, Leaf, 1, true);
    assert PutNodeAsWritten(Leaf, 1, Some(1), None) == one;
  }

  /** The root 3 now has two reds in a row on its left; the dropped rotation leaves 3 alone. */
  lemma StepFour()
    ensures BalanceAsWritten(Node(3, Some(3), Node(2, Some(2), Node(1, Some(1), Leaf, Leaf, 1, true), Leaf, 2, true), Leaf, 3, false))
      == Node(3, Some(3), Leaf, Leaf, 1, true)
  {
  }

  /** The same three insertions with the corrected balance step keep all three keys. */
  lemma PutCorrectedKeepsKeys()
    ensures Keys(PutCorrected(PutCorrected(PutCorrected(Leaf, 3, None), 2, None), 1, None)) == {1, 2, 3}
  {
    PutCorrectedAddsThree(Leaf, 3, 2, 1);
  }

  /** Three corrected `put`s without values add exactly their three keys. */
  lemma PutCorrectedAddsThree(t: Tree<Value>, a: int, b: int, c: int)
    requires Ordered(t)
    ensures Keys(PutCorrected(PutCorrected(PutCorrected(t, a, None), b, None), c, None)) == Keys(t) + {a} + {b} + {c}
  {
    var t1 := PutCorrected(t, a, None);
    PutCorrectedAdds(t, a, None);
    var t2 := PutCorrected(t1, b, None);
    PutCorrectedAdds(t1, b, None);
    PutCorrectedAdds(t2, c, None);
  }

  /** One corrected `put` keeps order and adds exactly its key. */
  lemma PutCorrectedAdds(t: Tree<Value>, key: int, val: Option<int>)
    requires Ordered(t)
    ensures Ordered(PutCorrected(t, key, val)) && Keys(PutCorrected(t, key, val)) == Keys(t) + {key}
  {
    PutNodeContents(t, key, Some(val.GetOr(key)), val);
    BlackenKeepsContents(PutNode(t, key, Some(val.GetOr(key)), val));
  }

  /**
   * `_findNode` as written (lib/bst.js:183-196): line 189 tests
   * `compareIsLess(this.comparekey, node.key)`, that is `undefined < key`,
   * which is false for every key, so the walk always takes the right link.
   * It finds a key only on the right spine of the tree.
   */
  function FindNodeAsWritten<V>(t: Tree<V>, key: int): (r: Tree<V>)
    ensures r.Node? ==> r.key == key && key in Keys(t)
  {
    match t
    case Leaf => Leaf
    case Node(k, _, _, rt, _, _) => if k == key then t else FindNodeAsWritten(rt, key)
  }

  /**
   * After `put(2)` and `put(1)` as written, the key 1 is the red left child
   * of 2; the walk as written turns right at 2 and returns null, so
   * `getValue(1)` is null although 1 is stored and the descent by key finds it.
   */
  lemma FindAsWrittenMisses()
    ensures var t := PutAsWritten(PutAsWritten(Leaf, 2, None), 1, None);
      && 1 in Keys(t)
      && FindNodeAsWritten(t, 1).Leaf?
      && Find(t, 1) == Some(Some(1))
  {
    var t1 := PutAsWritten(Leaf, 2, None);
    assert t1 == Node(2, Some(2), Leaf, Leaf, 1, false);
    var t2 := PutAsWritten(t1, 1, None);
    assert PutNodeAsWritten(Leaf, 1, Some(1), None) == Node(1, Some(1), Leaf, Leaf, 1, true);
    assert t2 == Node(2, Some(2), Node(1, Some(1), Leaf, Leaf, 1, true), Leaf, 2, false);
  }

  /**
   * `countRange` as written returns -1 for a one-node tree holding 3 and the
   * range (3, 3) with both ends excluded: the node is counted both as
   * "at or below from" and as "at or above to". The guarded count is 0.
   */
  lemma CountRangeNegative()
    ensures var t := Node(3, 3, Leaf, Leaf, 1, false);
      && CountRangeNode(t, 3, 3, true, true) == -1
      && CountRangeChecked(t, 3, 3, true, true) == 0
  {
  }
}
